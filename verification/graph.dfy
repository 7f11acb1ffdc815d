/**
 * The graph notions Kahn's algorithm (src/utils/topologicalSort.ts) works
 * with: the key order of its in-degree map, in-degrees counted against the
 * ids already emitted, successor lists, and cycles.
 */
module Graph {
  import opened Types

  /** The elements of a sequence. */
  function Elems<T>(s: seq<T>): set<T>
  {
    set x | x in s
  }

  /** Appending an element adds it to the elements. */
  lemma ElemsSnoc<T>(s: seq<T>, x: T)
    ensures Elems(s + [x]) == Elems(s) + {x}
  {
  }

  // ------------------------------------------------------------ key order

  /** The first occurrence of every element of `s`, in order: the key order of a JS `Map` filled from `s`. */
  function Dedup<T(==)>(s: seq<T>): (d: seq<T>)
    ensures Distinct(d)
  {
    if |s| == 0 then []
    else
      var init, last := s[..|s| - 1], s[|s| - 1];
      var p := Dedup(init);
      assert forall i :: 0 <= i < |init| ==> s[i] == init[i];
      if last in p then p else p + [last]
  }

  /** The first occurrences hold exactly the elements of `s`. */
  lemma {:induction false} DedupSame<T>(s: seq<T>)
    ensures forall i :: 0 <= i < |Dedup(s)| ==> Dedup(s)[i] in s
    ensures forall i :: 0 <= i < |s| ==> s[i] in Dedup(s)
  {
    if |s| > 0 {
      var init := s[..|s| - 1];
      DedupSame(init);
      assert s == init + [s[|s| - 1]];
    }
  }

  /** Appending an element adds it to the end of the key order when it is new, and changes nothing otherwise. */
  lemma DedupSnoc<T>(s: seq<T>, x: T)
    ensures Dedup(s + [x]) == if x in Dedup(s) then Dedup(s) else Dedup(s) + [x]
  {
    assert (s + [x])[..|s + [x]| - 1] == s;
  }

  /** Adding elements never moves an element already placed: a later duplicate keeps the first position. */
  lemma {:induction false} DedupPrefix<T>(a: seq<T>, b: seq<T>)
    ensures |Dedup(a)| <= |Dedup(a + b)|
    ensures Dedup(a + b)[..|Dedup(a)|] == Dedup(a)
    ensures forall i :: |Dedup(a)| <= i < |Dedup(a + b)| ==> Dedup(a + b)[i] in b
  {
    if |b| > 0 {
      var b' := b[..|b| - 1];
      DedupPrefix(a, b');
      assert (a + b)[..|a + b| - 1] == a + b';
    } else {
      assert a + b == a;
    }
  }

  /** The targets of the edges, in edge order. */
  function Targets(edges: seq<DependencyEdge>): (ts: seq<string>)
    ensures |ts| == |edges|
    ensures forall i :: 0 <= i < |edges| ==> ts[i] == edges[i].to
  {
    seq(|edges|, i requires 0 <= i < |edges| => edges[i].to)
  }

  /** The key order of the in-degree map: the node ids first, then each new edge target. */
  function Keys(nodes: seq<string>, edges: seq<DependencyEdge>): seq<string>
  {
    Dedup(nodes + Targets(edges))
  }

  // ------------------------------------------------------ edges and degrees

  /** There is an edge from `u` to `v`. */
  predicate Linked(edges: seq<DependencyEdge>, u: string, v: string)
  {
    DependencyEdge(u, v) in edges
  }

  /** The targets of the edges leaving `u`, in edge order, repeats kept: `u`'s adjacency list. */
  function Successors(edges: seq<DependencyEdge>, u: string): (succ: seq<string>)
    ensures forall v :: v in succ <==> Linked(edges, u, v)
  {
    if |edges| == 0 then []
    else
      var init, e := edges[..|edges| - 1], edges[|edges| - 1];
      assert edges == init + [e];
      Successors(init, u) + (if e.from == u then [e.to] else [])
  }

  /** The number of edges into `v` whose source is not in `done`: `v`'s in-degree once `done` has been emitted. */
  function Pending(edges: seq<DependencyEdge>, done: set<string>, v: string): nat
  {
    if |edges| == 0 then 0
    else
      var e := edges[|edges| - 1];
      Pending(edges[..|edges| - 1], done, v) + (if e.to == v && e.from !in done then 1 else 0)
  }

  /** The edges into `v` counted over one more edge. */
  lemma PendingSnoc(edges: seq<DependencyEdge>, done: set<string>, j: nat, v: string)
    requires j < |edges|
    ensures Pending(edges[..j + 1], done, v)
         == Pending(edges[..j], done, v) + (if edges[j].to == v && edges[j].from !in done then 1 else 0)
  {
    assert edges[..j + 1][..j] == edges[..j];
  }

  /** The adjacency list of `u` over one more edge. */
  lemma SuccessorsSnoc(edges: seq<DependencyEdge>, j: nat, u: string)
    requires j < |edges|
    ensures Successors(edges[..j + 1], u)
         == Successors(edges[..j], u) + (if edges[j].from == u then [edges[j].to] else [])
  {
    assert edges[..j + 1][..j] == edges[..j];
  }

  /** The targets of one more edge. */
  lemma TargetsSnoc(edges: seq<DependencyEdge>, j: nat)
    requires j < |edges|
    ensures Targets(edges[..j + 1]) == Targets(edges[..j]) + [edges[j].to]
  {
  }

  /** The number of edges into `v`. */
  function InDegree(edges: seq<DependencyEdge>, v: string): nat
  {
    Pending(edges, {}, v)
  }

  /** Nothing is pending for `v` exactly when every source of an edge into `v` is done. */
  lemma {:induction false} PendingZero(edges: seq<DependencyEdge>, done: set<string>, v: string)
    ensures Pending(edges, done, v) == 0
        <==> forall k :: 0 <= k < |edges| && edges[k].to == v ==> edges[k].from in done
  {
    if |edges| > 0 {
      var init := edges[..|edges| - 1];
      PendingZero(init, done, v);
      assert forall k :: 0 <= k < |init| ==> init[k] == edges[k];
    }
  }

  /** Emitting `c` releases one pending edge into `v` per occurrence of `v` in `c`'s adjacency list. */
  lemma {:induction false} PendingStep(edges: seq<DependencyEdge>, done: set<string>, c: string, v: string)
    requires c !in done
    ensures Pending(edges, done, v) == Pending(edges, done + {c}, v) + multiset(Successors(edges, c))[v]
  {
    if |edges| > 0 {
      PendingStep(edges[..|edges| - 1], done, c, v);
    }
  }

  /** The in-degree of an edge target is positive. */
  lemma TargetInDegree(edges: seq<DependencyEdge>, k: nat)
    requires k < |edges|
    ensures InDegree(edges, edges[k].to) > 0
  {
    PendingZero(edges, {}, edges[k].to);
  }

  // ---------------------------------------------------------------- roots

  /** The elements of `keys` with in-degree 0, in order. */
  function ZeroIn(edges: seq<DependencyEdge>, keys: seq<string>): (z: seq<string>)
    ensures |z| <= |keys|
    ensures forall i :: 0 <= i < |z| ==> z[i] in keys && InDegree(edges, z[i]) == 0
  {
    if |keys| == 0 then []
    else
      var init, k := keys[..|keys| - 1], keys[|keys| - 1];
      assert keys == init + [k];
      ZeroIn(edges, init) + (if InDegree(edges, k) == 0 then [k] else [])
  }

  /** Filtering keeps a sequence free of repeats. */
  lemma {:induction false} ZeroInDistinct(edges: seq<DependencyEdge>, keys: seq<string>)
    requires Distinct(keys)
    ensures Distinct(ZeroIn(edges, keys))
  {
    if |keys| > 0 {
      var init := keys[..|keys| - 1];
      ZeroInDistinct(edges, init);
      assert keys[|keys| - 1] !in init;
    }
  }

  /** Every key of in-degree 0 passes the filter. */
  lemma {:induction false} ZeroInHas(edges: seq<DependencyEdge>, keys: seq<string>, x: string)
    requires x in keys && InDegree(edges, x) == 0
    ensures x in ZeroIn(edges, keys)
  {
    var init := keys[..|keys| - 1];
    if x != keys[|keys| - 1] {
      assert keys == init + [keys[|keys| - 1]];
      ZeroInHas(edges, init, x);
    }
  }

  /** `ZeroIn` distributes over concatenation. */
  lemma {:induction false} ZeroInAppend(edges: seq<DependencyEdge>, a: seq<string>, b: seq<string>)
    ensures ZeroIn(edges, a + b) == ZeroIn(edges, a) + ZeroIn(edges, b)
  {
    if |b| == 0 {
      assert a + b == a;
    } else {
      var b' := b[..|b| - 1];
      ZeroInAppend(edges, a, b');
      assert (a + b)[..|a + b| - 1] == a + b';
    }
  }

  /** The keys the in-degree map starts at 0: the ids of `nodes` no edge points to. */
  function Roots(nodes: seq<string>, edges: seq<DependencyEdge>): seq<string>
  {
    ZeroIn(edges, Keys(nodes, edges))
  }

  /** No element of `keys` has in-degree 0, so none is a root. */
  lemma {:induction false} ZeroInNone(edges: seq<DependencyEdge>, keys: seq<string>)
    requires forall i :: 0 <= i < |keys| ==> InDegree(edges, keys[i]) > 0
    ensures ZeroIn(edges, keys) == []
  {
    if |keys| > 0 {
      ZeroInNone(edges, keys[..|keys| - 1]);
    }
  }

  /** A key added to the in-degree map after the node ids is an edge target. */
  lemma LateKeyIsTarget(nodes: seq<string>, edges: seq<DependencyEdge>, i: nat)
    requires |Dedup(nodes)| <= i < |Keys(nodes, edges)|
    ensures InDegree(edges, Keys(nodes, edges)[i]) > 0
  {
    DedupPrefix(nodes, Targets(edges));
    TargetHasInDegree(edges, Keys(nodes, edges)[i]);
  }

  /** Every edge target has a positive in-degree. */
  lemma TargetHasInDegree(edges: seq<DependencyEdge>, x: string)
    requires x in Targets(edges)
    ensures InDegree(edges, x) > 0
  {
    var ts := Targets(edges);
    var k :| 0 <= k < |ts| && ts[k] == x;
    TargetInDegree(edges, k);
  }

  /**
   * The roots are the node ids without an incoming edge, each once, in the
   * order of their first occurrence in `nodes`: edge targets added to the
   * map after the nodes never start at 0.
   */
  lemma RootsInNodeOrder(nodes: seq<string>, edges: seq<DependencyEdge>)
    ensures Roots(nodes, edges) == ZeroIn(edges, Dedup(nodes))
  {
    var d, all := Dedup(nodes), Keys(nodes, edges);
    DedupPrefix(nodes, Targets(edges));
    forall i | |d| <= i < |all| ensures InDegree(edges, all[i]) > 0 {
      LateKeyIsTarget(nodes, edges, i);
    }
    ZeroInAfterPrefix(edges, all, d);
  }

  /** Filtering a sequence whose elements past the prefix `d` all have incoming edges filters `d` alone. */
  lemma ZeroInAfterPrefix(edges: seq<DependencyEdge>, all: seq<string>, d: seq<string>)
    requires |d| <= |all| && all[..|d|] == d
    requires forall i :: |d| <= i < |all| ==> InDegree(edges, all[i]) > 0
    ensures ZeroIn(edges, all) == ZeroIn(edges, d)
  {
    var extra := all[|d|..];
    assert all == d + extra;
    ZeroInAppend(edges, d, extra);
    ZeroInNone(edges, extra);
  }

  // --------------------------------------------------------------- cycles

  /** `p` is a closed walk: an edge from each element to the next and from the last back to the first. */
  predicate IsCycle(edges: seq<DependencyEdge>, p: seq<string>)
  {
    && |p| > 0
    && (forall i :: 0 <= i < |p| - 1 ==> Linked(edges, p[i], p[i + 1]))
    && Linked(edges, p[|p| - 1], p[0])
  }

  /** The edges form no cycle. */
  ghost predicate Acyclic(edges: seq<DependencyEdge>)
  {
    forall p :: !IsCycle(edges, p)
  }

  /** A sequence without repeats drawn from a set is no longer than the set is large. */
  lemma {:induction false} DistinctWithin<T>(s: seq<T>, b: set<T>)
    requires Distinct(s)
    requires forall i :: 0 <= i < |s| ==> s[i] in b
    ensures |s| <= |b|
  {
    if |s| > 0 {
      var rest := s[1..];
      forall i | 0 <= i < |rest| ensures rest[i] in b - {s[0]} {
        assert rest[i] == s[i + 1];
      }
      DistinctWithin(rest, b - {s[0]});
    }
  }

  /** Some element of `b` has an edge into `v`. */
  ghost predicate HasPredIn(edges: seq<DependencyEdge>, b: set<string>, v: string)
  {
    exists u :: u in b && Linked(edges, u, v)
  }

  /** A walk of `n` steps against the edges inside `b`, when every element of `b` has a predecessor in `b`. */
  lemma {:induction false} BackwardWalk(edges: seq<DependencyEdge>, b: set<string>, start: string, n: nat)
    returns (w: seq<string>)
    requires start in b
    requires forall v {:trigger HasPredIn(edges, b, v)} :: v in b ==> HasPredIn(edges, b, v)
    ensures |w| == n + 1 && w[0] == start
    ensures forall i :: 0 <= i < |w| ==> w[i] in b
    ensures forall i :: 0 <= i < n ==> Linked(edges, w[i + 1], w[i])
  {
    if n == 0 {
      w := [start];
    } else {
      var p := BackwardWalk(edges, b, start, n - 1);
      assert HasPredIn(edges, b, p[n - 1]);
      var u :| u in b && Linked(edges, u, p[n - 1]);
      w := p + [u];
    }
  }

  /** A nonempty set whose every element has a predecessor inside it lies on a cycle. */
  lemma BlockedSetHasCycle(edges: seq<DependencyEdge>, b: set<string>)
    requires b != {}
    requires forall v {:trigger HasPredIn(edges, b, v)} :: v in b ==> HasPredIn(edges, b, v)
    ensures !Acyclic(edges)
  {
    var start :| start in b;
    var w := BackwardWalk(edges, b, start, |b|);
    if Distinct(w) {
      DistinctWithin(w, b);
      assert false;
    }
    var i, j :| 0 <= i < j < |w| && w[i] == w[j];
    var p := seq(j - i, t requires 0 <= t < j - i => w[j - t]);
    forall t | 0 <= t < |p| - 1 ensures Linked(edges, p[t], p[t + 1]) {
      assert p[t] == w[(j - t - 1) + 1];
    }
    assert Linked(edges, w[i + 1], w[i]);
    assert IsCycle(edges, p);
  }

  // ---------------------------------------------------------------- order

  /** Every edge into `v` comes from an element of `earlier`. */
  predicate SourcesIn(edges: seq<DependencyEdge>, v: string, earlier: seq<string>)
  {
    forall k :: 0 <= k < |edges| && edges[k].to == v ==> edges[k].from in earlier
  }

  /** Every edge into an element of `order` comes from an element placed strictly before it. */
  predicate Precedes(edges: seq<DependencyEdge>, order: seq<string>)
    decreases |order|
  {
    |order| == 0 || (Precedes(edges, order[..|order| - 1]) && SourcesIn(edges, order[|order| - 1], order[..|order| - 1]))
  }

  /** `Precedes` read position by position: the source of every edge into `order[j]` is in `order[..j]`. */
  lemma {:induction false} PrecedesAt(edges: seq<DependencyEdge>, order: seq<string>)
    requires Precedes(edges, order)
    ensures forall k, j :: 0 <= k < |edges| && 0 <= j < |order| && order[j] == edges[k].to ==> edges[k].from in order[..j]
  {
    if |order| > 0 {
      var init := order[..|order| - 1];
      PrecedesAt(edges, init);
      forall k, j | 0 <= k < |edges| && 0 <= j < |order| && order[j] == edges[k].to
        ensures edges[k].from in order[..j]
      {
        if j < |init| {
          assert order[..j] == init[..j];
          assert init[j] == order[j];
        }
      }
    }
  }

  /** A sequence none of whose elements is an edge target satisfies `Precedes`. */
  lemma {:induction false} PrecedesFree(edges: seq<DependencyEdge>, order: seq<string>)
    requires forall k, j :: 0 <= k < |edges| && 0 <= j < |order| ==> order[j] != edges[k].to
    ensures Precedes(edges, order)
  {
    if |order| > 0 {
      var init := order[..|order| - 1];
      forall k, j | 0 <= k < |edges| && 0 <= j < |init| ensures init[j] != edges[k].to {
        assert init[j] == order[j];
      }
      PrecedesFree(edges, init);
      assert SourcesIn(edges, order[|order| - 1], init) by {
        forall k | 0 <= k < |edges| ensures edges[k].to != order[|order| - 1] {
        }
      }
    }
  }

  /** A queue element whose sources all come earlier may be appended while keeping `Precedes`. */
  lemma PrecedesSnoc(edges: seq<DependencyEdge>, trail: seq<string>, v: string)
    requires Precedes(edges, trail)
    requires SourcesIn(edges, v, trail)
    ensures Precedes(edges, trail + [v])
  {
    assert (trail + [v])[..|trail|] == trail;
  }
}
