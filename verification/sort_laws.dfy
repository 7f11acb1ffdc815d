/**
 * What an emission order with the guarantees of Kahn's algorithm
 * (src/utils/topologicalSort.ts) says about cycles, about the cycle flag and
 * about the ids it leaves out. The lemmas here hold of any order with those
 * guarantees; `Kahn.TopologicalSort` establishes them for its result.
 */
module SortLaws {
  import opened Types
  import opened Graph

  // ---------------------------------------------------------- cardinality

  /** A sequence has at most as many distinct elements as it is long. */
  lemma {:induction false} ElemsBound<T>(s: seq<T>)
    ensures |Elems(s)| <= |s|
  {
    if |s| > 0 {
      var init := s[..|s| - 1];
      ElemsBound(init);
      assert s == init + [s[|s| - 1]];
      ElemsSnoc(init, s[|s| - 1]);
    }
  }

  /** A sequence with a repeat has fewer distinct elements than it is long. */
  lemma {:induction false} RepeatShrinks<T>(s: seq<T>)
    requires !Distinct(s)
    ensures |Elems(s)| < |s|
  {
    var init, last := s[..|s| - 1], s[|s| - 1];
    assert s == init + [last];
    ElemsSnoc(init, last);
    if last in init {
      ElemsBound(init);
      assert Elems(s) == Elems(init);
    } else {
      assert !Distinct(init) by {
        var i, j :| 0 <= i < j < |s| && s[i] == s[j];
        assert j < |init| && init[i] == init[j];
      }
      RepeatShrinks(init);
    }
  }

  /** A sequence without repeats has as many distinct elements as it is long. */
  lemma {:induction false} DistinctSize<T>(s: seq<T>)
    requires Distinct(s)
    ensures |Elems(s)| == |s|
  {
    if |s| > 0 {
      var init, last := s[..|s| - 1], s[|s| - 1];
      assert s == init + [last];
      ElemsSnoc(init, last);
      assert last !in init;
      DistinctSize(init);
    }
  }

  /** In a sequence without repeats every element occurs once. */
  lemma {:induction false} DistinctCount<T>(s: seq<T>, x: T)
    requires Distinct(s)
    ensures multiset(s)[x] == if x in s then 1 else 0
  {
    if |s| > 0 {
      var init, last := s[..|s| - 1], s[|s| - 1];
      assert s == init + [last];
      assert last !in init;
      DistinctCount(init, x);
    }
  }

  /** Two sequences without repeats over the same elements are permutations of each other. */
  lemma SamePermutation<T>(a: seq<T>, b: seq<T>)
    requires Distinct(a) && Distinct(b) && Elems(a) == Elems(b)
    ensures multiset(a) == multiset(b)
  {
    forall x ensures multiset(a)[x] == multiset(b)[x] {
      DistinctCount(a, x);
      DistinctCount(b, x);
      assert x in a <==> x in Elems(a);
      assert x in b <==> x in Elems(b);
    }
  }

  /** A subset as large as its superset is the whole set. */
  lemma FullSubset<T>(a: set<T>, b: set<T>)
    requires a <= b && |a| == |b|
    ensures a == b
  {
    assert b == a + (b - a);
    assert a * (b - a) == {};
  }

  // ---------------------------------------------------------------- keys

  /** A key of the in-degree map is a node id or an edge target. */
  lemma KeyOrigin(nodes: seq<string>, edges: seq<DependencyEdge>, x: string)
    requires x in Keys(nodes, edges)
    ensures x in nodes || exists t :: 0 <= t < |edges| && edges[t].to == x
  {
    var all := nodes + Targets(edges);
    DedupSame(all);
    var i :| 0 <= i < |Keys(nodes, edges)| && Keys(nodes, edges)[i] == x;
    var j :| 0 <= j < |all| && all[j] == x;
    if j >= |nodes| {
      assert edges[j - |nodes|].to == x;
    }
  }

  /** Every node id is a key of the in-degree map. */
  lemma NodesAreKeys(nodes: seq<string>, edges: seq<DependencyEdge>)
    ensures forall i :: 0 <= i < |nodes| ==> nodes[i] in Keys(nodes, edges)
  {
    var all := nodes + Targets(edges);
    DedupSame(all);
    forall i | 0 <= i < |nodes| ensures nodes[i] in Keys(nodes, edges) {
      assert all[i] == nodes[i];
    }
  }

  /** When every edge target is a node id, the keys are exactly the node ids. */
  lemma KeysAreNodes(nodes: seq<string>, edges: seq<DependencyEdge>)
    requires forall t :: 0 <= t < |edges| ==> edges[t].to in nodes
    ensures Elems(Keys(nodes, edges)) == Elems(nodes)
  {
    NodesAreKeys(nodes, edges);
    forall x | x in Elems(Keys(nodes, edges)) ensures x in Elems(nodes) {
      KeyOrigin(nodes, edges, x);
    }
  }

  // --------------------------------------------------------------- cycles

  /** `v` has an incoming edge from an id outside `order`. */
  ghost predicate Blocked(edges: seq<DependencyEdge>, order: seq<string>, v: string)
  {
    exists t :: 0 <= t < |edges| && edges[t].to == v && edges[t].from !in order
  }

  /** Nothing pending for `v` against the ids of `order` means no edge into `v` from outside it. */
  lemma BlockedIffPending(edges: seq<DependencyEdge>, order: seq<string>, v: string)
    ensures Blocked(edges, order, v) <==> Pending(edges, Elems(order), v) > 0
  {
    PendingZero(edges, Elems(order), v);
    if Pending(edges, Elems(order), v) > 0 {
      var t :| 0 <= t < |edges| && edges[t].to == v && edges[t].from !in Elems(order);
    }
  }

  /** No element of a cycle sits in the first `j` places of an order satisfying `Precedes`. */
  lemma {:induction false} PrefixOffCycle(edges: seq<DependencyEdge>, order: seq<string>, p: seq<string>, j: nat)
    requires Precedes(edges, order) && IsCycle(edges, p) && j <= |order|
    ensures forall t, i :: 0 <= t < j && 0 <= i < |p| ==> order[t] != p[i]
  {
    if j > 0 {
      PrefixOffCycle(edges, order, p, j - 1);
      PrecedesAt(edges, order);
      forall i | 0 <= i < |p| ensures order[j - 1] != p[i] {
        var m := if i == 0 then |p| - 1 else i - 1;
        assert Linked(edges, p[m], p[i]);
      }
    }
  }

  /** An order in which every source comes before its targets lists no element of a cycle. */
  lemma CycleNeverListed(edges: seq<DependencyEdge>, order: seq<string>, p: seq<string>)
    requires Precedes(edges, order) && IsCycle(edges, p)
    ensures forall i :: 0 <= i < |p| ==> p[i] !in order
  {
    PrefixOffCycle(edges, order, p, |order|);
  }

  /** With a self-loop on `x`, `x` is never listed. */
  lemma SelfLoopNeverListed(edges: seq<DependencyEdge>, order: seq<string>, x: string)
    requires Precedes(edges, order) && DependencyEdge(x, x) in edges
    ensures x !in order
  {
    assert IsCycle(edges, [x]);
    CycleNeverListed(edges, order, [x]);
  }

  /**
   * When every edge target is a node id, a cycle keeps the order shorter
   * than the node list: its elements are node ids that are never listed.
   */
  lemma FlagOnCycle(nodes: seq<string>, edges: seq<DependencyEdge>, sorted: seq<string>)
    requires Distinct(sorted) && Precedes(edges, sorted)
    requires forall i :: 0 <= i < |sorted| ==> sorted[i] in Keys(nodes, edges)
    requires forall t :: 0 <= t < |edges| ==> edges[t].to in nodes
    requires !Acyclic(edges)
    ensures |sorted| < |nodes|
  {
    var p :| IsCycle(edges, p);
    assert Linked(edges, p[|p| - 1], p[0]);
    var k :| 0 <= k < |edges| && edges[k] == DependencyEdge(p[|p| - 1], p[0]);
    CycleNeverListed(edges, sorted, p);
    KeysAreNodes(nodes, edges);
    forall i | 0 <= i < |sorted| ensures sorted[i] in Elems(nodes) - {p[0]} {
      assert sorted[i] in Elems(Keys(nodes, edges));
    }
    DistinctWithin(sorted, Elems(nodes) - {p[0]});
    ElemsBound(nodes);
  }

  /** When every edge target is a node id, a repeated node id keeps the order shorter than the node list. */
  lemma FlagOnRepeat(nodes: seq<string>, edges: seq<DependencyEdge>, sorted: seq<string>)
    requires Distinct(sorted)
    requires forall i :: 0 <= i < |sorted| ==> sorted[i] in Keys(nodes, edges)
    requires forall t :: 0 <= t < |edges| ==> edges[t].to in nodes
    requires !Distinct(nodes)
    ensures |sorted| < |nodes|
  {
    KeysAreNodes(nodes, edges);
    forall i | 0 <= i < |sorted| ensures sorted[i] in Elems(nodes) {
      assert sorted[i] in Elems(Keys(nodes, edges));
    }
    DistinctWithin(sorted, Elems(nodes));
    RepeatShrinks(nodes);
  }

  /** Every edge endpoint is a node id. */
  predicate Closed(nodes: seq<string>, edges: seq<DependencyEdge>)
  {
    forall t :: 0 <= t < |edges| ==> edges[t].from in nodes && edges[t].to in nodes
  }

  /**
   * Over distinct node ids that every edge stays within, an order shorter
   * than the node list whose missing ids are all blocked exposes a cycle:
   * the missing ids each have a missing predecessor.
   */
  lemma CycleOnFlag(nodes: seq<string>, edges: seq<DependencyEdge>, sorted: seq<string>)
    requires Distinct(nodes) && Closed(nodes, edges)
    requires Distinct(sorted)
    requires forall i :: 0 <= i < |sorted| ==> sorted[i] in Keys(nodes, edges)
    requires forall k {:trigger Blocked(edges, sorted, k)} :: k in Keys(nodes, edges) && k !in sorted ==> Blocked(edges, sorted, k)
    requires |sorted| != |nodes|
    ensures !Acyclic(edges)
  {
    ListedAreNodes(nodes, edges, sorted);
    var b := Elems(nodes) - Elems(sorted);
    SomeMissing(nodes, sorted);
    NodesAreKeys(nodes, edges);
    forall v | v in b ensures HasPredIn(edges, b, v) {
      assert v in Keys(nodes, edges);
      BlockedHasPred(nodes, edges, sorted, v);
    }
    BlockedSetHasCycle(edges, b);
  }

  /** When every edge target is a node id, every listed key is a node id. */
  lemma ListedAreNodes(nodes: seq<string>, edges: seq<DependencyEdge>, sorted: seq<string>)
    requires forall t :: 0 <= t < |edges| ==> edges[t].to in nodes
    requires forall i :: 0 <= i < |sorted| ==> sorted[i] in Keys(nodes, edges)
    ensures Elems(sorted) <= Elems(nodes)
  {
    KeysAreNodes(nodes, edges);
    forall x | x in Elems(sorted) ensures x in Elems(nodes) {
      assert x in Elems(Keys(nodes, edges));
    }
  }

  /** A list without repeats drawn from distinct node ids, of another length, misses one of them. */
  lemma SomeMissing(nodes: seq<string>, sorted: seq<string>)
    requires Distinct(nodes) && Distinct(sorted) && Elems(sorted) <= Elems(nodes)
    requires |sorted| != |nodes|
    ensures Elems(nodes) - Elems(sorted) != {}
  {
    DistinctSize(nodes);
    DistinctSize(sorted);
    assert Elems(nodes) == Elems(sorted) + (Elems(nodes) - Elems(sorted));
  }

  /** A blocked node id has a predecessor among the unlisted node ids, when every edge stays within the nodes. */
  lemma BlockedHasPred(nodes: seq<string>, edges: seq<DependencyEdge>, sorted: seq<string>, v: string)
    requires Closed(nodes, edges)
    requires Blocked(edges, sorted, v)
    ensures HasPredIn(edges, Elems(nodes) - Elems(sorted), v)
  {
    var t :| 0 <= t < |edges| && edges[t].to == v && edges[t].from !in sorted;
    assert edges[t].from in Elems(nodes) - Elems(sorted) && Linked(edges, edges[t].from, v);
  }

  /**
   * Over distinct node ids that every edge stays within, an acyclic graph is
   * sorted completely: the order is a permutation of the node ids.
   */
  lemma CompleteOnAcyclic(nodes: seq<string>, edges: seq<DependencyEdge>, sorted: seq<string>)
    requires Distinct(nodes) && Closed(nodes, edges)
    requires Distinct(sorted)
    requires forall i :: 0 <= i < |sorted| ==> sorted[i] in Keys(nodes, edges)
    requires forall k {:trigger Blocked(edges, sorted, k)} :: k in Keys(nodes, edges) && k !in sorted ==> Blocked(edges, sorted, k)
    requires Acyclic(edges)
    ensures |sorted| == |nodes|
    ensures multiset(sorted) == multiset(nodes)
  {
    if |sorted| != |nodes| {
      CycleOnFlag(nodes, edges, sorted);
    }
    KeysAreNodes(nodes, edges);
    forall x | x in Elems(sorted) ensures x in Elems(nodes) {
      assert x in Elems(Keys(nodes, edges));
    }
    DistinctSize(nodes);
    DistinctSize(sorted);
    FullSubset(Elems(sorted), Elems(nodes));
    SamePermutation(sorted, nodes);
  }

  /** A source that is neither a node id nor an edge target never gets listed, and neither do its targets. */
  lemma DanglingSourceBlocks(nodes: seq<string>, edges: seq<DependencyEdge>, sorted: seq<string>, t: nat)
    requires Precedes(edges, sorted)
    requires forall i :: 0 <= i < |sorted| ==> sorted[i] in Keys(nodes, edges)
    requires t < |edges| && edges[t].from !in nodes
    requires forall s :: 0 <= s < |edges| ==> edges[s].to != edges[t].from
    ensures edges[t].from !in sorted && edges[t].to !in sorted
  {
    var u := edges[t].from;
    if u in sorted {
      var i :| 0 <= i < |sorted| && sorted[i] == u;
      KeyOrigin(nodes, edges, u);
    }
    PrecedesAt(edges, sorted);
  }
}
