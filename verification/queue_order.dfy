/**
 * The order in which the queue of Kahn's algorithm hands out ids
 * (src/utils/topologicalSort.ts:37-54): first the roots, then, each time an
 * id is emitted, those of its successors that the emission frees, in
 * adjacency order. `Trail` spells that order out, and a sequence that is its
 * own trail and never emits an id before queuing it is unique.
 */
module QueueOrder {
  import opened Types
  import opened Graph

  /**
   * Of the first `n` entries of `nbrs`, the successor list of an id whose
   * emission completed `done`, those the emission frees: the last occurrence
   * of each successor left with no pending edge.
   */
  function Freed(edges: seq<DependencyEdge>, done: set<string>, nbrs: seq<string>, n: nat): (f: seq<string>)
    requires n <= |nbrs|
    ensures |f| <= n
    decreases n
  {
    if n == 0 then []
    else
      var v := nbrs[n - 1];
      Freed(edges, done, nbrs, n - 1) + (if Pending(edges, done, v) == 0 && v !in nbrs[n..] then [v] else [])
  }

  /** The ids queued once the ids of `order` have been emitted in turn, starting from `roots`. */
  function Trail(edges: seq<DependencyEdge>, roots: seq<string>, order: seq<string>): (t: seq<string>)
    ensures |roots| <= |t|
    decreases |order|
  {
    if |order| == 0 then roots
    else
      var nbrs := Successors(edges, order[|order| - 1]);
      Trail(edges, roots, order[..|order| - 1]) + Freed(edges, Elems(order), nbrs, |nbrs|)
  }

  /** The trail after one more emission: what the new id frees is appended. */
  lemma TrailSnoc(edges: seq<DependencyEdge>, roots: seq<string>, before: seq<string>, current: string)
    ensures var nbrs := Successors(edges, current);
      Trail(edges, roots, before + [current]) == Trail(edges, roots, before) + Freed(edges, Elems(before + [current]), nbrs, |nbrs|)
  {
    assert (before + [current])[..|before|] == before;
  }

  /** Every id of `order` was queued before it was emitted. */
  predicate Causal(edges: seq<DependencyEdge>, roots: seq<string>, order: seq<string>)
  {
    forall i :: 0 <= i < |order| ==> i < |Trail(edges, roots, order[..i])|
  }

  /** Emitting more ids only appends to the trail. */
  lemma {:induction false} TrailPrefix(edges: seq<DependencyEdge>, roots: seq<string>, order: seq<string>, i: nat)
    requires i <= |order|
    ensures |Trail(edges, roots, order[..i])| <= |Trail(edges, roots, order)|
    ensures Trail(edges, roots, order)[..|Trail(edges, roots, order[..i])|] == Trail(edges, roots, order[..i])
    decreases |order|
  {
    if i < |order| {
      var init := order[..|order| - 1];
      TrailPrefix(edges, roots, init, i);
      assert init[..i] == order[..i];
    } else {
      assert order[..i] == order;
    }
  }

  /** Emitting the head of a non-empty queue keeps every id queued before its emission. */
  lemma CausalSnoc(edges: seq<DependencyEdge>, roots: seq<string>, order: seq<string>, v: string)
    requires Causal(edges, roots, order)
    requires |order| < |Trail(edges, roots, order)|
    ensures Causal(edges, roots, order + [v])
  {
    var order' := order + [v];
    forall i | 0 <= i < |order'| ensures i < |Trail(edges, roots, order'[..i])| {
      if i < |order| {
        assert order'[..i] == order[..i];
      } else {
        assert order'[..i] == order;
      }
    }
  }

  /** In a causal sequence that is its own trail, the id at `i` is the one queued at `i` before its emission. */
  lemma FixpointAt(edges: seq<DependencyEdge>, roots: seq<string>, s: seq<string>, i: nat)
    requires s == Trail(edges, roots, s) && Causal(edges, roots, s)
    requires i < |s|
    ensures i < |Trail(edges, roots, s[..i])| && s[i] == Trail(edges, roots, s[..i])[i]
  {
    TrailPrefix(edges, roots, s, i);
  }

  /** Two causal sequences that are their own trails agree on their common length. */
  lemma {:induction false} CausalAgree(edges: seq<DependencyEdge>, roots: seq<string>, s: seq<string>, t: seq<string>, i: nat)
    requires s == Trail(edges, roots, s) && Causal(edges, roots, s)
    requires t == Trail(edges, roots, t) && Causal(edges, roots, t)
    requires i <= |s| && i <= |t|
    ensures s[..i] == t[..i]
  {
    if i > 0 {
      CausalAgree(edges, roots, s, t, i - 1);
      FixpointAt(edges, roots, s, i - 1);
      FixpointAt(edges, roots, t, i - 1);
      SnocAgree(s, t, i - 1);
    }
  }

  /** Sequences that agree up to `i` and at `i` agree up to `i + 1`. */
  lemma SnocAgree(s: seq<string>, t: seq<string>, i: nat)
    requires i < |s| && i < |t|
    requires s[..i] == t[..i] && s[i] == t[i]
    ensures s[..i + 1] == t[..i + 1]
  {
    assert s[..i + 1] == s[..i] + [s[i]];
    assert t[..i + 1] == t[..i] + [t[i]];
  }

  /** At most one causal sequence is its own trail: the queue discipline fixes the order completely. */
  lemma TrailUnique(edges: seq<DependencyEdge>, roots: seq<string>, s: seq<string>, t: seq<string>)
    requires s == Trail(edges, roots, s) && Causal(edges, roots, s)
    requires t == Trail(edges, roots, t) && Causal(edges, roots, t)
    ensures s == t
  {
    var m := if |s| <= |t| then |s| else |t|;
    CausalAgree(edges, roots, s, t, m);
    if |s| < |t| {
      PrefixNotFixpoint(edges, roots, s, t);
    } else if |t| < |s| {
      PrefixNotFixpoint(edges, roots, t, s);
    }
    assert s == s[..|s|] && t == t[..|t|];
  }

  /** A sequence that is its own trail is no strict prefix of a causal sequence. */
  lemma PrefixNotFixpoint(edges: seq<DependencyEdge>, roots: seq<string>, s: seq<string>, t: seq<string>)
    requires s == Trail(edges, roots, s)
    requires Causal(edges, roots, t) && |s| < |t|
    ensures t[..|s|] != s
  {
    assert |s| < |Trail(edges, roots, t[..|s|])|;
  }
}
