/**
 * Front-to-back definitions of the graph functions, stated independently of
 * the back-to-front ones the proofs of the sort use, and shown equal to
 * them. They read as the loops of src/utils/topologicalSort.ts:16-35 read,
 * one element after another from the front.
 */
module Reference {
  import opened Types
  import opened Graph
  import opened QueueOrder

  /** The targets of the edges leaving `u`, in edge order, read from the front. */
  function OutgoingFrom(edges: seq<DependencyEdge>, u: string): seq<string>
  {
    if |edges| == 0 then []
    else (if edges[0].from == u then [edges[0].to] else []) + OutgoingFrom(edges[1..], u)
  }

  /** The edges into `v` whose source is not in `done`, counted from the front. */
  function PendingFrom(edges: seq<DependencyEdge>, done: set<string>, v: string): nat
  {
    if |edges| == 0 then 0
    else (if edges[0].to == v && edges[0].from !in done then 1 else 0) + PendingFrom(edges[1..], done, v)
  }

  /** The keys of in-degree 0, filtered from the front. */
  function ZeroInFrom(edges: seq<DependencyEdge>, keys: seq<string>): seq<string>
  {
    if |keys| == 0 then []
    else (if PendingFrom(edges, {}, keys[0]) == 0 then [keys[0]] else []) + ZeroInFrom(edges, keys[1..])
  }

  /** `seen` extended by each element of `s` not met before, in order: the key insertion of a JS `Map`. */
  function FirstOccurrences(seen: seq<string>, s: seq<string>): seq<string>
    decreases |s|
  {
    if |s| == 0 then seen
    else FirstOccurrences(if s[0] in seen then seen else seen + [s[0]], s[1..])
  }

  /** The successors in `nbrs` that an emission completing `done` frees, read from the front. */
  function FreedFrom(edges: seq<DependencyEdge>, done: set<string>, nbrs: seq<string>): seq<string>
  {
    if |nbrs| == 0 then []
    else
      (if PendingFrom(edges, done, nbrs[0]) == 0 && nbrs[0] !in nbrs[1..] then [nbrs[0]] else [])
      + FreedFrom(edges, done, nbrs[1..])
  }

  /** `Successors` distributes over concatenation. */
  lemma {:induction false} SuccessorsAppend(a: seq<DependencyEdge>, b: seq<DependencyEdge>, u: string)
    ensures Successors(a + b, u) == Successors(a, u) + Successors(b, u)
  {
    if |b| == 0 {
      assert a + b == a;
    } else {
      var b' := b[..|b| - 1];
      SuccessorsAppend(a, b', u);
      assert (a + b)[..|a + b| - 1] == a + b';
    }
  }

  /** `Pending` adds up over concatenation. */
  lemma {:induction false} PendingAppend(a: seq<DependencyEdge>, b: seq<DependencyEdge>, done: set<string>, v: string)
    ensures Pending(a + b, done, v) == Pending(a, done, v) + Pending(b, done, v)
  {
    if |b| == 0 {
      assert a + b == a;
    } else {
      var b' := b[..|b| - 1];
      PendingAppend(a, b', done, v);
      assert (a + b)[..|a + b| - 1] == a + b';
    }
  }

  /** Both readings of the successor list agree. */
  lemma {:induction false} SuccessorsAgree(edges: seq<DependencyEdge>, u: string)
    ensures Successors(edges, u) == OutgoingFrom(edges, u)
    decreases |edges|
  {
    if |edges| > 0 {
      SuccessorsAgree(edges[1..], u);
      SuccessorsAppend([edges[0]], edges[1..], u);
      assert [edges[0]] + edges[1..] == edges;
      assert [edges[0]][..0] == [];
    }
  }

  /** Both counts of pending edges agree. */
  lemma {:induction false} PendingAgree(edges: seq<DependencyEdge>, done: set<string>, v: string)
    ensures Pending(edges, done, v) == PendingFrom(edges, done, v)
    decreases |edges|
  {
    if |edges| > 0 {
      PendingAgree(edges[1..], done, v);
      PendingAppend([edges[0]], edges[1..], done, v);
      assert [edges[0]] + edges[1..] == edges;
      assert [edges[0]][..0] == [];
    }
  }

  /** Both filters for the keys of in-degree 0 agree. */
  lemma {:induction false} ZeroInAgree(edges: seq<DependencyEdge>, keys: seq<string>)
    ensures ZeroIn(edges, keys) == ZeroInFrom(edges, keys)
    decreases |keys|
  {
    if |keys| > 0 {
      ZeroInAgree(edges, keys[1..]);
      ZeroInAppend(edges, [keys[0]], keys[1..]);
      assert [keys[0]] + keys[1..] == keys;
      ZeroInOne(edges, keys[0]);
    }
  }

  /** A single key is kept exactly when nothing points to it. */
  lemma ZeroInOne(edges: seq<DependencyEdge>, k: string)
    ensures ZeroIn(edges, [k]) == if PendingFrom(edges, {}, k) == 0 then [k] else []
  {
    assert [k][..0] == [];
    PendingAgree(edges, {}, k);
  }

  /** Deduplicating a longer sequence continues the key insertion from the shorter one's keys. */
  lemma {:induction false} DedupAgree(a: seq<string>, b: seq<string>)
    ensures Dedup(a + b) == FirstOccurrences(Dedup(a), b)
    decreases |b|
  {
    if |b| == 0 {
      assert a + b == a;
    } else {
      var a' := a + [b[0]];
      calc {
        Dedup(a + b);
        { assert a' + b[1..] == a + b; }
        Dedup(a' + b[1..]);
        { DedupAgree(a', b[1..]); }
        FirstOccurrences(Dedup(a'), b[1..]);
        { DedupSnoc(a, b[0]); }
        FirstOccurrences(if b[0] in Dedup(a) then Dedup(a) else Dedup(a) + [b[0]], b[1..]);
      }
    }
  }

  /** The first `n` successors as `Freed` reads them, followed by the rest read from the front, give the front reading. */
  lemma {:induction false} FreedAgreeFrom(edges: seq<DependencyEdge>, done: set<string>, nbrs: seq<string>, n: nat)
    requires n <= |nbrs|
    ensures Freed(edges, done, nbrs, n) + FreedFrom(edges, done, nbrs[n..]) == FreedFrom(edges, done, nbrs)
    decreases n
  {
    if n > 0 {
      FreedAgreeFrom(edges, done, nbrs, n - 1);
      PendingAgree(edges, done, nbrs[n - 1]);
      assert nbrs[n - 1..][1..] == nbrs[n..];
      assert nbrs[n - 1..][0] == nbrs[n - 1];
    }
  }

  /** Both readings of the ids an emission frees agree. */
  lemma FreedAgree(edges: seq<DependencyEdge>, done: set<string>, nbrs: seq<string>)
    ensures Freed(edges, done, nbrs, |nbrs|) == FreedFrom(edges, done, nbrs)
  {
    FreedAgreeFrom(edges, done, nbrs, |nbrs|);
    assert nbrs[|nbrs|..] == [];
  }

  /** Elements that are all new arrive in order: a duplicate-free list keeps every element. */
  lemma {:induction false} FirstOccurrencesFresh(seen: seq<string>, s: seq<string>)
    requires Distinct(s) && forall i :: 0 <= i < |s| ==> s[i] !in seen
    ensures FirstOccurrences(seen, s) == seen + s
    decreases |s|
  {
    if |s| > 0 {
      assert s[0] !in seen;
      FirstOccurrencesFresh(seen + [s[0]], s[1..]);
      assert seen + [s[0]] + s[1..] == seen + s;
    }
  }
}
