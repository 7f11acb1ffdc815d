/**
 * `topologicalSort` (src/utils/topologicalSort.ts): Kahn's algorithm with an
 * adjacency map, an in-degree map whose key order seeds a FIFO queue, and a
 * cycle flag that compares the output length with the node count.
 */
module Kahn {
  import opened Types
  import opened Graph
  import opened SortLaws
  import opened QueueOrder

  // ------------------------------------------------------ the in-degree map

  /** A JS `Map` from ids to in-degrees: its keys in insertion order and its contents. */
  datatype DegreeMap = DegreeMap(keys: seq<string>, values: map<string, int>)

  /** The key list holds every key of the contents exactly once. */
  ghost predicate Valid(m: DegreeMap)
  {
    Distinct(m.keys) && m.values.Keys == Elems(m.keys)
  }

  /** `m.set(k, v)`: a new key goes to the end of the key order, an existing key keeps its place. */
  function Put(m: DegreeMap, k: string, v: int): (r: DegreeMap)
    requires Valid(m)
    ensures Valid(r)
    ensures r.values == m.values[k := v]
    ensures |m.keys| <= |r.keys| && r.keys[..|m.keys|] == m.keys
    ensures k in m.values ==> r.keys == m.keys
    ensures k !in m.values ==> r.keys == m.keys + [k]
  {
    DegreeMap(if k in m.values then m.keys else m.keys + [k], m.values[k := v])
  }

  /** `inDegree.get(k) || 0`: a missing key, like a stored 0, reads as 0. */
  function DegreeOf(values: map<string, int>, k: string): int
  {
    if k in values then values[k] else 0
  }

  /** `adjacency.get(u) || []`: a missing key reads as the empty list. */
  function AdjacencyOf(adjacency: map<string, seq<string>>, u: string): seq<string>
  {
    if u in adjacency then adjacency[u] else []
  }

  // -------------------------------------------------------- building maps

  /**
   * Lines 12-27: every node gets an empty adjacency list and in-degree 0, then
   * every edge appends its target to its source's list and adds one to its
   * target's in-degree. Sources that are not nodes get a list but no
   * in-degree entry.
   */
  method BuildGraph(nodes: seq<string>, edges: seq<DependencyEdge>)
    returns (adjacency: map<string, seq<string>>, inDegree: DegreeMap)
    ensures Valid(inDegree) && inDegree.keys == Keys(nodes, edges)
    ensures forall k :: k in inDegree.values ==> inDegree.values[k] == InDegree(edges, k)
    ensures forall u :: AdjacencyOf(adjacency, u) == Successors(edges, u)
  {
    adjacency, inDegree := InitNodes(nodes);
    adjacency, inDegree := AddEdges(nodes, edges, adjacency, inDegree);
  }

  /** Lines 16-19: an empty adjacency list and in-degree 0 for every node, keys in first-occurrence order. */
  method InitNodes(nodes: seq<string>) returns (adjacency: map<string, seq<string>>, inDegree: DegreeMap)
    ensures Valid(inDegree) && inDegree.keys == Dedup(nodes)
    ensures forall k :: k in inDegree.values ==> inDegree.values[k] == 0
    ensures forall u :: u in adjacency ==> adjacency[u] == []
  {
    adjacency := map[];
    inDegree := DegreeMap([], map[]);
    var i := 0;
    while i < |nodes|
      invariant i <= |nodes|
      invariant Valid(inDegree) && inDegree.keys == Dedup(nodes[..i])
      invariant forall k :: k in inDegree.values ==> inDegree.values[k] == 0
      invariant forall u :: u in adjacency ==> adjacency[u] == []
    {
      assert nodes[..i + 1] == nodes[..i] + [nodes[i]];
      DedupSnoc(nodes[..i], nodes[i]);
      adjacency := adjacency[nodes[i] := []];
      inDegree := Put(inDegree, nodes[i], 0);
      i := i + 1;
    }
    assert nodes[..i] == nodes;
  }

  /** Lines 22-27: each edge extends its source's adjacency list and its target's in-degree. */
  method AddEdges(nodes: seq<string>, edges: seq<DependencyEdge>,
                  adjacency0: map<string, seq<string>>, inDegree0: DegreeMap)
    returns (adjacency: map<string, seq<string>>, inDegree: DegreeMap)
    requires Valid(inDegree0) && inDegree0.keys == Dedup(nodes)
    requires forall k :: k in inDegree0.values ==> inDegree0.values[k] == 0
    requires forall u :: u in adjacency0 ==> adjacency0[u] == []
    ensures Valid(inDegree) && inDegree.keys == Keys(nodes, edges)
    ensures forall k :: k in inDegree.values ==> inDegree.values[k] == InDegree(edges, k)
    ensures forall u :: AdjacencyOf(adjacency, u) == Successors(edges, u)
  {
    adjacency, inDegree := adjacency0, inDegree0;
    BuiltStart(nodes, edges, adjacency, inDegree);
    var j := 0;
    while j < |edges|
      invariant Built(nodes, edges, j, adjacency, inDegree)
    {
      var e := edges[j];
      BuiltKeysStep(nodes, edges, j, adjacency, inDegree);
      BuiltDegreesStep(nodes, edges, j, adjacency, inDegree);
      AdjacencyStep(edges, j, adjacency);
      adjacency := adjacency[e.from := AdjacencyOf(adjacency, e.from) + [e.to]];
      inDegree := Put(inDegree, e.to, DegreeOf(inDegree.values, e.to) + 1);
      j := j + 1;
    }
    assert edges[..j] == edges;
  }

  /** The maps after the first `j` edges are added (lines 22-27). */
  ghost predicate Built(nodes: seq<string>, edges: seq<DependencyEdge>, j: nat,
                        adjacency: map<string, seq<string>>, inDegree: DegreeMap)
  {
    && j <= |edges|
    && KeysBuilt(nodes, edges, j, inDegree)
    && DegreesBuilt(edges, j, inDegree.values)
    && AdjacencyBuilt(edges, j, adjacency)
  }

  /** The in-degree keys after `j` edges: the node ids, then each new target. */
  ghost predicate KeysBuilt(nodes: seq<string>, edges: seq<DependencyEdge>, j: nat, inDegree: DegreeMap)
    requires j <= |edges|
  {
    Valid(inDegree) && inDegree.keys == Dedup(nodes + Targets(edges[..j]))
  }

  /** The in-degrees after `j` edges: every target so far has one, and each counts the edges so far. */
  ghost predicate DegreesBuilt(edges: seq<DependencyEdge>, j: nat, values: map<string, int>)
    requires j <= |edges|
  {
    && (forall t :: 0 <= t < j ==> edges[t].to in values)
    && (forall k :: k in values ==> values[k] == InDegree(edges[..j], k))
  }

  /** The adjacency lists after `j` edges: each lists the targets of the edges so far, in order. */
  ghost predicate AdjacencyBuilt(edges: seq<DependencyEdge>, j: nat, adjacency: map<string, seq<string>>)
    requires j <= |edges|
  {
    forall u :: AdjacencyOf(adjacency, u) == Successors(edges[..j], u)
  }

  /** The maps holding the nodes alone are the maps after no edges. */
  lemma BuiltStart(nodes: seq<string>, edges: seq<DependencyEdge>,
                   adjacency: map<string, seq<string>>, inDegree: DegreeMap)
    requires Valid(inDegree) && inDegree.keys == Dedup(nodes)
    requires forall k :: k in inDegree.values ==> inDegree.values[k] == 0
    requires forall u :: u in adjacency ==> adjacency[u] == []
    ensures Built(nodes, edges, 0, adjacency, inDegree)
  {
    assert nodes == nodes + Targets(edges[..0]);
    assert edges[..0] == [];
    forall u ensures AdjacencyOf(adjacency, u) == Successors(edges[..0], u) {
    }
    forall k | k in inDegree.values ensures inDegree.values[k] == InDegree(edges[..0], k) {
    }
  }

  /** Adding edge `j` to the in-degree map gives its keys after `j + 1` edges. */
  lemma BuiltKeysStep(nodes: seq<string>, edges: seq<DependencyEdge>, j: nat,
                      adjacency: map<string, seq<string>>, inDegree: DegreeMap)
    requires j < |edges|
    requires Built(nodes, edges, j, adjacency, inDegree)
    ensures KeysBuilt(nodes, edges, j + 1, Put(inDegree, edges[j].to, DegreeOf(inDegree.values, edges[j].to) + 1))
  {
    KeysStep(nodes, edges, j, inDegree, DegreeOf(inDegree.values, edges[j].to) + 1);
  }

  /** Adding edge `j` to the in-degree map gives its values after `j + 1` edges. */
  lemma BuiltDegreesStep(nodes: seq<string>, edges: seq<DependencyEdge>, j: nat,
                         adjacency: map<string, seq<string>>, inDegree: DegreeMap)
    requires j < |edges|
    requires Built(nodes, edges, j, adjacency, inDegree)
    ensures DegreesBuilt(edges, j + 1, Put(inDegree, edges[j].to, DegreeOf(inDegree.values, edges[j].to) + 1).values)
  {
    KeysStep(nodes, edges, j, inDegree, DegreeOf(inDegree.values, edges[j].to) + 1);
    DegreesStep(edges, j, inDegree.values);
  }

  /** Setting the in-degree of the next edge's target extends the key order as the key list predicts. */
  lemma KeysStep(nodes: seq<string>, edges: seq<DependencyEdge>, j: nat, m: DegreeMap, v: int)
    requires j < |edges|
    requires KeysBuilt(nodes, edges, j, m)
    ensures KeysBuilt(nodes, edges, j + 1, Put(m, edges[j].to, v))
    ensures Put(m, edges[j].to, v).values == m.values[edges[j].to := v]
  {
    var keys := nodes + Targets(edges[..j]);
    TargetsSnoc(edges, j);
    assert nodes + Targets(edges[..j + 1]) == keys + [edges[j].to];
    DedupSnoc(keys, edges[j].to);
  }

  /** Adding one to the next edge's target keeps every stored degree equal to the edges counted so far. */
  lemma DegreesStep(edges: seq<DependencyEdge>, j: nat, values: map<string, int>)
    requires j < |edges|
    requires DegreesBuilt(edges, j, values)
    ensures DegreesBuilt(edges, j + 1, values[edges[j].to := DegreeOf(values, edges[j].to) + 1])
  {
    var e := edges[j];
    if e.to !in values {
      UnseenTarget(edges, j, values, e.to);
    }
    var next := values[e.to := DegreeOf(values, e.to) + 1];
    forall k | k in next ensures next[k] == InDegree(edges[..j + 1], k) {
      PendingSnoc(edges, {}, j, k);
    }
  }

  /** Appending the next edge's target to its source's list keeps every list equal to the successors so far. */
  lemma AdjacencyStep(edges: seq<DependencyEdge>, j: nat, adjacency: map<string, seq<string>>)
    requires j < |edges|
    requires AdjacencyBuilt(edges, j, adjacency)
    ensures AdjacencyBuilt(edges, j + 1, adjacency[edges[j].from := AdjacencyOf(adjacency, edges[j].from) + [edges[j].to]])
  {
    var e := edges[j];
    var next := adjacency[e.from := AdjacencyOf(adjacency, e.from) + [e.to]];
    forall u ensures AdjacencyOf(next, u) == Successors(edges[..j + 1], u) {
      assert AdjacencyOf(adjacency, u) == Successors(edges[..j], u);
      SuccessorsSnoc(edges, j, u);
    }
  }

  /** A target not yet in the in-degree map has no edge into it among the edges added so far. */
  lemma UnseenTarget(edges: seq<DependencyEdge>, j: nat, values: map<string, int>, x: string)
    requires j <= |edges|
    requires forall t :: 0 <= t < j ==> edges[t].to in values
    requires x !in values
    ensures InDegree(edges[..j], x) == 0
  {
    PendingZero(edges[..j], {}, x);
  }

  // ------------------------------------------------------------- seeding

  /** Lines 30-35: the keys of in-degree 0, in key order. */
  method SeedQueue(edges: seq<DependencyEdge>, inDegree: DegreeMap) returns (queue: seq<string>)
    requires Valid(inDegree)
    requires forall k :: k in inDegree.values ==> inDegree.values[k] == InDegree(edges, k)
    ensures queue == ZeroIn(edges, inDegree.keys)
  {
    queue := [];
    var i := 0;
    while i < |inDegree.keys|
      invariant i <= |inDegree.keys|
      invariant queue == ZeroIn(edges, inDegree.keys[..i])
    {
      var k := inDegree.keys[i];
      assert inDegree.keys[..i + 1][..i] == inDegree.keys[..i];
      if inDegree.values[k] == 0 {
        queue := queue + [k];
      }
      i := i + 1;
    }
    assert inDegree.keys[..i] == inDegree.keys;
  }

  // ------------------------------------------------------------- draining

  /** Every edge target has an in-degree entry. */
  ghost predicate Covers(edges: seq<DependencyEdge>, deg: map<string, int>)
  {
    forall t :: 0 <= t < |edges| ==> edges[t].to in deg
  }

  /**
   * What holds of the ids queued so far, `trail` (emitted ones first): no id
   * is queued twice, an id has reached degree 0 exactly when it has been
   * queued, every queued id comes after all its sources, and the queue
   * started with the roots.
   */
  ghost predicate TrailInv(edges: seq<DependencyEdge>, roots: seq<string>, deg: map<string, int>, trail: seq<string>)
  {
    && Distinct(trail)
    && (forall i :: 0 <= i < |trail| ==> trail[i] in deg)
    && (forall k :: k in deg ==> (k in trail <==> deg[k] == 0))
    && Precedes(edges, trail)
    && |roots| <= |trail| && trail[..|roots|] == roots
  }

  /**
   * What holds between two steps of the main loop (lines 40-54), over the
   * emitted ids `sorted` and the `queue`: the degrees are the edges still
   * pending, and `TrailInv` holds of the emitted ids followed by the queue.
   */
  ghost predicate DrainInv(edges: seq<DependencyEdge>, roots: seq<string>, deg: map<string, int>,
                           sorted: seq<string>, queue: seq<string>)
  {
    && Covers(edges, deg)
    && (forall k :: k in deg ==> deg[k] == Pending(edges, Elems(sorted), k))
    && TrailInv(edges, roots, deg, sorted + queue)
  }

  /** The queue as first seeded satisfies the loop invariant, with nothing emitted yet. */
  lemma SeedState(nodes: seq<string>, edges: seq<DependencyEdge>, inDegree: DegreeMap)
    requires Valid(inDegree) && inDegree.keys == Keys(nodes, edges)
    requires forall k :: k in inDegree.values ==> inDegree.values[k] == InDegree(edges, k)
    ensures DrainInv(edges, Roots(nodes, edges), inDegree.values, [], Roots(nodes, edges))
  {
    var roots := Roots(nodes, edges);
    assert Elems<string>([]) == {};
    SeedCovers(nodes, edges, inDegree);
    SeedTrail(edges, inDegree);
    assert [] + roots == roots;
  }

  /** Every edge target is a key of the in-degree map. */
  lemma SeedCovers(nodes: seq<string>, edges: seq<DependencyEdge>, inDegree: DegreeMap)
    requires Valid(inDegree) && inDegree.keys == Keys(nodes, edges)
    ensures Covers(edges, inDegree.values)
  {
    DedupSame(nodes + Targets(edges));
    forall t | 0 <= t < |edges| ensures edges[t].to in inDegree.values {
      assert (nodes + Targets(edges))[|nodes| + t] == edges[t].to;
      assert edges[t].to in Elems(inDegree.keys);
    }
  }

  /** The keys of in-degree 0, in key order, satisfy `TrailInv` on their own. */
  lemma SeedTrail(edges: seq<DependencyEdge>, inDegree: DegreeMap)
    requires Valid(inDegree)
    requires forall k :: k in inDegree.values ==> inDegree.values[k] == InDegree(edges, k)
    ensures var roots := ZeroIn(edges, inDegree.keys); TrailInv(edges, roots, inDegree.values, roots)
  {
    var keys, deg, roots := inDegree.keys, inDegree.values, ZeroIn(edges, inDegree.keys);
    ZeroInDistinct(edges, keys);
    forall i | 0 <= i < |roots| ensures roots[i] in deg {
      assert roots[i] in Elems(keys);
    }
    forall k | k in deg ensures k in roots <==> deg[k] == 0 {
      if deg[k] == 0 {
        assert k in Elems(keys);
        ZeroInHas(edges, keys, k);
      }
    }
    forall k, j | 0 <= k < |edges| && 0 <= j < |roots| ensures roots[j] != edges[k].to {
      TargetInDegree(edges, k);
    }
    PrecedesFree(edges, roots);
  }

  /**
   * What holds while the neighbours of the dequeued `current` are processed
   * (lines 45-53): `n` of them are done, each has lost one pending edge per
   * occurrence so far, and the rest of the main-loop invariant holds over the
   * ids emitted before `current`, `current` itself and the queue.
   */
  ghost predicate InnerInv(edges: seq<DependencyEdge>, roots: seq<string>, deg: map<string, int>,
                           before: seq<string>, current: string, nbrs: seq<string>, n: nat, queue: seq<string>)
  {
    && n <= |nbrs| && nbrs == Successors(edges, current) && current !in before
    && Covers(edges, deg)
    && (forall k :: k in deg ==>
          Pending(edges, Elems(before), k) == Pending(edges, Elems(before + [current]), k) + multiset(nbrs)[k])
    && (forall k :: k in deg ==> deg[k] == Pending(edges, Elems(before), k) - multiset(nbrs[..n])[k])
    && TrailInv(edges, roots, deg, before + [current] + queue)
  }

  /** The head of the queue has an in-degree entry and is not emitted yet. */
  lemma HeadFresh(deg: map<string, int>, sorted: seq<string>, queue: seq<string>)
    requires |queue| > 0
    requires Distinct(sorted + queue)
    requires forall i :: 0 <= i < |sorted + queue| ==> (sorted + queue)[i] in deg
    ensures queue[0] in deg && queue[0] !in sorted
  {
    var trail := sorted + queue;
    assert trail[|sorted|] == queue[0];
    forall i | 0 <= i < |sorted| ensures sorted[i] != queue[0] {
      assert trail[i] == sorted[i];
    }
  }

  /** Emitting `c` releases, for every key, one pending edge per occurrence among `c`'s successors. */
  lemma PendingAfterEmit(edges: seq<DependencyEdge>, deg: map<string, int>, sorted: seq<string>, c: string)
    requires c !in sorted
    ensures forall k :: k in deg ==>
      Pending(edges, Elems(sorted), k) == Pending(edges, Elems(sorted + [c]), k) + multiset(Successors(edges, c))[k]
  {
    ElemsSnoc(sorted, c);
    forall k | k in deg
      ensures Pending(edges, Elems(sorted), k) == Pending(edges, Elems(sorted + [c]), k) + multiset(Successors(edges, c))[k]
    {
      PendingStep(edges, Elems(sorted), c, k);
    }
  }

  /** Dequeuing the head of the queue starts the neighbour loop. */
  lemma InnerStart(edges: seq<DependencyEdge>, roots: seq<string>, deg: map<string, int>,
                   sorted: seq<string>, queue: seq<string>)
    requires |queue| > 0
    requires DrainInv(edges, roots, deg, sorted, queue)
    ensures queue[0] in deg && queue[0] !in sorted
    ensures InnerInv(edges, roots, deg, sorted, queue[0], Successors(edges, queue[0]), 0, queue[1..])
  {
    var c := queue[0];
    HeadFresh(deg, sorted, queue);
    PendingAfterEmit(edges, deg, sorted, c);
    assert (sorted + [c]) + queue[1..] == sorted + queue;
    assert Successors(edges, c)[..0] == [];
  }

  /** Every neighbour of an id is an edge target, so it has an in-degree entry. */
  lemma NeighborHasDegree(edges: seq<DependencyEdge>, c: string, nbrs: seq<string>, n: nat, deg: map<string, int>)
    requires n < |nbrs| && nbrs == Successors(edges, c)
    requires forall t :: 0 <= t < |edges| ==> edges[t].to in deg
    ensures nbrs[n] in deg
  {
    assert Linked(edges, c, nbrs[n]);
    var t :| 0 <= t < |edges| && edges[t] == DependencyEdge(c, nbrs[n]);
  }

  /** The occurrences of `v` among the first `n + 1` neighbours are at most those among all. */
  lemma PrefixCount(nbrs: seq<string>, n: nat)
    requires n < |nbrs|
    ensures multiset(nbrs[..n + 1]) == multiset(nbrs[..n]) + multiset{nbrs[n]}
    ensures multiset(nbrs[..n + 1]) <= multiset(nbrs)
  {
    assert nbrs[..n + 1] == nbrs[..n] + [nbrs[n]];
    assert nbrs == nbrs[..n + 1] + nbrs[n + 1..];
  }

  /**
   * Lowering a neighbour's degree by one keeps the degrees equal to the
   * pending edges less the neighbours done, and the lowered degree never
   * falls below what stays pending once `current` is emitted.
   */
  lemma DegreeDrop(edges: seq<DependencyEdge>, deg: map<string, int>,
                   before: seq<string>, current: string, nbrs: seq<string>, n: nat)
    requires n < |nbrs| && nbrs == Successors(edges, current)
    requires Covers(edges, deg)
    requires forall k :: k in deg ==>
      Pending(edges, Elems(before), k) == Pending(edges, Elems(before + [current]), k) + multiset(nbrs)[k]
    requires forall k :: k in deg ==> deg[k] == Pending(edges, Elems(before), k) - multiset(nbrs[..n])[k]
    ensures nbrs[n] in deg && deg[nbrs[n]] > 0
    ensures deg[nbrs[n]] - 1 >= Pending(edges, Elems(before + [current]), nbrs[n])
    ensures forall k :: k in deg ==>
      deg[nbrs[n] := deg[nbrs[n]] - 1][k] == Pending(edges, Elems(before), k) - multiset(nbrs[..n + 1])[k]
  {
    var nb := nbrs[n];
    NeighborHasDegree(edges, current, nbrs, n, deg);
    PrefixCount(nbrs, n);
    assert multiset(nbrs[..n + 1])[nb] <= multiset(nbrs)[nb];
  }

  /** A nonzero degree change leaves the queued ids as they are. */
  lemma TrailKeep(edges: seq<DependencyEdge>, roots: seq<string>, deg: map<string, int>, trail: seq<string>,
                  nb: string, d: int)
    requires TrailInv(edges, roots, deg, trail)
    requires nb in deg && deg[nb] != 0 && d != 0
    ensures TrailInv(edges, roots, deg[nb := d], trail)
  {
  }

  /** An id whose sources are all emitted joins the queue when its degree reaches 0. */
  lemma TrailPush(edges: seq<DependencyEdge>, roots: seq<string>, deg: map<string, int>,
                  sorted: seq<string>, queue: seq<string>, nb: string)
    requires TrailInv(edges, roots, deg, sorted + queue)
    requires nb in deg && deg[nb] != 0
    requires Pending(edges, Elems(sorted), nb) == 0
    ensures TrailInv(edges, roots, deg[nb := 0], sorted + (queue + [nb]))
  {
    var trail, trail' := sorted + queue, sorted + (queue + [nb]);
    PendingZero(edges, Elems(sorted), nb);
    assert SourcesIn(edges, nb, trail) by {
      forall t | 0 <= t < |edges| && edges[t].to == nb ensures edges[t].from in trail {
        assert edges[t].from in Elems(sorted);
      }
    }
    PrecedesSnoc(edges, trail, nb);
    assert trail' == trail + [nb];
    assert trail'[..|roots|] == trail[..|roots|];
  }

  /** Lines 46-52 for one neighbour: its degree drops by one, and it is queued when the degree reaches 0. */
  lemma InnerStep(edges: seq<DependencyEdge>, roots: seq<string>, deg: map<string, int>,
                  before: seq<string>, current: string, nbrs: seq<string>, n: nat, queue: seq<string>,
                  d: int, queue': seq<string>)
    requires n < |nbrs|
    requires InnerInv(edges, roots, deg, before, current, nbrs, n, queue)
    requires d == DegreeOf(deg, nbrs[n]) - 1
    requires queue' == if d == 0 then queue + [nbrs[n]] else queue
    ensures nbrs[n] in deg
    ensures InnerInv(edges, roots, deg[nbrs[n] := d], before, current, nbrs, n + 1, queue')
  {
    var nb := nbrs[n];
    DegreeDrop(edges, deg, before, current, nbrs, n);
    var deg' := deg[nb := d];
    var sorted := before + [current];
    if d == 0 {
      TrailPush(edges, roots, deg, sorted, queue, nb);
    } else {
      TrailKeep(edges, roots, deg, sorted + queue, nb, d);
    }
    InnerAssemble(edges, roots, deg', before, current, nbrs, n + 1, queue');
  }

  /** The parts of `InnerInv`, established separately, make it up. */
  lemma InnerAssemble(edges: seq<DependencyEdge>, roots: seq<string>, deg: map<string, int>,
                      before: seq<string>, current: string, nbrs: seq<string>, n: nat, queue: seq<string>)
    requires n <= |nbrs| && nbrs == Successors(edges, current) && current !in before
    requires Covers(edges, deg)
    requires forall k :: k in deg ==>
      Pending(edges, Elems(before), k) == Pending(edges, Elems(before + [current]), k) + multiset(nbrs)[k]
    requires forall k :: k in deg ==> deg[k] == Pending(edges, Elems(before), k) - multiset(nbrs[..n])[k]
    requires TrailInv(edges, roots, deg, before + [current] + queue)
    ensures InnerInv(edges, roots, deg, before, current, nbrs, n, queue)
  {
  }

  /** When every neighbour is done, the main-loop invariant holds with `current` emitted. */
  lemma InnerEnd(edges: seq<DependencyEdge>, roots: seq<string>, deg: map<string, int>,
                 before: seq<string>, current: string, nbrs: seq<string>, queue: seq<string>)
    requires InnerInv(edges, roots, deg, before, current, nbrs, |nbrs|, queue)
    ensures DrainInv(edges, roots, deg, before + [current], queue)
  {
    assert nbrs[..|nbrs|] == nbrs;
  }

  /**
   * A neighbour's degree reaches 0 exactly when no edge into it stays
   * pending once `current` is emitted, completing `done`, and it does not
   * occur again among the neighbours still to do.
   */
  lemma FreedWhen(edges: seq<DependencyEdge>, deg: map<string, int>,
                  before: seq<string>, current: string, nbrs: seq<string>, n: nat, done: set<string>)
    requires n < |nbrs| && nbrs == Successors(edges, current)
    requires Covers(edges, deg)
    requires done == Elems(before + [current])
    requires forall k :: k in deg ==> Pending(edges, Elems(before), k) == Pending(edges, done, k) + multiset(nbrs)[k]
    requires forall k :: k in deg ==> deg[k] == Pending(edges, Elems(before), k) - multiset(nbrs[..n])[k]
    ensures DegreeOf(deg, nbrs[n]) - 1 == 0 <==> Pending(edges, done, nbrs[n]) == 0 && nbrs[n] !in nbrs[n + 1..]
  {
    var nb := nbrs[n];
    NeighborHasDegree(edges, current, nbrs, n, deg);
    PrefixCount(nbrs, n);
    assert nbrs == nbrs[..n + 1] + nbrs[n + 1..];
    assert multiset(nbrs)[nb] == multiset(nbrs[..n + 1])[nb] + multiset(nbrs[n + 1..])[nb];
  }

  /** Queuing a neighbour exactly when `Freed` would list it appends what `Freed` lists next. */
  lemma FreedStep(edges: seq<DependencyEdge>, done: set<string>, nbrs: seq<string>, n: nat,
                  queue0: seq<string>, queue: seq<string>, d: int, queue': seq<string>)
    requires n < |nbrs|
    requires queue == queue0 + Freed(edges, done, nbrs, n)
    requires d == 0 <==> Pending(edges, done, nbrs[n]) == 0 && nbrs[n] !in nbrs[n + 1..]
    requires queue' == if d == 0 then queue + [nbrs[n]] else queue
    ensures queue' == queue0 + Freed(edges, done, nbrs, n + 1)
  {
    if d == 0 {
      assert queue' == queue0 + (Freed(edges, done, nbrs, n) + [nbrs[n]]);
    }
  }

  /** Emitting the head of the queue and appending what it frees extends the trail by one step. */
  lemma TrailStep(edges: seq<DependencyEdge>, roots: seq<string>, before: seq<string>, queue0: seq<string>,
                  done: set<string>, queue: seq<string>)
    requires |queue0| > 0
    requires before + queue0 == Trail(edges, roots, before) && Causal(edges, roots, before)
    requires done == Elems(before + [queue0[0]])
    requires var nbrs := Successors(edges, queue0[0]); queue == queue0[1..] + Freed(edges, done, nbrs, |nbrs|)
    ensures before + [queue0[0]] + queue == Trail(edges, roots, before + [queue0[0]])
    ensures Causal(edges, roots, before + [queue0[0]])
  {
    var current := queue0[0];
    var nbrs := Successors(edges, current);
    TrailSnoc(edges, roots, before, current);
    assert before + [current] + queue == (before + queue0) + Freed(edges, done, nbrs, |nbrs|) by {
      assert queue0 == [current] + queue0[1..];
    }
    CausalSnoc(edges, roots, before, current);
  }

  /** Lines 46-52 for the neighbour at `n`: lower its degree, and queue it when the degree reaches 0. */
  method ReleaseOne(ghost edges: seq<DependencyEdge>, ghost roots: seq<string>, deg: map<string, int>,
                    ghost before: seq<string>, ghost current: string, neighbors: seq<string>, n: nat,
                    ghost queue0: seq<string>, queue: seq<string>, ghost done: set<string>)
    returns (deg': map<string, int>, queue': seq<string>)
    requires n < |neighbors|
    requires done == Elems(before + [current])
    requires InnerInv(edges, roots, deg, before, current, neighbors, n, queue)
    requires queue == queue0 + Freed(edges, done, neighbors, n)
    ensures deg'.Keys == deg.Keys
    ensures InnerInv(edges, roots, deg', before, current, neighbors, n + 1, queue')
    ensures queue' == queue0 + Freed(edges, done, neighbors, n + 1)
  {
    var neighbor := neighbors[n];
    var newDegree := DegreeOf(deg, neighbor) - 1;
    queue' := if newDegree == 0 then queue + [neighbor] else queue;
    FreedWhen(edges, deg, before, current, neighbors, n, done);
    FreedStep(edges, done, neighbors, n, queue0, queue, newDegree, queue');
    InnerStep(edges, roots, deg, before, current, neighbors, n, queue, newDegree, queue');
    deg' := deg[neighbor := newDegree];
  }

  /** Lines 45-53: lower the degree of each neighbour of `current`, queuing those that reach 0. */
  method Release(ghost edges: seq<DependencyEdge>, adjacency: map<string, seq<string>>, ghost roots: seq<string>,
                 deg: map<string, int>, ghost before: seq<string>, current: string, queue: seq<string>,
                 ghost done: set<string>, ghost nbrs: seq<string>)
    returns (deg': map<string, int>, queue': seq<string>)
    requires nbrs == AdjacencyOf(adjacency, current)
    requires done == Elems(before + [current])
    requires InnerInv(edges, roots, deg, before, current, nbrs, 0, queue)
    ensures deg'.Keys == deg.Keys
    ensures InnerInv(edges, roots, deg', before, current, nbrs, |nbrs|, queue')
    ensures queue' == queue + Freed(edges, done, nbrs, |nbrs|)
  {
    var neighbors := AdjacencyOf(adjacency, current);
    deg', queue' := deg, queue;
    var n := 0;
    assert queue' == queue + Freed(edges, done, neighbors, 0);
    while n < |neighbors|
      invariant InnerInv(edges, roots, deg', before, current, neighbors, n, queue')
      invariant deg'.Keys == deg.Keys
      invariant queue' == queue + Freed(edges, done, neighbors, n)
    {
      deg', queue' := ReleaseOne(edges, roots, deg', before, current, neighbors, n, queue, queue', done);
      n := n + 1;
    }
  }

  /** With the queue empty, the invariant gives the outcome of the sort. */
  lemma DrainDone(edges: seq<DependencyEdge>, roots: seq<string>, deg: map<string, int>, sorted: seq<string>)
    requires DrainInv(edges, roots, deg, sorted, [])
    ensures Distinct(sorted)
    ensures forall i :: 0 <= i < |sorted| ==> sorted[i] in deg
    ensures Precedes(edges, sorted)
    ensures |roots| <= |sorted| && sorted[..|roots|] == roots
    ensures forall k :: k in deg && k !in sorted ==> Pending(edges, Elems(sorted), k) > 0
  {
    assert sorted + [] == sorted;
  }

  /**
   * Lines 40-54: emit the head of the queue and lower the degree of each of
   * its neighbours, queuing those that reach 0, until the queue is empty.
   */
  method Drain(edges: seq<DependencyEdge>, adjacency: map<string, seq<string>>, ghost roots: seq<string>,
               deg0: map<string, int>, queue0: seq<string>)
    returns (sorted: seq<string>)
    requires forall u :: AdjacencyOf(adjacency, u) == Successors(edges, u)
    requires DrainInv(edges, roots, deg0, [], queue0)
    requires queue0 == roots
    ensures sorted == Trail(edges, roots, sorted) && Causal(edges, roots, sorted)
    ensures Distinct(sorted)
    ensures forall i :: 0 <= i < |sorted| ==> sorted[i] in deg0
    ensures Precedes(edges, sorted)
    ensures |roots| <= |sorted| && sorted[..|roots|] == roots
    ensures forall k :: k in deg0 && k !in sorted ==> Pending(edges, Elems(sorted), k) > 0
  {
    var deg, queue := deg0, queue0;
    sorted := [];
    assert sorted + queue == Trail(edges, roots, sorted);
    while |queue| > 0
      invariant DrainInv(edges, roots, deg, sorted, queue)
      invariant deg.Keys == deg0.Keys
      invariant sorted + queue == Trail(edges, roots, sorted) && Causal(edges, roots, sorted)
      decreases deg.Keys - Elems(sorted)
    {
      sorted, deg, queue := Emit(edges, adjacency, roots, sorted, deg, queue);
    }
    DrainDone(edges, roots, deg, sorted);
    assert sorted + [] == sorted;
  }

  /** Lines 41-53 once: emit the head of the queue and release its neighbours. */
  method Emit(ghost edges: seq<DependencyEdge>, adjacency: map<string, seq<string>>, ghost roots: seq<string>,
              sorted: seq<string>, deg: map<string, int>, queue: seq<string>)
    returns (sorted': seq<string>, deg': map<string, int>, queue': seq<string>)
    requires forall u :: AdjacencyOf(adjacency, u) == Successors(edges, u)
    requires |queue| > 0
    requires DrainInv(edges, roots, deg, sorted, queue)
    requires sorted + queue == Trail(edges, roots, sorted) && Causal(edges, roots, sorted)
    ensures DrainInv(edges, roots, deg', sorted', queue')
    ensures deg'.Keys == deg.Keys
    ensures sorted' + queue' == Trail(edges, roots, sorted') && Causal(edges, roots, sorted')
    ensures queue[0] in deg.Keys && queue[0] !in Elems(sorted) && Elems(sorted') == Elems(sorted) + {queue[0]}
  {
    InnerStart(edges, roots, deg, sorted, queue);
    var current := queue[0];
    var rest := queue[1..];
    sorted' := sorted + [current];
    ElemsSnoc(sorted, current);
    deg', queue' := Release(edges, adjacency, roots, deg, sorted, current, rest, Elems(sorted'), Successors(edges, current));
    InnerEnd(edges, roots, deg', sorted, current, Successors(edges, current), queue');
    TrailStep(edges, roots, sorted, queue, Elems(sorted'), queue');
  }

  // ------------------------------------------------------------ the sort

  /**
   * Lines 7-60: build the maps, seed the queue with the keys of in-degree 0,
   * drain it, and flag a cycle when fewer or more ids come out than there
   * are nodes.
   */
  method TopologicalSort(nodes: seq<string>, edges: seq<DependencyEdge>) returns (r: TopologicalSortResult)
    ensures r.hasCycle <==> |r.sorted| != |nodes|
    ensures r.sorted == Trail(edges, Roots(nodes, edges), r.sorted) && Causal(edges, Roots(nodes, edges), r.sorted)
    ensures Distinct(r.sorted)
    ensures forall i :: 0 <= i < |r.sorted| ==> r.sorted[i] in Keys(nodes, edges)
    ensures forall k, j :: 0 <= k < |edges| && 0 <= j < |r.sorted| && r.sorted[j] == edges[k].to ==> edges[k].from in r.sorted[..j]
    ensures var roots := ZeroIn(edges, Dedup(nodes)); |roots| <= |r.sorted| && r.sorted[..|roots|] == roots
    ensures forall k {:trigger Blocked(edges, r.sorted, k)} :: k in Keys(nodes, edges) && k !in r.sorted ==> Blocked(edges, r.sorted, k)
    ensures forall p :: IsCycle(edges, p) ==> forall i :: 0 <= i < |p| ==> p[i] !in r.sorted
    ensures forall x :: DependencyEdge(x, x) in edges ==> x !in r.sorted
    ensures (forall t :: 0 <= t < |edges| ==> edges[t].to in nodes) && !Acyclic(edges) ==> r.hasCycle
    ensures (forall t :: 0 <= t < |edges| ==> edges[t].to in nodes) && !Distinct(nodes) ==> r.hasCycle
    ensures Distinct(nodes) && Closed(nodes, edges) ==> (r.hasCycle <==> !Acyclic(edges))
    ensures Distinct(nodes) && Closed(nodes, edges) && Acyclic(edges) ==> multiset(r.sorted) == multiset(nodes)
  {
    var adjacency, inDegree := BuildGraph(nodes, edges);
    var queue := SeedQueue(edges, inDegree);
    SeedState(nodes, edges, inDegree);
    var sorted := Drain(edges, adjacency, Roots(nodes, edges), inDegree.values, queue);
    SortedFacts(nodes, edges, inDegree, sorted);
    r := TopologicalSortResult(sorted, |sorted| != |nodes|);
    SortConsequences(nodes, edges, sorted);
  }

  /** The outcome of draining, restated over the keys of the in-degree map. */
  lemma SortedFacts(nodes: seq<string>, edges: seq<DependencyEdge>, inDegree: DegreeMap, sorted: seq<string>)
    requires Valid(inDegree) && inDegree.keys == Keys(nodes, edges)
    requires forall i :: 0 <= i < |sorted| ==> sorted[i] in inDegree.values
    requires Precedes(edges, sorted)
    requires |Roots(nodes, edges)| <= |sorted| && sorted[..|Roots(nodes, edges)|] == Roots(nodes, edges)
    requires forall k :: k in inDegree.values && k !in sorted ==> Pending(edges, Elems(sorted), k) > 0
    ensures forall i :: 0 <= i < |sorted| ==> sorted[i] in Keys(nodes, edges)
    ensures forall k, j :: 0 <= k < |edges| && 0 <= j < |sorted| && sorted[j] == edges[k].to ==> edges[k].from in sorted[..j]
    ensures var roots := ZeroIn(edges, Dedup(nodes)); |roots| <= |sorted| && sorted[..|roots|] == roots
    ensures forall k {:trigger Blocked(edges, sorted, k)} :: k in Keys(nodes, edges) && k !in sorted ==> Blocked(edges, sorted, k)
  {
    forall i | 0 <= i < |sorted| ensures sorted[i] in Keys(nodes, edges) {
      assert sorted[i] in Elems(inDegree.keys);
    }
    PrecedesAt(edges, sorted);
    RootsInNodeOrder(nodes, edges);
    forall k | k in Keys(nodes, edges) && k !in sorted ensures Blocked(edges, sorted, k) {
      assert k in Elems(inDegree.keys);
      BlockedIffPending(edges, sorted, k);
    }
  }

  /** What the guarantees of the sort imply about cycles, repeats and the flag. */
  lemma SortConsequences(nodes: seq<string>, edges: seq<DependencyEdge>, sorted: seq<string>)
    requires Distinct(sorted) && Precedes(edges, sorted)
    requires forall i :: 0 <= i < |sorted| ==> sorted[i] in Keys(nodes, edges)
    requires forall k {:trigger Blocked(edges, sorted, k)} :: k in Keys(nodes, edges) && k !in sorted ==> Blocked(edges, sorted, k)
    ensures forall p :: IsCycle(edges, p) ==> forall i :: 0 <= i < |p| ==> p[i] !in sorted
    ensures forall x :: DependencyEdge(x, x) in edges ==> x !in sorted
    ensures (forall t :: 0 <= t < |edges| ==> edges[t].to in nodes) && !Acyclic(edges) ==> |sorted| < |nodes|
    ensures (forall t :: 0 <= t < |edges| ==> edges[t].to in nodes) && !Distinct(nodes) ==> |sorted| < |nodes|
    ensures Distinct(nodes) && Closed(nodes, edges) ==> (|sorted| != |nodes| <==> !Acyclic(edges))
    ensures Distinct(nodes) && Closed(nodes, edges) && Acyclic(edges) ==> multiset(sorted) == multiset(nodes)
  {
    forall p | IsCycle(edges, p) ensures forall i :: 0 <= i < |p| ==> p[i] !in sorted {
      CycleNeverListed(edges, sorted, p);
    }
    forall x | DependencyEdge(x, x) in edges ensures x !in sorted {
      SelfLoopNeverListed(edges, sorted, x);
    }
    if (forall t :: 0 <= t < |edges| ==> edges[t].to in nodes) && !Acyclic(edges) {
      FlagOnCycle(nodes, edges, sorted);
    }
    if (forall t :: 0 <= t < |edges| ==> edges[t].to in nodes) && !Distinct(nodes) {
      FlagOnRepeat(nodes, edges, sorted);
    }
    if Distinct(nodes) && Closed(nodes, edges) {
      if |sorted| != |nodes| {
        CycleOnFlag(nodes, edges, sorted);
      } else if !Acyclic(edges) {
        FlagOnCycle(nodes, edges, sorted);
      }
      if Acyclic(edges) {
        CompleteOnAcyclic(nodes, edges, sorted);
      }
    }
  }
}
