/**
 * Concrete runs of the topological sort: the default sample of the input
 * panel (src/components/InputPanel.tsx:9-17), parsed from its text and then
 * sorted as src/App.tsx:33-35 does, a three-cycle, and the
 * quirks that dangling ids and repeated node ids produce.
 */
module Samples {
  import opened Types
  import opened Graph
  import opened QueueOrder
  import opened Reference
  import opened Kahn
  import opened Parser
  import opened ParserLaws
  import opened Text

  /** The roots read from the front: the first occurrences of the node ids, filtered for in-degree 0. */
  lemma RootsFrom(nodes: seq<string>, edges: seq<DependencyEdge>)
    ensures Roots(nodes, edges) == ZeroInFrom(edges, FirstOccurrences([], nodes))
  {
    RootsInNodeOrder(nodes, edges);
    DedupAgree([], nodes);
    assert [] + nodes == nodes;
    ZeroInAgree(edges, Dedup(nodes));
  }

  /**
   * In a sequence that is its own trail, with the trail `t` of its first `i`
   * ids known, the id at `i` is `t[i]`, and emitting it grows the trail to
   * `t` plus what it frees, which is again a prefix of the sequence.
   */
  lemma FixpointStep(edges: seq<DependencyEdge>, roots: seq<string>, s: seq<string>, i: nat, t: seq<string>,
                     done: set<string>, x: string, next: set<string>, freed: seq<string>, u: seq<string>)
    requires s == Trail(edges, roots, s)
    requires i < |t| && |t| <= |s|
    requires Trail(edges, roots, s[..i]) == t && s[..|t|] == t && t[i] == x
    requires done == Elems(s[..i]) && next == done + {x}
    requires FreedFrom(edges, next, OutgoingFrom(edges, x)) == freed
    requires u == t + freed
    ensures Elems(s[..i + 1]) == next
    ensures Trail(edges, roots, s[..i + 1]) == u && |u| <= |s| && s[..|u|] == u
  {
    var p := s[..i];
    EmitAt(s, i, t, x);
    ElemsSnoc(p, x);
    var nbrs := Successors(edges, x);
    TrailSnoc(edges, roots, p, x);
    assert Trail(edges, roots, s[..i + 1]) == t + Freed(edges, next, nbrs, |nbrs|);
    FreedAgree(edges, next, nbrs);
    SuccessorsAgree(edges, x);
    TrailPrefix(edges, roots, s, i + 1);
  }

  /** A prefix of `s` that is known to be `t` fixes the element of `s` at any index of `t`. */
  lemma EmitAt(s: seq<string>, i: nat, t: seq<string>, x: string)
    requires i < |t| && |t| <= |s| && s[..|t|] == t && t[i] == x
    ensures s[..i + 1] == s[..i] + [x]
  {
    assert s[..|t|][i] == s[i];
  }

  /** In a sequence that is its own trail, the roots come first. */
  lemma FixpointStart(edges: seq<DependencyEdge>, roots: seq<string>, s: seq<string>)
    requires s == Trail(edges, roots, s)
    ensures Elems(s[..0]) == {} && Trail(edges, roots, s[..0]) == roots
    ensures |roots| <= |s| && s[..|roots|] == roots
  {
    assert s[..0] == [];
    assert Elems<string>([]) == {};
    TrailPrefix(edges, roots, s, 0);
  }

  /** A causal sequence whose first `i` emissions queue nothing beyond them ends there. */
  lemma FixpointLength(edges: seq<DependencyEdge>, roots: seq<string>, s: seq<string>, i: nat)
    requires Causal(edges, roots, s)
    requires i <= |s| && |Trail(edges, roots, s[..i])| == i
    ensures |s| == i
  {
  }

  const DefaultNodes: seq<string> := ["A", "B", "C", "D", "E"]
  const DefaultEdges: seq<DependencyEdge> :=
    [DependencyEdge("A", "B"), DependencyEdge("A", "C"), DependencyEdge("B", "D"),
     DependencyEdge("C", "D"), DependencyEdge("D", "E")]

  lemma DefaultFirst() ensures FirstOccurrences([], DefaultNodes) == DefaultNodes
  {
    FirstOccurrencesFresh([], DefaultNodes);
  }
  lemma DefaultZero() ensures ZeroInFrom(DefaultEdges, DefaultNodes) == ["A"] {}

  lemma DefaultRoots()
    ensures Roots(DefaultNodes, DefaultEdges) == ["A"]
  {
    DefaultFirst();
    DefaultZero();
    RootsFrom(DefaultNodes, DefaultEdges);
  }

  lemma DefaultFreedA() ensures FreedFrom(DefaultEdges, {"A"}, OutgoingFrom(DefaultEdges, "A")) == ["B", "C"]
  {
    assert OutgoingFrom(DefaultEdges, "A") == ["B", "C"];
    assert PendingFrom(DefaultEdges, {"A"}, "B") == 0;
    assert PendingFrom(DefaultEdges, {"A"}, "C") == 0;
    assert FreedFrom(DefaultEdges, {"A"}, ["B", "C"]) == ["B", "C"];
  }

  lemma DefaultFreedB() ensures FreedFrom(DefaultEdges, {"A", "B"}, OutgoingFrom(DefaultEdges, "B")) == []
  {
    assert OutgoingFrom(DefaultEdges, "B") == ["D"];
    assert FreedFrom(DefaultEdges, {"A", "B"}, ["D"]) == [];
  }

  lemma DefaultFreedC() ensures FreedFrom(DefaultEdges, {"A", "B", "C"}, OutgoingFrom(DefaultEdges, "C")) == ["D"]
  {
    assert OutgoingFrom(DefaultEdges, "C") == ["D"];
    assert FreedFrom(DefaultEdges, {"A", "B", "C"}, ["D"]) == ["D"];
  }

  lemma DefaultFreedD() ensures FreedFrom(DefaultEdges, {"A", "B", "C", "D"}, OutgoingFrom(DefaultEdges, "D")) == ["E"]
  {
    assert OutgoingFrom(DefaultEdges, "D") == ["E"];
    assert FreedFrom(DefaultEdges, {"A", "B", "C", "D"}, ["E"]) == ["E"];
  }

  lemma DefaultFreedE() ensures FreedFrom(DefaultEdges, {"A", "B", "C", "D", "E"}, OutgoingFrom(DefaultEdges, "E")) == []
  {
    assert OutgoingFrom(DefaultEdges, "E") == [];
    assert FreedFrom(DefaultEdges, {"A", "B", "C", "D", "E"}, []) == [];
  }

  /**
   * Edge lists whose releases match the default sample's: `A` frees `B` and
   * `C`, `B` frees nothing, `C` frees `D`, `D` frees `E`, `E` frees nothing.
   */
  predicate ChainReleases(edges: seq<DependencyEdge>)
  {
    && FreedFrom(edges, {"A"}, OutgoingFrom(edges, "A")) == ["B", "C"]
    && FreedFrom(edges, {"A", "B"}, OutgoingFrom(edges, "B")) == []
    && FreedFrom(edges, {"A", "B", "C"}, OutgoingFrom(edges, "C")) == ["D"]
    && FreedFrom(edges, {"A", "B", "C", "D"}, OutgoingFrom(edges, "D")) == ["E"]
    && FreedFrom(edges, {"A", "B", "C", "D", "E"}, OutgoingFrom(edges, "E")) == []
  }

  lemma ChainTwo(edges: seq<DependencyEdge>, s: seq<string>)
    requires s == Trail(edges, ["A"], s) && ChainReleases(edges)
    ensures 3 <= |s| && Elems(s[..2]) == {"A", "B"} && Trail(edges, ["A"], s[..2]) == ["A", "B", "C"]
    ensures s[..3] == ["A", "B", "C"]
  {
    var roots := ["A"];
    FixpointStart(edges, roots, s);
    FixpointStep(edges, roots, s, 0, ["A"], {}, "A", {"A"}, ["B", "C"], ["A", "B", "C"]);
    FixpointStep(edges, roots, s, 1, ["A", "B", "C"], {"A"}, "B", {"A", "B"}, [], ["A", "B", "C"]);
  }

  lemma ChainThree(edges: seq<DependencyEdge>, s: seq<string>)
    requires s == Trail(edges, ["A"], s) && ChainReleases(edges)
    ensures 4 <= |s| && Elems(s[..3]) == {"A", "B", "C"} && Trail(edges, ["A"], s[..3]) == ["A", "B", "C", "D"]
    ensures s[..4] == ["A", "B", "C", "D"]
  {
    ChainTwo(edges, s);
    FixpointStep(edges, ["A"], s, 2, ["A", "B", "C"], {"A", "B"}, "C", {"A", "B", "C"}, ["D"], ["A", "B", "C", "D"]);
  }

  lemma ChainFour(edges: seq<DependencyEdge>, s: seq<string>)
    requires s == Trail(edges, ["A"], s) && ChainReleases(edges)
    ensures 5 <= |s| && Elems(s[..4]) == {"A", "B", "C", "D"} && Trail(edges, ["A"], s[..4]) == ["A", "B", "C", "D", "E"]
    ensures s[..5] == ["A", "B", "C", "D", "E"]
  {
    ChainThree(edges, s);
    FixpointStep(edges, ["A"], s, 3, ["A", "B", "C", "D"], {"A", "B", "C"}, "D", {"A", "B", "C", "D"}, ["E"],
                 ["A", "B", "C", "D", "E"]);
  }

  /** The causal fixpoint over any edge list with the default sample's releases. */
  lemma ChainOrder(edges: seq<DependencyEdge>, s: seq<string>)
    requires s == Trail(edges, ["A"], s) && Causal(edges, ["A"], s) && ChainReleases(edges)
    ensures s == ["A", "B", "C", "D", "E"]
  {
    ChainFour(edges, s);
    FixpointStep(edges, ["A"], s, 4, ["A", "B", "C", "D", "E"], {"A", "B", "C", "D"}, "E", {"A", "B", "C", "D", "E"}, [],
                 ["A", "B", "C", "D", "E"]);
    FixpointLength(edges, ["A"], s, 5);
    assert s == s[..5];
  }

  /** The only causal order of the default sample that is its own trail. */
  lemma DefaultOrder(s: seq<string>)
    requires s == Trail(DefaultEdges, ["A"], s) && Causal(DefaultEdges, ["A"], s)
    ensures s == DefaultNodes
  {
    DefaultFreedA();
    DefaultFreedB();
    DefaultFreedC();
    DefaultFreedD();
    DefaultFreedE();
    ChainOrder(DefaultEdges, s);
  }

  /** Sorting the default sample lists its five tasks in order and reports no cycle. */
  method SortDefaultSample() returns (r: TopologicalSortResult)
    ensures r == TopologicalSortResult(DefaultNodes, false)
  {
    r := TopologicalSort(DefaultNodes, DefaultEdges);
    DefaultRoots();
    DefaultOrder(r.sorted);
  }

  /** The lines of the text the input panel starts with. */
  const DefaultLines: seq<string> :=
    ["# Nodes Section", "A, B, C, D, E", "", "# Dependencies Section",
     "A -> B", "A -> C", "B -> D", "C -> D", "D -> E"]

  /** The text the input panel starts with: its lines, separated by line breaks. */
  const DefaultText: string := Join(DefaultLines, "\n")

  /** A one-letter capital is a node id and can stand at either end of an edge. */
  lemma LetterId(c: char)
    requires 'A' <= c <= 'Z'
    ensures IsNodeId([c]) && IsFromId([c]) && IsToId([c])
  {
    assert !HasArrow([c][1..]);
  }

  lemma DefaultExportable()
    ensures ExportableIds(DefaultNodes) && ExportableEdges(DefaultEdges)
  {
    forall i | 0 <= i < |DefaultNodes| ensures IsNodeId(DefaultNodes[i]) {
      LetterId(DefaultNodes[i][0]);
      assert DefaultNodes[i] == [DefaultNodes[i][0]];
    }
    forall i | 0 <= i < |DefaultEdges| ensures IsEdge(DefaultEdges[i]) {
      var e := DefaultEdges[i];
      LetterId(e.from[0]);
      LetterId(e.to[0]);
      assert e.from == [e.from[0]] && e.to == [e.to[0]];
    }
  }

  lemma DefaultJoin() ensures Join(DefaultNodes, ", ") == "A, B, C, D, E" {}

  lemma DefaultEdgeLines() ensures EdgeLineSeq(DefaultEdges) == DefaultLines[4..]
  {
    var lines := EdgeLineSeq(DefaultEdges);
    assert lines[0] == EdgeLine(DependencyEdge("A", "B")) == "A -> B";
    assert lines[1] == EdgeLine(DependencyEdge("A", "C")) == "A -> C";
    assert lines[2] == EdgeLine(DependencyEdge("B", "D")) == "B -> D";
    assert lines[3] == EdgeLine(DependencyEdge("C", "D")) == "C -> D";
    assert lines[4] == EdgeLine(DependencyEdge("D", "E")) == "D -> E";
  }

  /** The export of the default graph has the panel's lines, then an empty last line. */
  lemma DefaultExportLines()
    ensures ExportLineSeq(DefaultNodes, DefaultEdges) == DefaultLines + [""]
  {
    DefaultJoin();
    DefaultEdgeLines();
    assert DefaultLines == DefaultLines[..4] + DefaultLines[4..];
  }

  /** The default text is the export of the default graph, short of the final line break. */
  lemma DefaultExport()
    ensures ExportToText(DefaultNodes, DefaultEdges) == DefaultText + "\n"
  {
    ExportIsJoin(DefaultNodes, DefaultEdges);
    DefaultExportLines();
    JoinEmptyLast(DefaultLines, "\n");
  }

  /** Parsing the default text gives the default graph. */
  lemma DefaultParse()
    ensures ParseInput(DefaultText) == ParsedInput(MakeNodes(DefaultNodes), DefaultEdges)
  {
    DefaultExport();
    DefaultExportable();
    TrailingBreak(DefaultText);
    ParseKeptNodeList(DefaultNodes, DefaultEdges);
  }

  /** The default text, parsed and sorted as the application wires the two: `A` to `E` in order, no cycle. */
  method RunDefaultText() returns (r: TopologicalSortResult)
    ensures r == TopologicalSortResult(DefaultNodes, false)
  {
    var parsed := ParseInput(DefaultText);
    DefaultParse();
    var nodeIds := Ids(parsed.nodes);
    assert nodeIds == DefaultNodes;
    r := TopologicalSort(nodeIds, parsed.edges);
    DefaultRoots();
    DefaultOrder(r.sorted);
  }

  /** A causal fixpoint with no roots is empty: nothing is ever queued. */
  lemma EmptyOrder(edges: seq<DependencyEdge>, s: seq<string>)
    requires s == Trail(edges, [], s) && Causal(edges, [], s)
    ensures s == []
  {
    FixpointStart(edges, [], s);
    FixpointLength(edges, [], s, 0);
  }

  /** In a fixpoint whose one root `a` frees `b`, the first emission is `a` and queues `b`. */
  lemma PairFirst(edges: seq<DependencyEdge>, a: string, b: string, s: seq<string>)
    requires s == Trail(edges, [a], s)
    requires FreedFrom(edges, {a}, OutgoingFrom(edges, a)) == [b]
    ensures 2 <= |s| && Elems(s[..1]) == {a} && Trail(edges, [a], s[..1]) == [a, b]
    ensures s[..2] == [a, b]
  {
    FixpointStart(edges, [a], s);
    FixpointStep(edges, [a], s, 0, [a], {}, a, {a}, [b], [a, b]);
  }

  /** A causal fixpoint whose one root `a` frees `b`, which frees nothing, is `[a, b]`. */
  lemma PairOrder(edges: seq<DependencyEdge>, a: string, b: string, s: seq<string>)
    requires s == Trail(edges, [a], s) && Causal(edges, [a], s)
    requires FreedFrom(edges, {a}, OutgoingFrom(edges, a)) == [b]
    requires FreedFrom(edges, {a, b}, OutgoingFrom(edges, b)) == []
    ensures s == [a, b]
  {
    PairFirst(edges, a, b, s);
    FixpointStep(edges, [a], s, 1, [a, b], {a}, b, {a, b}, [], [a, b]);
    FixpointLength(edges, [a], s, 2);
    assert s == s[..2];
  }

  const CycleNodes: seq<string> := ["A", "B", "C"]
  const CycleEdges: seq<DependencyEdge> := [DependencyEdge("A", "B"), DependencyEdge("B", "C"), DependencyEdge("C", "A")]

  lemma CycleFirst() ensures FirstOccurrences([], CycleNodes) == CycleNodes { FirstOccurrencesFresh([], CycleNodes); }
  lemma CycleZero() ensures ZeroInFrom(CycleEdges, CycleNodes) == [] {}

  lemma CycleRoots()
    ensures Roots(CycleNodes, CycleEdges) == []
  {
    CycleFirst();
    CycleZero();
    RootsFrom(CycleNodes, CycleEdges);
  }

  /** Every task of a three-cycle waits on another: nothing is listed and the cycle is reported. */
  method SortCycleSample() returns (r: TopologicalSortResult)
    ensures r == TopologicalSortResult([], true)
  {
    r := TopologicalSort(CycleNodes, CycleEdges);
    CycleRoots();
    EmptyOrder(CycleEdges, r.sorted);
  }

  const LoopNodes: seq<string> := ["x", "p"]
  const LoopEdges: seq<DependencyEdge> := [DependencyEdge("x", "x"), DependencyEdge("p", "q")]

  lemma LoopFirst() ensures FirstOccurrences([], LoopNodes) == LoopNodes { FirstOccurrencesFresh([], LoopNodes); }
  lemma LoopZero() ensures ZeroInFrom(LoopEdges, LoopNodes) == ["p"] {}

  lemma LoopRoots()
    ensures Roots(LoopNodes, LoopEdges) == ["p"]
  {
    LoopFirst();
    LoopZero();
    RootsFrom(LoopNodes, LoopEdges);
  }

  lemma LoopFreedP() ensures FreedFrom(LoopEdges, {"p"}, OutgoingFrom(LoopEdges, "p")) == ["q"]
  {
    assert OutgoingFrom(LoopEdges, "p") == ["q"];
    assert FreedFrom(LoopEdges, {"p"}, ["q"]) == ["q"];
  }

  lemma LoopFreedQ() ensures FreedFrom(LoopEdges, {"p", "q"}, OutgoingFrom(LoopEdges, "q")) == []
  {
    assert OutgoingFrom(LoopEdges, "q") == [];
  }

  /**
   * A self-loop on `x` goes unreported when an undeclared target `q` takes
   * its place in the count: two ids are listed for two nodes.
   */
  method SortMaskedLoopSample() returns (r: TopologicalSortResult)
    ensures r == TopologicalSortResult(["p", "q"], false)
  {
    r := TopologicalSort(LoopNodes, LoopEdges);
    LoopRoots();
    LoopFreedP();
    LoopFreedQ();
    PairOrder(LoopEdges, "p", "q", r.sorted);
  }

  const RepeatNodes: seq<string> := ["A", "A"]
  const RepeatEdges: seq<DependencyEdge> := [DependencyEdge("A", "q")]

  lemma RepeatFirst() ensures FirstOccurrences([], RepeatNodes) == ["A"] {}
  lemma RepeatZero() ensures ZeroInFrom(RepeatEdges, ["A"]) == ["A"] {}

  lemma RepeatRoots()
    ensures Roots(RepeatNodes, RepeatEdges) == ["A"]
  {
    RepeatFirst();
    RepeatZero();
    RootsFrom(RepeatNodes, RepeatEdges);
  }

  lemma RepeatFreedA() ensures FreedFrom(RepeatEdges, {"A"}, OutgoingFrom(RepeatEdges, "A")) == ["q"]
  {
    assert OutgoingFrom(RepeatEdges, "A") == ["q"];
    assert FreedFrom(RepeatEdges, {"A"}, ["q"]) == ["q"];
  }

  lemma RepeatFreedQ() ensures FreedFrom(RepeatEdges, {"A", "q"}, OutgoingFrom(RepeatEdges, "q")) == []
  {
    assert OutgoingFrom(RepeatEdges, "q") == [];
  }

  /** A repeated node id goes unreported when an undeclared target makes up the count. */
  method SortRepeatSample() returns (r: TopologicalSortResult)
    ensures r == TopologicalSortResult(["A", "q"], false)
  {
    r := TopologicalSort(RepeatNodes, RepeatEdges);
    RepeatRoots();
    RepeatFreedA();
    RepeatFreedQ();
    PairOrder(RepeatEdges, "A", "q", r.sorted);
  }

  const DanglingNodes: seq<string> := ["A"]
  const DanglingEdges: seq<DependencyEdge> := [DependencyEdge("A", "B")]

  lemma DanglingFirst() ensures FirstOccurrences([], DanglingNodes) == DanglingNodes { FirstOccurrencesFresh([], DanglingNodes); }
  lemma DanglingZero() ensures ZeroInFrom(DanglingEdges, DanglingNodes) == ["A"] {}

  lemma DanglingRoots()
    ensures Roots(DanglingNodes, DanglingEdges) == ["A"]
  {
    DanglingFirst();
    DanglingZero();
    RootsFrom(DanglingNodes, DanglingEdges);
  }

  lemma DanglingFreedA() ensures FreedFrom(DanglingEdges, {"A"}, OutgoingFrom(DanglingEdges, "A")) == ["B"]
  {
    assert OutgoingFrom(DanglingEdges, "A") == ["B"];
    assert FreedFrom(DanglingEdges, {"A"}, ["B"]) == ["B"];
  }

  lemma DanglingFreedB() ensures FreedFrom(DanglingEdges, {"A", "B"}, OutgoingFrom(DanglingEdges, "B")) == []
  {
    assert OutgoingFrom(DanglingEdges, "B") == [];
  }

  /**
   * An edge to an undeclared id lists that id too, and the length mismatch
   * is reported as a cycle although there is none.
   */
  method SortDanglingTargetSample() returns (r: TopologicalSortResult)
    ensures r == TopologicalSortResult(["A", "B"], true)
  {
    r := TopologicalSort(DanglingNodes, DanglingEdges);
    DanglingRoots();
    DanglingFreedA();
    DanglingFreedB();
    PairOrder(DanglingEdges, "A", "B", r.sorted);
  }

  const OrphanNodes: seq<string> := ["B"]
  const OrphanEdges: seq<DependencyEdge> := [DependencyEdge("X", "B")]

  lemma OrphanFirst() ensures FirstOccurrences([], OrphanNodes) == OrphanNodes { FirstOccurrencesFresh([], OrphanNodes); }
  lemma OrphanZero() ensures ZeroInFrom(OrphanEdges, OrphanNodes) == [] {}

  lemma OrphanRoots()
    ensures Roots(OrphanNodes, OrphanEdges) == []
  {
    OrphanFirst();
    OrphanZero();
    RootsFrom(OrphanNodes, OrphanEdges);
  }

  /**
   * An edge from an undeclared id is never released: its target waits
   * forever and a cycle is reported although there is none.
   */
  method SortDanglingSourceSample() returns (r: TopologicalSortResult)
    ensures r == TopologicalSortResult([], true)
  {
    r := TopologicalSort(OrphanNodes, OrphanEdges);
    OrphanRoots();
    EmptyOrder(OrphanEdges, r.sorted);
  }
}
