/**
 * What `parseInput` and `exportToText` (src/utils/parser.ts) promise about
 * each other and about their input: where nodes and edges come from, the
 * order they keep, the line layout of an export, and the round trip.
 */
module ParserLaws {
  import opened Types
  import opened Text
  import opened Seqs
  import opened Parser

  // ------------------------------------------------------- line structure

  /**
   * Edges are produced line by line: the edges of two blocks of lines are the
   * edges of the first block followed by those of the second, so edges keep
   * line order and a line the pattern rejects contributes nothing.
   */
  lemma ParseEdgesAppend(a: seq<string>, b: seq<string>)
    ensures ParseEdges(a + b) == ParseEdges(a) + ParseEdges(b)
  {
    FlatMapAppend(EdgeOf, a, b);
  }

  /** A block without any arrow yields no edges. */
  lemma {:induction false} ParseEdgesNoArrow(lines: seq<string>)
    requires forall i :: 0 <= i < |lines| ==> !HasArrow(lines[i])
    ensures ParseEdges(lines) == []
  {
    if |lines| > 0 {
      ParseEdgesNoArrow(lines[1..]);
      assert EdgeOf(lines[0]) == [];
    }
  }

  /** The node ids one line of a node section would give on its own. */
  function LineIds(line: string): seq<string>
  {
    FieldIds(Split(line, ','))
  }

  /** The node ids of each line of a node section, one line after the other. */
  function LineByLineIds(section: seq<string>): seq<string>
  {
    FlatMap(LineIds, section)
  }

  /** A string with nothing in it gives no node ids. */
  lemma NoIdsInEmpty()
    ensures FieldIds(Split("", ',')) == []
  {
    assert Trim("") == "";
    FlatMapOne(FieldId, "");
  }

  /**
   * Joining the node section with commas and splitting again reads each line
   * on its own: every node comes from one line, in line and field order, and
   * duplicates are kept.
   */
  lemma {:induction false} NodeIdsPerLine(section: seq<string>)
    requires FreeOf(section, '\n')
    ensures NodeIds(section) == LineByLineIds(section)
  {
    if |section| == 0 {
      NoIdsInEmpty();
    } else if |section| == 1 {
      FlatMapOne(LineIds, section[0]);
      assert section == [section[0]];
    } else {
      var first, rest := section[0], section[1..];
      assert section == [first] + rest;
      NodeIdsPerLine(rest);
      JoinCons(first, rest, ",");
      SplitConcat(first, Join(rest, ","), ',');
      FlatMapAppend(FieldId, Split(first, ','), Split(Join(rest, ","), ','));
      FlatMapAppend(LineIds, [first], rest);
      FlatMapOne(LineIds, first);
    }
  }

  /**
   * The parse of a text with at least one kept line: the nodes are read from
   * the lines before the section divider, line by line, and the edges from the
   * divider on, at most one per dependency line.
   */
  lemma ParseInputSections(text: string)
    requires |ContentLines(text)| > 0
    ensures var lines := ContentLines(text);
            var d := SectionDivider(lines);
            && Ids(ParseInput(text).nodes) == LineByLineIds(lines[..d])
            && ParseInput(text).edges == ParseEdges(lines[d..])
            && |ParseInput(text).edges| <= |lines| - d
  {
    var lines := ContentLines(text);
    var d := SectionDivider(lines);
    ContentSuffix(lines, d);
    NodeIdsPerLine(lines[..d]);
    FlatMapShorter(EdgeOf, lines[d..]);
  }

  /**
   * With no line holding an arrow, only the first kept line is read, as a
   * node list, and there are no edges: the lines after it are lost.
   */
  lemma NoArrowLineNoEdges(text: string)
    requires |ContentLines(text)| > 0
    requires forall i :: 0 <= i < |ContentLines(text)| ==> !HasArrow(ContentLines(text)[i])
    ensures ParseInput(text).edges == []
    ensures Ids(ParseInput(text).nodes) == LineIds(ContentLines(text)[0])
  {
    var lines := ContentLines(text);
    ParseInputSections(text);
    assert SectionDivider(lines) == 1;
    ParseEdgesNoArrow(lines[1..]);
    assert lines[..1] == [lines[0]];
    FlatMapOne(LineIds, lines[0]);
  }

  // ----------------------------------------------------------- the export

  /** The edge lines of an export, without their line breaks. */
  function EdgeLineSeq(edges: seq<DependencyEdge>): (lines: seq<string>)
    ensures |lines| == |edges|
  {
    seq(|edges|, i requires 0 <= i < |edges| => EdgeLine(edges[i]))
  }

  /** The lines of an export: two section comments around the id list, then the edge lines. */
  function ExportLineSeq(nodes: seq<string>, edges: seq<DependencyEdge>): seq<string>
  {
    ["# Nodes Section", Join(nodes, ", "), "", "# Dependencies Section"] + EdgeLineSeq(edges) + [""]
  }

  /** The edge block is the edge lines joined by line breaks, with a line break after the last. */
  lemma {:induction false} EdgeLinesJoin(edges: seq<DependencyEdge>)
    ensures EdgeLines(edges) == Join(EdgeLineSeq(edges) + [""], "\n")
  {
    if |edges| > 0 {
      var rest := edges[1..];
      EdgeLinesJoin(rest);
      assert EdgeLineSeq(edges) + [""] == [EdgeLine(edges[0])] + (EdgeLineSeq(rest) + [""]);
      JoinCons(EdgeLine(edges[0]), EdgeLineSeq(rest) + [""], "\n");
    }
  }

  /** The export is its lines joined by line breaks. */
  lemma ExportIsJoin(nodes: seq<string>, edges: seq<DependencyEdge>)
    ensures ExportToText(nodes, edges) == Join(ExportLineSeq(nodes, edges), "\n")
  {
    EdgeLinesJoin(edges);
    ExportNested(nodes, edges);
    ExportLineSeqNested(nodes, edges);
  }

  /** The export regrouped line by line. */
  lemma ExportNested(nodes: seq<string>, edges: seq<DependencyEdge>)
    ensures ExportToText(nodes, edges)
         == "# Nodes Section" + "\n" + (Join(nodes, ", ") + "\n" + ("" + "\n" + ("# Dependencies Section" + "\n" + EdgeLines(edges))))
  {
    var h, j, d, t := "# Nodes Section", Join(nodes, ", "), "# Dependencies Section", EdgeLines(edges);
    HeaderLines();
    calc {
      ExportToText(nodes, edges);
      "# Nodes Section\n" + j + "\n\n" + "# Dependencies Section\n" + t;
      h + "\n" + j + ("\n" + "\n") + (d + "\n") + t;
      h + "\n" + (j + "\n" + ("" + "\n" + (d + "\n" + t)));
    }
  }

  /** The joined export lines regrouped line by line. */
  lemma ExportLineSeqNested(nodes: seq<string>, edges: seq<DependencyEdge>)
    ensures Join(ExportLineSeq(nodes, edges), "\n")
         == "# Nodes Section" + "\n" + (Join(nodes, ", ") + "\n" + ("" + "\n" + ("# Dependencies Section" + "\n" + Join(EdgeLineSeq(edges) + [""], "\n"))))
  {
    var h, j, d := "# Nodes Section", Join(nodes, ", "), "# Dependencies Section";
    var tail := EdgeLineSeq(edges) + [""];
    assert ExportLineSeq(nodes, edges) == [h] + ([j] + ([""] + ([d] + tail)));
    JoinCons(d, tail, "\n");
    JoinCons("", [d] + tail, "\n");
    JoinCons(j, [""] + ([d] + tail), "\n");
    JoinCons(h, [j] + ([""] + ([d] + tail)), "\n");
  }

  /** The fixed text of an export, cut at its line breaks. */
  lemma HeaderLines()
    ensures "# Nodes Section\n" == "# Nodes Section" + "\n"
    ensures "\n\n" == "\n" + "\n"
    ensures "# Dependencies Section\n" == "# Dependencies Section" + "\n"
  {
  }

  /** No edge endpoint holds a line break. */
  predicate EdgesOnOneLine(edges: seq<DependencyEdge>)
  {
    forall i :: 0 <= i < |edges| ==> Lacks(edges[i].from, '\n') && Lacks(edges[i].to, '\n')
  }

  /** A concatenation lacks a character both sides lack. */
  lemma LacksConcat(a: string, b: string, c: char)
    requires Lacks(a, c) && Lacks(b, c)
    ensures Lacks(a + b, c)
  {
    forall i | 0 <= i < |a + b| ensures (a + b)[i] != c {
      if i >= |a| {
        assert (a + b)[i] == b[i - |a|];
      }
    }
  }

  /** An edge line holds no line break when the endpoints hold none. */
  lemma EdgeLineOneLine(e: DependencyEdge)
    requires Lacks(e.from, '\n') && Lacks(e.to, '\n')
    ensures Lacks(EdgeLine(e), '\n')
  {
    LacksConcat(e.from, " -> ", '\n');
    LacksConcat(e.from + " -> ", e.to, '\n');
  }

  /** No line of an export holds a line break. */
  lemma ExportLinesOneLine(nodes: seq<string>, edges: seq<DependencyEdge>)
    requires FreeOf(nodes, '\n') && EdgesOnOneLine(edges)
    ensures FreeOf(ExportLineSeq(nodes, edges), '\n')
  {
    JoinFree(nodes, ", ", '\n');
    var lines := ExportLineSeq(nodes, edges);
    forall i | 0 <= i < |lines| ensures Lacks(lines[i], '\n') {
      if 4 <= i < 4 + |edges| {
        assert lines[i] == EdgeLine(edges[i - 4]);
        EdgeLineOneLine(edges[i - 4]);
      }
    }
  }

  /**
   * The line layout of `exportToText`: the node-section comment, the ids
   * joined by ", ", an empty line, the dependency-section comment, one
   * `from -> to` line per edge in order, and nothing after the last line break.
   */
  lemma ExportLines(nodes: seq<string>, edges: seq<DependencyEdge>)
    requires FreeOf(nodes, '\n') && EdgesOnOneLine(edges)
    ensures Split(ExportToText(nodes, edges), '\n') == ExportLineSeq(nodes, edges)
  {
    ExportIsJoin(nodes, edges);
    ExportLinesOneLine(nodes, edges);
    SplitJoin(ExportLineSeq(nodes, edges), '\n');
  }

  // ----------------------------------------------------------- round trip

  /** What the round trip asks of the edges handed to the exporter: each one could have been parsed. */
  predicate ExportableEdges(edges: seq<DependencyEdge>)
  {
    forall i :: 0 <= i < |edges| ==> IsEdge(edges[i])
  }

  /** What the round trip asks of the node ids handed to the exporter: each one could have been parsed. */
  predicate ExportableIds(nodes: seq<string>)
  {
    forall i :: 0 <= i < |nodes| ==> IsNodeId(nodes[i])
  }

  /** The first index of a `-` or U+2192 is determined by the characters before and at it. */
  lemma {:induction false} FirstDashOrArrowIs(s: string, k: nat)
    requires k <= |s|
    requires forall j :: 0 <= j < k ==> !IsDashOrArrow(s[j])
    requires k < |s| ==> IsDashOrArrow(s[k])
    ensures FirstDashOrArrow(s) == k
  {
    if k > 0 {
      FirstDashOrArrowIs(s[1..], k - 1);
    }
  }

  /** An exported edge line is a content line: nonempty, trimmed, not a comment, on one line. */
  lemma EdgeLineIsContent(e: DependencyEdge)
    requires IsEdge(e)
    ensures IsContentLine(EdgeLine(e))
  {
    var line := EdgeLine(e);
    assert line[0] == e.from[0];
    assert line[|line| - 1] == e.to[|e.to| - 1];
    assert Lacks(e.to, '\n') by {
      assert forall i :: 0 <= i < |e.to| ==> !IsLineTerminator(e.to[i]);
    }
    EdgeLineOneLine(e);
  }

  /** An exported edge line is kept, unchanged, by the line cleaner. */
  lemma EdgeLineKept(e: DependencyEdge)
    requires IsEdge(e)
    ensures CleanLine(EdgeLine(e)) == [EdgeLine(e)]
  {
    var line := EdgeLine(e);
    EdgeLineIsContent(e);
    TrimPadded("", line, "");
    assert "" + line + "" == line;
  }

  /** An exported edge line has its first dash right after `from` and a space, followed by `>`. */
  lemma EdgeLineSplit(e: DependencyEdge)
    requires IsEdge(e)
    ensures var line, k := EdgeLine(e), |e.from| + 1;
            && k + 2 < |line| && FirstDashOrArrow(line) == k && ArrowLength(line, k) == 2
            && NoLineTerminator(line[k + 2..])
            && line[..k] == "" + e.from + " " && line[k + 2..] == " " + e.to + ""
  {
    var line := EdgeLine(e);
    var k := |e.from| + 1;
    assert line[k] == '-' && line[k + 1] == '>';
    forall j | 0 <= j < k ensures !IsDashOrArrow(line[j]) {
      if j < |e.from| {
        assert line[j] == e.from[j];
      }
    }
    FirstDashOrArrowIs(line, k);
    assert line[k + 2..] == " " + e.to;
    forall j | k + 2 < j < |line| ensures !IsLineTerminator(line[j]) {
      assert line[j] == e.to[j - k - 3];
    }
    assert line[..k] == e.from + " ";
  }

  /** The pattern's two groups, trimmed, are the exported edge's endpoints. */
  lemma EdgeLineGroups(e: DependencyEdge)
    requires IsEdge(e)
    ensures Groups(EdgeLine(e), |e.from| + 1, 2) == e
  {
    EdgeLineSplit(e);
    TrimPadded("", e.from, " ");
    TrimPadded(" ", e.to, "");
  }

  /** The edge pattern splits an exported edge line at its ` -> ` and gives the edge back. */
  lemma EdgeLineMatches(e: DependencyEdge)
    requires IsEdge(e)
    ensures HasArrow(EdgeLine(e))
    ensures EdgeOf(EdgeLine(e)) == [e]
  {
    EdgeLineSplit(e);
    EdgeLineGroups(e);
    var line := EdgeLine(e);
    assert MatchEdge(line) == Some(e);
  }

  /** The exported edge lines are all kept, unchanged. */
  lemma CleanEdgeLines(edges: seq<DependencyEdge>)
    requires ExportableEdges(edges)
    ensures CleanLines(EdgeLineSeq(edges)) == EdgeLineSeq(edges)
  {
    var lines := EdgeLineSeq(edges);
    forall i | 0 <= i < |lines| ensures CleanLine(lines[i]) == [lines[i]] {
      EdgeLineKept(edges[i]);
    }
    FlatMapSingletons(CleanLine, lines, lines);
  }

  /** The exported edge lines parse back to the edges. */
  lemma ParseEdgeLines(edges: seq<DependencyEdge>)
    requires ExportableEdges(edges)
    ensures ParseEdges(EdgeLineSeq(edges)) == edges
  {
    var lines := EdgeLineSeq(edges);
    forall i | 0 <= i < |lines| ensures EdgeOf(lines[i]) == [edges[i]] {
      EdgeLineMatches(edges[i]);
    }
    FlatMapSingletons(EdgeOf, lines, edges);
  }

  // ------------------------------------------------------- the node list

  /** A join of nonempty parts starts with the first part's first character and ends with the last part's last. */
  lemma {:induction false} JoinEnds(parts: seq<string>, sep: string)
    requires |parts| > 0
    requires forall i :: 0 <= i < |parts| ==> |parts[i]| > 0
    ensures var j, last := Join(parts, sep), parts[|parts| - 1];
            |j| > 0 && j[0] == parts[0][0] && j[|j| - 1] == last[|last| - 1]
  {
    if |parts| > 1 {
      JoinEnds(parts[1..], sep);
      assert parts[1..][|parts| - 2] == parts[|parts| - 1];
    }
  }

  /** Two arrow-free strings stay arrow-free side by side unless a `-` meets a `>` at the seam. */
  lemma NoArrowConcat(a: string, b: string)
    requires !HasArrow(a) && !HasArrow(b)
    requires |a| > 0 && |b| > 0 ==> a[|a| - 1] != '-' || b[0] != '>'
    ensures !HasArrow(a + b)
  {
    var s := a + b;
    HasArrowIff(a);
    HasArrowIff(b);
    HasArrowIff(s);
    forall i | 0 <= i < |s| ensures !ArrowAt(s, i) {
      if i < |a| {
        assert s[i] == a[i];
        if i + 1 < |a| {
          assert s[i + 1] == a[i + 1];
        }
        assert !ArrowAt(a, i);
      } else {
        assert s[i] == b[i - |a|];
        if i + 1 < |s| {
          assert s[i + 1] == b[i - |a| + 1];
        }
        assert !ArrowAt(b, i - |a|);
      }
    }
  }

  /** The id list of an export holds no arrow. */
  lemma {:induction false} JoinNoArrow(ids: seq<string>)
    requires ExportableIds(ids)
    ensures !HasArrow(Join(ids, ", "))
  {
    if |ids| > 1 {
      JoinNoArrow(ids[1..]);
      assert !HasArrow(", ") by {
        assert ", "[1..] == " ";
        assert " "[1..] == "";
      }
      NoArrowConcat(ids[0], ", ");
      NoArrowConcat(ids[0] + ", ", Join(ids[1..], ", "));
    }
  }

  /** The fields the id list of an export splits into: the first id, then each later id after its space. */
  function Fields(ids: seq<string>): (fields: seq<string>)
    ensures |fields| == |ids|
  {
    seq(|ids|, i requires 0 <= i < |ids| => if i == 0 then ids[0] else " " + ids[i])
  }

  /** Splitting the id list of an export at its commas gives one field per id. */
  lemma {:induction false} SplitNodeList(ids: seq<string>)
    requires |ids| > 0
    requires FreeOf(ids, ',')
    ensures Split(Join(ids, ", "), ',') == Fields(ids)
  {
    SplitNoSep(ids[0], ',');
    if |ids| > 1 {
      var rest := Join(ids[1..], ", ");
      SplitNodeList(ids[1..]);
      JoinComma(ids);
      SplitConcat(ids[0], [' '] + rest, ',');
      SplitCons(' ', rest, ',');
      FieldsCons(ids);
    }
  }

  /** The id list cut after its first id: the comma, then a space before the rest. */
  lemma JoinComma(ids: seq<string>)
    requires |ids| > 1
    ensures Join(ids, ", ") == ids[0] + [','] + ([' '] + Join(ids[1..], ", "))
  {
  }

  /** The fields of an id list: the first id, then the fields of the rest with a space before the first of them. */
  lemma FieldsCons(ids: seq<string>)
    requires |ids| > 1
    ensures Fields(ids) == [ids[0]] + [[' '] + Fields(ids[1..])[0]] + Fields(ids[1..])[1..]
  {
    var f, g := Fields(ids), Fields(ids[1..]);
    var r := [ids[0]] + [[' '] + g[0]] + g[1..];
    forall i | 0 <= i < |ids| ensures f[i] == r[i] {
      if i > 1 {
        assert r[i] == g[i - 1];
      }
    }
  }

  /** Each field of the id list of an export reads back as its id. */
  lemma FieldReadsBack(ids: seq<string>, i: nat)
    requires i < |ids| && ExportableIds(ids)
    ensures FieldId(Fields(ids)[i]) == [ids[i]]
  {
    var x := ids[i];
    if i == 0 {
      TrimPadded("", x, "");
      assert "" + x + "" == x;
    } else {
      TrimPadded(" ", x, "");
      assert " " + x + "" == Fields(ids)[i];
    }
  }

  /** The node section of an export reads back as the ids. */
  lemma NodeListIds(ids: seq<string>)
    requires |ids| > 0 && ExportableIds(ids)
    ensures FreeOf([Join(ids, ", ")], '\n')
    ensures NodeIds([Join(ids, ", ")]) == ids
  {
    var j := Join(ids, ", ");
    JoinFree(ids, ", ", '\n');
    SplitNodeList(ids);
    var fields := Fields(ids);
    forall i | 0 <= i < |ids| ensures FieldId(fields[i]) == [ids[i]] {
      FieldReadsBack(ids, i);
    }
    assert Join([j], ",") == j;
    FlatMapSingletons(FieldId, fields, ids);
  }

  /** The id list line of an export is kept unless it is empty or its first id starts with `#`. */
  lemma NodeListLine(ids: seq<string>)
    requires ExportableIds(ids)
    ensures CleanLine(Join(ids, ", ")) == if |ids| > 0 && ids[0][0] != '#' then [Join(ids, ", ")] else []
  {
    var j := Join(ids, ", ");
    if |ids| == 0 {
      assert Trim("") == "";
    } else {
      JoinEnds(ids, ", ");
      TrimPadded("", j, "");
      assert "" + j + "" == j;
    }
  }

  /** The section comments and the empty line of an export are dropped by the line cleaner. */
  lemma FixedLinesDropped()
    ensures CleanLine("# Nodes Section") == []
    ensures CleanLine("") == []
    ensures CleanLine("# Dependencies Section") == []
  {
    TrimPadded("", "# Nodes Section", "");
    assert "" + "# Nodes Section" + "" == "# Nodes Section";
    TrimPadded("", "# Dependencies Section", "");
    assert "" + "# Dependencies Section" + "" == "# Dependencies Section";
    assert Trim("") == "";
  }

  /** The kept lines of the four fixed-position lines of an export: only the id list line can survive. */
  lemma CleanHead(j: string)
    ensures FlatMap(CleanLine, ["# Nodes Section", j, "", "# Dependencies Section"]) == CleanLine(j)
  {
    FixedLinesDropped();
    FlatMapFour(CleanLine, "# Nodes Section", j, "", "# Dependencies Section");
  }

  /** Exportable edges hold no line break. */
  lemma ExportableOnOneLine(edges: seq<DependencyEdge>)
    requires ExportableEdges(edges)
    ensures EdgesOnOneLine(edges)
  {
    forall i | 0 <= i < |edges| ensures Lacks(edges[i].to, '\n') {
      assert forall k :: 0 <= k < |edges[i].to| ==> !IsLineTerminator(edges[i].to[k]);
    }
  }

  /** The kept lines of an export: the id list line, when kept, then the edge lines. */
  lemma ExportContentLines(nodes: seq<string>, edges: seq<DependencyEdge>)
    requires ExportableIds(nodes) && ExportableEdges(edges)
    ensures ContentLines(ExportToText(nodes, edges)) == CleanLine(Join(nodes, ", ")) + EdgeLineSeq(edges)
  {
    var j := Join(nodes, ", ");
    var head, e := ["# Nodes Section", j, "", "# Dependencies Section"], EdgeLineSeq(edges);
    ExportableOnOneLine(edges);
    assert FreeOf(nodes, '\n');
    ExportLines(nodes, edges);
    CleanEdgeLines(edges);
    CleanHead(j);
    FixedLinesDropped();
    assert ExportLineSeq(nodes, edges) == head + e + [""];
    FlatMapAppend(CleanLine, head + e, [""]);
    FlatMapAppend(CleanLine, head, e);
    FlatMapOne(CleanLine, "");
  }

  // ----------------------------------------------------- parse of an export

  /** The section divider of an export whose id list line is kept falls right after it. */
  lemma KeptListDivider(j: string, e: seq<string>)
    requires !HasArrow(j)
    requires |e| > 0 ==> HasArrow(e[0])
    ensures SectionDivider([j] + e) == 1
  {
    var lines := [j] + e;
    assert lines[1..] == e;
    assert FirstArrowLine(e) == 0;
  }

  /** Parsing an export whose first id does not start with `#` gives the ids and the edges back. */
  lemma ParseKeptNodeList(nodes: seq<string>, edges: seq<DependencyEdge>)
    requires ExportableIds(nodes) && ExportableEdges(edges)
    requires |nodes| > 0 && nodes[0][0] != '#'
    ensures ParseInput(ExportToText(nodes, edges)) == ParsedInput(MakeNodes(nodes), edges)
  {
    var j, e := Join(nodes, ", "), EdgeLineSeq(edges);
    var lines := [j] + e;
    ExportContentLines(nodes, edges);
    NodeListLine(nodes);
    JoinNoArrow(nodes);
    if |edges| > 0 {
      EdgeLineMatches(edges[0]);
    }
    KeptListDivider(j, e);
    assert lines[..1] == [j] && lines[1..] == e;
    NodeListIds(nodes);
    ParseEdgeLines(edges);
  }

  /** Parsing an export whose first id starts with `#`: the id list line is read as a comment. */
  lemma ParseLostNodeList(nodes: seq<string>, edges: seq<DependencyEdge>)
    requires ExportableIds(nodes) && ExportableEdges(edges)
    requires |nodes| == 0 || nodes[0][0] == '#'
    ensures ParseInput(ExportToText(nodes, edges)) == ParsedInput([], edges)
  {
    var e := EdgeLineSeq(edges);
    ExportContentLines(nodes, edges);
    NodeListLine(nodes);
    assert ContentLines(ExportToText(nodes, edges)) == e;
    if |edges| > 0 {
      EdgeLineMatches(edges[0]);
      assert SectionDivider(e) == 0;
      assert e[..0] == [] && e[0..] == e;
      NoIdsInEmpty();
      ParseEdgeLines(edges);
    }
  }

  /**
   * Parsing an export of parseable ids and edges gives the edges back, in
   * order, and the ids as nodes labelled with themselves -- unless the first id
   * starts with `#`: the id list line is then taken for a comment and every
   * node is lost.
   */
  lemma ParseExport(nodes: seq<string>, edges: seq<DependencyEdge>)
    requires ExportableIds(nodes) && ExportableEdges(edges)
    ensures ParseInput(ExportToText(nodes, edges))
         == ParsedInput(MakeNodes(if |nodes| > 0 && nodes[0][0] == '#' then [] else nodes), edges)
  {
    if |nodes| > 0 && nodes[0][0] != '#' {
      ParseKeptNodeList(nodes, edges);
    } else {
      ParseLostNodeList(nodes, edges);
    }
  }

  /** A parse result is rebuilt from its ids: every parsed node is labelled with its id and has no description. */
  lemma MakeNodesOfIds(nodes: seq<DependencyNode>)
    requires forall i :: 0 <= i < |nodes| ==> nodes[i].nodeLabel == nodes[i].id && nodes[i].description == None
    ensures MakeNodes(Ids(nodes)) == nodes
  {
  }

  /**
   * Exporting a parse result and parsing the export gives the same result,
   * provided the first parsed id does not start with `#`.
   */
  lemma ParseExportParse(text: string)
    requires var p := ParseInput(text); |p.nodes| > 0 ==> p.nodes[0].id[0] != '#'
    ensures var p := ParseInput(text); ParseInput(ExportToText(Ids(p.nodes), p.edges)) == p
  {
    var p := ParseInput(text);
    ParseExport(Ids(p.nodes), p.edges);
    MakeNodesOfIds(p.nodes);
  }

  /** A final line break adds only an empty last line, which the parser drops: the parse is unchanged. */
  lemma TrailingBreak(text: string)
    ensures ContentLines(text + "\n") == ContentLines(text)
    ensures ParseInput(text + "\n") == ParseInput(text)
  {
    assert text + "\n" == text + ['\n'] + "";
    SplitConcat(text, "", '\n');
    assert Split("", '\n') == [""];
    FlatMapAppend(CleanLine, Split(text, '\n'), [""]);
    FlatMapOne(CleanLine, "");
    FixedLinesDropped();
  }

  /** A text of one line gives at most that line, trimmed, unless it is blank or a comment. */
  lemma ContentLinesOne(line: string)
    requires Lacks(line, '\n')
    ensures ContentLines(line) == CleanLine(line)
  {
    SplitNoSep(line, '\n');
    FlatMapOne(CleanLine, line);
  }

  /** Lines are cleaned one by one: the content lines of two texts joined by a break are those of each, in order. */
  lemma ContentLinesBreak(a: string, b: string)
    ensures ContentLines(a + "\n" + b) == ContentLines(a) + ContentLines(b)
  {
    assert a + "\n" + b == a + ['\n'] + b;
    SplitConcat(a, b, '\n');
    FlatMapAppend(CleanLine, Split(a, '\n'), Split(b, '\n'));
  }

  /**
   * For any list of raw lines, the lines the parser works on are exactly the
   * non-blank, non-comment ones, trimmed, in their order.
   */
  lemma ContentLinesOfLines(raws: seq<string>)
    requires FreeOf(raws, '\n')
    ensures ContentLines(Join(raws, "\n")) == CleanLines(raws)
  {
    if |raws| == 0 {
      assert Split("", '\n') == [""];
      FlatMapOne(CleanLine, "");
    } else {
      SplitJoin(raws, '\n');
    }
  }
}
