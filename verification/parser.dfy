/**
 * The arrow-grammar parser and its exporter (src/utils/parser.ts).
 *
 * A text is cut into lines; the lines are trimmed and blank lines and `#`
 * comments dropped.  Everything before the first line holding an arrow (`->`
 * or U+2192) is the node section, a comma-separated list of ids; from that
 * line on, each line is an edge `from -> to`, and lines the edge pattern
 * rejects are dropped without a word.
 */
module Parser {
  import opened Types
  import opened Text
  import opened Seqs

  // ---------------------------------------------------------------- lines

  /** A line `parseInput` keeps: non-blank, trimmed, not a `#` comment, no line break. */
  predicate IsContentLine(line: string)
  {
    |line| > 0 && IsTrimmed(line) && line[0] != '#' && Lacks(line, '\n')
  }

  /** What one raw line contributes: itself trimmed, unless that is blank or a comment. */
  function CleanLine(raw: string): (kept: seq<string>)
    ensures |kept| <= 1
    ensures Lacks(raw, '\n') ==> forall i :: 0 <= i < |kept| ==> IsContentLine(kept[i])
    ensures |Trim(raw)| > 0 && Trim(raw)[0] != '#' ==> kept == [Trim(raw)]
    ensures |kept| == 1 ==> |Trim(raw)| > 0 && Trim(raw)[0] != '#'
  {
    var t := Trim(raw);
    TrimChars(raw, c => c != '\n');
    if |t| > 0 && t[0] != '#' then [t] else []
  }

  /** The trimmed lines of `raw` that are neither blank nor comments, in order. */
  function CleanLines(raw: seq<string>): (lines: seq<string>)
  {
    FlatMap(CleanLine, raw)
  }

  /** The lines of `text` the parser works on. */
  function ContentLines(text: string): (lines: seq<string>)
    ensures forall i :: 0 <= i < |lines| ==> IsContentLine(lines[i])
  {
    var raw := Split(text, '\n');
    SplitFree(text, '\n');
    FlatMapElems(CleanLine, raw, IsContentLine);
    CleanLines(raw)
  }

  // ------------------------------------------------------------- sections

  /** An arrow token `->` or U+2192 starts at index `i` of `s`. */
  predicate ArrowAt(s: string, i: int)
  {
    0 <= i < |s| && (s[i] == ARROW || (s[i] == '-' && i + 1 < |s| && s[i + 1] == '>'))
  }

  /** `s.includes('->') || s.includes('→')`. */
  predicate HasArrow(s: string)
  {
    |s| > 0 && (ArrowAt(s, 0) || HasArrow(s[1..]))
  }

  /** `HasArrow` finds an arrow token anywhere in the string. */
  lemma {:induction false} HasArrowIff(s: string)
    ensures HasArrow(s) <==> exists i :: ArrowAt(s, i)
  {
    if |s| > 0 {
      HasArrowIff(s[1..]);
      if exists i :: ArrowAt(s, i) {
        var i :| ArrowAt(s, i);
        if i > 0 {
          assert ArrowAt(s[1..], i - 1);
        }
      }
      if HasArrow(s[1..]) {
        var i :| ArrowAt(s[1..], i);
        assert ArrowAt(s, i + 1);
      }
    }
  }

  /** The index of the first line holding an arrow, `|lines|` when there is none. */
  function FirstArrowLine(lines: seq<string>): (k: nat)
    ensures k <= |lines|
    ensures forall j :: 0 <= j < k ==> !HasArrow(lines[j])
    ensures k < |lines| ==> HasArrow(lines[k])
  {
    if |lines| == 0 || HasArrow(lines[0]) then 0 else 1 + FirstArrowLine(lines[1..])
  }

  /**
   * Where the node section ends: at the first line holding an arrow, or after
   * the first line when no line holds one.
   */
  function SectionDivider(lines: seq<string>): (d: nat)
    requires |lines| > 0
    ensures d <= |lines|
    ensures forall j :: 0 <= j < d ==> !HasArrow(lines[j])
    ensures (exists j :: 0 <= j < |lines| && HasArrow(lines[j])) ==> d < |lines| && HasArrow(lines[d])
    ensures (forall j :: 0 <= j < |lines| ==> !HasArrow(lines[j])) ==> d == 1
  {
    var k := FirstArrowLine(lines);
    if k == |lines| then 1 else k
  }

  // ---------------------------------------------------------------- nodes

  /** What the parser accepts as a node id. */
  predicate IsNodeId(id: string)
  {
    |id| > 0 && IsTrimmed(id) && Lacks(id, ',') && Lacks(id, '\n') && !HasArrow(id)
  }

  /** What one comma-separated field contributes: itself trimmed, unless empty or holding an arrow. */
  function FieldId(field: string): (ids: seq<string>)
    ensures |ids| <= 1
    ensures forall i :: 0 <= i < |ids| ==> |ids[i]| > 0 && IsTrimmed(ids[i]) && !HasArrow(ids[i])
    ensures Lacks(field, ',') && Lacks(field, '\n') ==> forall i :: 0 <= i < |ids| ==> IsNodeId(ids[i])
    ensures |Trim(field)| > 0 && !HasArrow(Trim(field)) ==> ids == [Trim(field)]
    ensures |ids| == 1 ==> ids[0] == Trim(field)
  {
    var t := Trim(field);
    TrimChars(field, c => c != ',' && c != '\n');
    if |t| > 0 && !HasArrow(t) then [t] else []
  }

  /** The comma-separated fields, trimmed, without the empty ones and those holding an arrow. */
  function FieldIds(fields: seq<string>): (ids: seq<string>)
  {
    FlatMap(FieldId, fields)
  }

  /** The node ids of a node section: its lines joined with `,` and split again. */
  function NodeIds(section: seq<string>): (ids: seq<string>)
    requires FreeOf(section, '\n')
    ensures forall i :: 0 <= i < |ids| ==> IsNodeId(ids[i])
  {
    var joined := Join(section, ",");
    JoinFree(section, ",", '\n');
    var fields := Split(joined, ',');
    SplitChars(joined, ',', '\n');
    SplitFree(joined, ',');
    FlatMapElems(FieldId, fields, IsNodeId);
    FieldIds(fields)
  }

  /** One parsed node per id, labelled with the id itself. */
  function MakeNodes(ids: seq<string>): (nodes: seq<DependencyNode>)
    ensures Ids(nodes) == ids
    ensures forall i :: 0 <= i < |nodes| ==> nodes[i].nodeLabel == nodes[i].id && nodes[i].description == None
  {
    seq(|ids|, i requires 0 <= i < |ids| => DependencyNode(ids[i], ids[i], None))
  }

  // ---------------------------------------------------------------- edges

  predicate IsDashOrArrow(c: char)
  {
    c == '-' || c == ARROW
  }

  /** The index of the first `-` or U+2192 of `s`, `|s|` when there is none. */
  function FirstDashOrArrow(s: string): (k: nat)
    ensures k <= |s|
    ensures forall j :: 0 <= j < k ==> !IsDashOrArrow(s[j])
    ensures k < |s| ==> IsDashOrArrow(s[k])
  {
    if |s| == 0 || IsDashOrArrow(s[0]) then 0 else 1 + FirstDashOrArrow(s[1..])
  }

  predicate NoLineTerminator(s: string)
  {
    forall i :: 0 <= i < |s| ==> !IsLineTerminator(s[i])
  }

  /**
   * The regular expression `^([^-→]+)(?:->|→)(.+)$` matches `s` with group 1
   * `s[..k]`, the arrow `s[k..k + n]` and group 2 `s[k + n..]`.  Without the
   * `s` flag, `.` matches anything but a line terminator.
   */
  ghost predicate RegexSplit(s: string, k: int, n: int)
  {
    && 0 < k && (n == 1 || n == 2) && k + n < |s|
    && (forall j :: 0 <= j < k ==> !IsDashOrArrow(s[j]))
    && (if n == 2 then s[k] == '-' && s[k + 1] == '>' else s[k] == ARROW)
    && NoLineTerminator(s[k + n..])
  }

  /** The length of the arrow token at index `k` of `s`: 1 for U+2192, 2 for `->`, 0 for none. */
  function ArrowLength(s: string, k: nat): (n: nat)
    ensures n <= 2
  {
    if k < |s| && s[k] == ARROW then 1
    else if k + 1 < |s| && s[k] == '-' && s[k + 1] == '>' then 2
    else 0
  }

  /** Group 1 cannot run past a `-` or U+2192, so every match splits at the first one. */
  lemma RegexSplitAtFirstDash(s: string)
    ensures forall k, n :: RegexSplit(s, k, n) ==>
              k == FirstDashOrArrow(s) && n == ArrowLength(s, k)
  {
  }

  /** The `from` of a parsed edge: non-empty, trimmed, free of `-`, U+2192 and line breaks, no leading `#`. */
  predicate IsFromId(from: string)
  {
    && |from| > 0 && IsTrimmed(from) && from[0] != '#' && Lacks(from, '\n')
    && forall i :: 0 <= i < |from| ==> !IsDashOrArrow(from[i])
  }

  /** The `to` of a parsed edge: non-empty, trimmed, free of line terminators. */
  predicate IsToId(to: string)
  {
    |to| > 0 && IsTrimmed(to) && NoLineTerminator(to)
  }

  /** The edge read from the split of `line` at `k` around an arrow of length `n`: both groups, trimmed. */
  function Groups(line: string, k: nat, n: nat): (e: DependencyEdge)
    requires k + n <= |line|
  {
    DependencyEdge(Trim(line[..k]), Trim(line[k + n..]))
  }

  /** On a kept line, the trimmed groups of a match are a valid `from` and `to`. */
  lemma MatchedGroupsValid(line: string, k: int, n: int)
    requires IsContentLine(line) && RegexSplit(line, k, n)
    ensures IsEdge(Groups(line, k, n))
  {
    FromGroupValid(line, k, n);
    ToGroupValid(line, k, n);
  }

  /** Group 1 of a kept line, trimmed, is a valid `from`. */
  lemma FromGroupValid(line: string, k: int, n: int)
    requires IsContentLine(line) && RegexSplit(line, k, n)
    ensures IsFromId(Trim(line[..k]))
  {
    var group := line[..k];
    TrimChars(group, c => c != '\n' && !IsDashOrArrow(c));
    assert group[0] == line[0];
    TrimKeepsHead(group);
  }

  /** Group 2 of a kept line, trimmed, is a valid `to`. */
  lemma ToGroupValid(line: string, k: int, n: int)
    requires IsContentLine(line) && RegexSplit(line, k, n)
    ensures IsToId(Trim(line[k + n..]))
  {
    var group := line[k + n..];
    TrimChars(group, c => !IsLineTerminator(c));
    assert group[|group| - 1] == line[|line| - 1];
    TrimKeepsLast(group);
  }

  /** One dependency line matched against the edge pattern, both groups trimmed. */
  function MatchEdge(line: string): (r: Option<DependencyEdge>)
    ensures r.Some? ==> HasArrow(line)
    ensures r.Some? && IsContentLine(line) ==> IsEdge(r.value)
  {
    var k := FirstDashOrArrow(line);
    var n := ArrowLength(line, k);
    if 0 < k && 0 < n && k + n < |line| && NoLineTerminator(line[k + n..]) then
      assert RegexSplit(line, k, n);
      HasArrowIff(line);
      assert ArrowAt(line, k);
      if IsContentLine(line) then
        MatchedGroupsValid(line, k, n);
        Some(Groups(line, k, n))
      else
        Some(Groups(line, k, n))
    else
      None
  }

  /**
   * `MatchEdge` implements the regular expression: it fails exactly when no
   * split of the line fits the pattern, and otherwise returns the two groups
   * of that split, trimmed.
   */
  lemma MatchEdgeIsRegex(line: string)
    ensures MatchEdge(line).None? <==> forall k, n :: !RegexSplit(line, k, n)
    ensures MatchEdge(line).Some? ==>
              exists k, n :: RegexSplit(line, k, n)
                && MatchEdge(line).value == Groups(line, k, n)
  {
    var k := FirstDashOrArrow(line);
    var n := ArrowLength(line, k);
    MatchEdgeAtFirstDash(line);
    if MatchEdge(line).None? {
      forall k', n' ensures !RegexSplit(line, k', n') {
        RegexSplitAtFirstDash(line);
      }
    }
  }

  /** `MatchEdge` succeeds exactly when the split at the first `-` or U+2192 fits the pattern. */
  lemma MatchEdgeAtFirstDash(line: string)
    ensures var k := FirstDashOrArrow(line);
            var n := ArrowLength(line, k);
            && (MatchEdge(line).Some? <==> RegexSplit(line, k, n))
            && (MatchEdge(line).Some? ==> MatchEdge(line).value == Groups(line, k, n))
  {
  }

  /** The edges of the dependency section: one per matching line, in line order. */
  function ParseEdges(lines: seq<string>): (edges: seq<DependencyEdge>)
  {
    FlatMap(EdgeOf, lines)
  }

  /** What one dependency line contributes: its edge when the pattern matches, nothing otherwise. */
  function EdgeOf(line: string): (edges: seq<DependencyEdge>)
    ensures |edges| <= 1
    ensures |edges| == 1 <==> MatchEdge(line).Some?
    ensures IsContentLine(line) ==> forall i :: 0 <= i < |edges| ==> IsEdge(edges[i])
  {
    match MatchEdge(line)
    case Some(e) => [e]
    case None => []
  }

  /** A parsed edge: a valid `from` and a valid `to`. */
  predicate IsEdge(e: DependencyEdge)
  {
    IsFromId(e.from) && IsToId(e.to)
  }

  // ---------------------------------------------------------------- parse

  /** `parseInput`: the nodes of the node section and the edges of the dependency section. */
  function ParseInput(text: string): (r: ParsedInput)
    ensures ContentLines(text) == [] ==> r == ParsedInput([], [])
    ensures forall i :: 0 <= i < |r.nodes| ==>
              r.nodes[i].nodeLabel == r.nodes[i].id && r.nodes[i].description == None && IsNodeId(r.nodes[i].id)
    ensures forall i :: 0 <= i < |r.edges| ==> IsEdge(r.edges[i])
    ensures |r.edges| <= |ContentLines(text)|
  {
    ParseLines(ContentLines(text))
  }

  /** The parse of the kept lines: nodes from the lines before the divider, edges from the rest. */
  function ParseLines(lines: seq<string>): (r: ParsedInput)
    requires forall i :: 0 <= i < |lines| ==> IsContentLine(lines[i])
    ensures lines == [] ==> r == ParsedInput([], [])
    ensures forall i :: 0 <= i < |r.nodes| ==>
              r.nodes[i].nodeLabel == r.nodes[i].id && r.nodes[i].description == None && IsNodeId(r.nodes[i].id)
    ensures forall i :: 0 <= i < |r.edges| ==> IsEdge(r.edges[i])
    ensures |r.edges| <= |lines|
  {
    if |lines| == 0 then ParsedInput([], [])
    else
      var d := SectionDivider(lines);
      var deps := lines[d..];
      ContentSuffix(lines, d);
      FlatMapElems(EdgeOf, deps, IsEdge);
      FlatMapShorter(EdgeOf, deps);
      ParsedInput(MakeNodes(NodeIds(lines[..d])), ParseEdges(deps))
  }

  /** Every piece of a block of kept lines is a block of kept lines. */
  lemma ContentSuffix(lines: seq<string>, d: nat)
    requires d <= |lines|
    requires forall i :: 0 <= i < |lines| ==> IsContentLine(lines[i])
    ensures FreeOf(lines[..d], '\n')
    ensures forall i :: 0 <= i < |lines| - d ==> IsContentLine(lines[d..][i])
  {
    forall i | 0 <= i < |lines| - d ensures IsContentLine(lines[d..][i]) {
      assert lines[d..][i] == lines[d + i];
    }
  }

  // --------------------------------------------------------------- export

  /** The text of one edge line, without its line break. */
  function EdgeLine(e: DependencyEdge): string
  {
    e.from + " -> " + e.to
  }

  /** One `from -> to` line per edge, each ending in a line break. */
  function EdgeLines(edges: seq<DependencyEdge>): string
  {
    if |edges| == 0 then "" else EdgeLine(edges[0]) + "\n" + EdgeLines(edges[1..])
  }

  /** `exportToText`: a node section listing the ids, then one line per edge. */
  function ExportToText(nodes: seq<string>, edges: seq<DependencyEdge>): string
  {
    "# Nodes Section\n" + Join(nodes, ", ") + "\n\n" + "# Dependencies Section\n" + EdgeLines(edges)
  }
}
