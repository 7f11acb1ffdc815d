# Dependency graph sorter — a Dafny model of its core

The application reads a plain-text description of a dependency graph. It has
a node section, which is a comma-separated list of task ids, and a
dependency section, which holds lines `A -> B` (or `A → B`). It orders the
tasks with Kahn's algorithm and flags a cycle when the number of ids that
come out differs from the number of node ids that went in. It can also write a graph back out in the same text format.

This project models three parts of that core in Dafny and proves what each
promises:

- the parser `parseInput` and the exporter `exportToText`
  (`src/utils/parser.ts`);
- Kahn's topological sort `topologicalSort` (`src/utils/topologicalSort.ts`);
- the records they exchange (`src/types.ts:1-20`).

Modules:

- `Types`: the records `DependencyNode`, `DependencyEdge`, `ParsedInput` and
  `TopologicalSortResult`.
- `Text`: the JavaScript string primitives the parser uses. These are
  `split` on one character, `join`, and `trim`, with the ECMAScript
  whitespace and line-terminator sets.
- `Seqs`: a generic flat-map over sequences.
- `Parser`: `parseInput` and `exportToText`. The edge regular expression
  `^([^-→]+)(?:->|→)(.+)$` is modelled both as a specification
  (`RegexSplit`) and as the computation it amounts to (`MatchEdge`).
- `ParserLaws`: how parsing and exporting relate. This includes the round
  trip, and the one case where it loses the node list.
- `Graph`: the graph vocabulary the sort is specified in:
  - the keys of the in-degree map, in JavaScript `Map` insertion order;
  - successor lists and in-degree counts;
  - the roots;
  - cycles and acyclicity;
  - "every dependency comes earlier".
- `QueueOrder`: the exact FIFO order. `Trail` is the roots followed by the
  ids each emission frees, in the order the queue receives them. The output
  of the sort is the unique causal fixpoint of `Trail`.
- `Reference`: front-to-back reference definitions of the graph functions,
  proved equal to the back-to-front ones the sort's proofs use.
- `Kahn`: the sort itself. It builds the maps, seeds the queue and drains
  it, with loop invariants.
- `SortLaws`: what the sort's result means: nothing on a cycle is listed,
  the cycle flag, and completeness on acyclic graphs.
- `Samples`: concrete runs. These are the input panel's default graph, a
  three-cycle, and inputs that show the quirks below.

The in-degree `Map` is modelled as a `map` together with the list of its
keys in insertion order (`Kahn.DegreeMap`): `Map.forEach` visits keys in that
order, and the queue is seeded in that order. The adjacency `Map` is a plain
`map` from ids to successor lists: the source only calls `get` and `set` on
it and never iterates it, so its key order is never observed. The queue is a sequence: `shift` takes its head and
`push` appends to it.

## Model

| member | source | states |
|---|---|---|
| Text.Trim | src/utils/parser.ts:9 | the trimmed string has no leading or trailing whitespace; it is empty exactly when the input is all whitespace |
| Text.TrimOf | src/utils/parser.ts:9 | trimming removes exactly the leading and trailing whitespace and keeps the window between them |
| Text.TrimPadded | src/utils/parser.ts:46-47 | a trimmed string padded with whitespace trims back to itself |
| Text.SplitJoin | src/utils/parser.ts:27-29 | splitting a join on the same separator gives back the parts when no part contains the separator |
| Text.JoinSplit | src/utils/parser.ts:27-29 | joining the parts of a split restores the string |
| Text.Split | src/utils/parser.ts:9 | `split` on one character always yields at least one part; `Text.JoinSplit` and `Text.SplitJoin` make it the inverse of `Text.Join` |
| Text.Join | src/utils/parser.ts:59-67 | `join` with a separator; no contract of its own: `Text.SplitJoin` and `Text.JoinSplit` state that splitting undoes it |
| Parser.CleanLine | src/utils/parser.ts:9 | a raw line contributes at most one line, and that line is non-blank, trimmed and not a `#` comment; a line whose trim is non-blank and not a comment is kept, as its trim |
| Parser.ContentLines | src/utils/parser.ts:9 | every line the parser works on is a non-blank, trimmed, non-comment line with no line break |
| ParserLaws.ContentLinesOne | src/utils/parser.ts:9 | a one-line text gives that line trimmed, unless it is blank or a comment |
| ParserLaws.ContentLinesBreak | src/utils/parser.ts:9 | lines are cleaned one by one: two texts joined by a line break give the content lines of each, in order |
| ParserLaws.ContentLinesOfLines | src/utils/parser.ts:9 | for any list of raw lines without line breaks, the empty list included, the parser works on exactly the non-blank, non-comment ones, trimmed, in order |
| Parser.HasArrowIff | src/utils/parser.ts:18 | the arrow test holds exactly when `->` or `→` starts somewhere in the line |
| Parser.FirstArrowLine | src/utils/parser.ts:16-19 | the index found is that of the first line holding an arrow; no earlier line holds one |
| Parser.SectionDivider | src/utils/parser.ts:16-24 | the node section ends at the first arrow line, or after the first line when no line has an arrow |
| Parser.FieldId | src/utils/parser.ts:28-31 | a comma field yields at most one id, which is non-empty, trimmed and arrow-free; a field whose trim is non-empty and arrow-free is kept, as its trim |
| Parser.NodeIds | src/utils/parser.ts:27-31 | every id read from the node section is a valid node id |
| Parser.MakeNodes | src/utils/parser.ts:33-36 | each node gets its id as its label and no description; ids keep their order |
| Parser.FirstDashOrArrow | src/utils/parser.ts:43 | the index found is that of the first `-` or `→`; none comes before it |
| Parser.RegexSplitAtFirstDash | src/utils/parser.ts:43 | any split the edge regex accepts puts the arrow at the first `-` or `→` of the line |
| Parser.MatchEdge | src/utils/parser.ts:43-49 | a matched line holds an arrow, and on a content line it yields trimmed, non-empty `from` and `to` ids |
| Parser.MatchEdgeIsRegex | src/utils/parser.ts:43-44 | the match fails exactly when no split satisfies the regex; when it succeeds, the groups are those of the regex's split |
| Parser.MatchEdgeAtFirstDash | src/utils/parser.ts:43-47 | a match splits the line at its first `-` or `→` |
| Parser.EdgeOf | src/utils/parser.ts:41-51 | a line yields one edge when it matches and none otherwise; unmatched lines are dropped |
| Parser.ParseEdges | src/utils/parser.ts:39-51 | map then filter over the dependency lines; no contract of its own: `ParserLaws.ParseEdgesAppend`, `ParserLaws.ParseEdgesNoArrow` and `ParserLaws.ParseEdgeLines` state what it reads |
| Parser.ParseInput | src/utils/parser.ts:8-54 | text with no content lines parses to empty lists; every node id and every edge is well formed; there are no more edges than content lines; which lines give the nodes and which the edges is stated by `ParserLaws.ParseInputSections`, and what an export parses back to by `ParserLaws.ParseExport` |
| Parser.ParseLines | src/utils/parser.ts:11-53 | the same facts, stated over the cleaned lines |
| Parser.ExportToText | src/utils/parser.ts:59-67 | the export text; no contract of its own: `ParserLaws.ExportLines` states its lines and `ParserLaws.ParseExport` what parsing it gives back |
| ParserLaws.ParseEdgesAppend | src/utils/parser.ts:39-51 | edges are read line by line: the edges of two blocks of lines are the concatenation |
| ParserLaws.ParseEdgesNoArrow | src/utils/parser.ts:39-51 | lines without an arrow yield no edges |
| ParserLaws.NodeIdsPerLine | src/utils/parser.ts:27-31 | joining the node lines with commas and splitting again reads the same ids as reading line by line |
| ParserLaws.ParseInputSections | src/utils/parser.ts:15-53 | the nodes are read from the lines before the divider and the edges from the lines after it |
| ParserLaws.NoArrowLineNoEdges | src/utils/parser.ts:21-24 | with no arrow line, only the first line gives nodes, and no edges are read |
| ParserLaws.ExportIsJoin | src/utils/parser.ts:59-67 | the export is two header comments, the node line, a blank line and one line per edge, each ending in a newline |
| ParserLaws.ExportLines | src/utils/parser.ts:59-67 | when no id holds a newline, the export's lines are exactly those parts |
| ParserLaws.EdgeLineMatches | src/utils/parser.ts:43-49 | an exported edge line parses back to that edge |
| ParserLaws.ParseEdgeLines | src/utils/parser.ts:39-51 | exported edge lines parse back to the edge list |
| ParserLaws.NodeListIds | src/utils/parser.ts:27-31 | an exported node line parses back to the node ids |
| ParserLaws.ExportContentLines | src/utils/parser.ts:9 | of an export, the parser keeps the node line (unless it starts with `#`) and the edge lines, and drops the headers and the blank line |
| ParserLaws.ParseKeptNodeList | src/utils/parser.ts:8-67 | parsing an export gives back the nodes and edges exported, when the first id does not start with `#` |
| ParserLaws.ParseLostNodeList | src/utils/parser.ts:8-67 | when the first exported id starts with `#`, the node line is read as a comment and the node list is lost |
| ParserLaws.ParseExport | src/utils/parser.ts:8-67 | parse after export, in every case: the edges survive, and the nodes survive unless the first id starts with `#` |
| ParserLaws.ParseExportParse | src/utils/parser.ts:8-67 | exporting a parse and parsing again changes nothing, when the first node id does not start with `#` |
| ParserLaws.TrailingBreak | src/utils/parser.ts:9 | a final line break only adds an empty line, which is filtered out, so the parse is unchanged |
| Graph.Dedup | src/utils/topologicalSort.ts:16-19 | the `Map` key order after setting each element of a list: no key repeats |
| Graph.DedupSame | src/utils/topologicalSort.ts:16-19 | the `Map` keys set from a list are exactly the list's elements, without repeats |
| Graph.DedupPrefix | src/utils/topologicalSort.ts:16-26 | keys set later never reorder earlier keys: the keys from a longer list extend those from its prefix with elements of the rest only |
| Graph.DedupSnoc | src/utils/topologicalSort.ts:18 | setting a key that is already present keeps the key order; a new key goes last |
| Graph.Successors | src/utils/topologicalSort.ts:22-25 | `v` is listed after `u` exactly when some edge runs from `u` to `v` |
| Graph.PendingZero | src/utils/topologicalSort.ts:26 | no edge into `v` is pending exactly when every edge into `v` comes from a finished id |
| Graph.PendingStep | src/utils/topologicalSort.ts:45-48 | finishing `c` lowers the pending count of `v` by the number of times `v` occurs in `c`'s successor list |
| Graph.ZeroIn | src/utils/topologicalSort.ts:31-35 | what the seed pass keeps: keys of in-degree 0, drawn from the keys |
| Graph.ZeroInHas | src/utils/topologicalSort.ts:31-35 | every key of in-degree 0 is seeded |
| Graph.RootsInNodeOrder | src/utils/topologicalSort.ts:31-35 | the queue is seeded with the in-degree-0 node ids in the order of their first occurrence; keys added by edges never are |
| Graph.LateKeyIsTarget | src/utils/topologicalSort.ts:26 | a key added by an edge has positive in-degree |
| Graph.BlockedSetHasCycle | src/utils/topologicalSort.ts:56-57 | a non-empty set in which every id has a predecessor inside the set contains a cycle |
| Graph.PrecedesAt | src/utils/topologicalSort.ts:40-53 | in a precedence-respecting order, the source of every edge into a listed id is listed before it |
| Kahn.Put | src/utils/topologicalSort.ts:18 | `Map.set`: the value of `k` becomes `v`, an existing key keeps its place, a new key goes last |
| Kahn.DegreeOf | src/utils/topologicalSort.ts:26 | accessor for `get(k)`, defaulting to 0, no contract of its own; `Kahn.AddEdges` and `Kahn.ReleaseOne` state the counts it reads |
| Kahn.AdjacencyOf | src/utils/topologicalSort.ts:45 | accessor for `get(u)`, defaulting to the empty list, no contract of its own; `Kahn.AddEdges` and `Kahn.Release` state the lists it reads |
| Kahn.InitNodes | src/utils/topologicalSort.ts:16-19 | every node id gets in-degree 0 and an empty list; keys are in first-occurrence order |
| Kahn.AddEdges | src/utils/topologicalSort.ts:22-27 | after the edge pass, the keys are the node ids followed by new targets, every count is the key's in-degree, and every list is the successors in edge order |
| Kahn.BuildGraph | src/utils/topologicalSort.ts:12-27 | the maps hold exactly the graph: keys, in-degrees and successor lists |
| Kahn.SeedQueue | src/utils/topologicalSort.ts:30-35 | the queue starts as the keys of in-degree 0, in key order |
| Kahn.FreedWhen | src/utils/topologicalSort.ts:46-52 | a neighbour's count reaches 0 exactly when its last pending edge is released and no later copy of it is still to come in the list |
| Kahn.ReleaseOne | src/utils/topologicalSort.ts:46-53 | one neighbour step keeps the counts equal to the pending edges, and appends the neighbour when it is freed |
| Kahn.Release | src/utils/topologicalSort.ts:45-53 | the neighbour loop appends exactly what the emission frees, in list order |
| Kahn.Emit | src/utils/topologicalSort.ts:40-53 | one emission takes a fresh key from the head of the queue and keeps the queue equal to the rest of the trail |
| Kahn.Drain | src/utils/topologicalSort.ts:37-54 | the output repeats no id, lists only keys, starts with the roots, and puts every dependency first; every key left out still waits on a pending edge; the output is the trail's causal fixpoint |
| Kahn.TopologicalSort | src/utils/topologicalSort.ts:7-60 | the cycle flag is the length mismatch; the output is the unique FIFO order; no cycle member and no self-looping id is listed; when all targets are node ids, a cycle or a repeated node id raises the flag; for distinct, closed input the flag means a cycle, and an acyclic graph is listed in full |
| Kahn.SortConsequences | src/utils/topologicalSort.ts:56-57 | what the flag does and does not mean, from the drain's outcome |
| QueueOrder.Trail | src/utils/topologicalSort.ts:40-54 | the queue's whole history for an output: the roots, then what each emitted id frees, so it is never shorter than the roots |
| QueueOrder.Freed | src/utils/topologicalSort.ts:46-52 | the neighbours an emission frees, in list order: at most one per list entry |
| QueueOrder.TrailPrefix | src/utils/topologicalSort.ts:40-53 | the queue only grows at its end: the trail of a prefix is a prefix of the trail |
| QueueOrder.CausalSnoc | src/utils/topologicalSort.ts:41 | emitting the head of a non-empty queue keeps every emitted id queued before it was emitted |
| QueueOrder.TrailUnique | src/utils/topologicalSort.ts:40-54 | at most one causal sequence is its own trail, so the FIFO discipline fixes the output completely |
| QueueOrder.PrefixNotFixpoint | src/utils/topologicalSort.ts:40 | the loop cannot stop early: a fixpoint is no strict prefix of a causal sequence |
| Reference.SuccessorsAgree | src/utils/topologicalSort.ts:22-25 | the successor list read from the back equals the list read from the front |
| Reference.PendingAgree | src/utils/topologicalSort.ts:26 | the pending count read from the back equals the count read from the front |
| Reference.ZeroInAgree | src/utils/topologicalSort.ts:31-35 | the seed filter read from the back equals the filter read from the front |
| Reference.DedupAgree | src/utils/topologicalSort.ts:16-19 | deduplication equals the key-by-key insertion into a `Map` |
| Reference.FreedAgree | src/utils/topologicalSort.ts:46-52 | the freed neighbours read from the back equal those read from the front |
| Reference.FirstOccurrencesFresh | src/utils/topologicalSort.ts:16-19 | a list without repeats keeps every element as a `Map` key, in order |
| SortLaws.KeyOrigin | src/utils/topologicalSort.ts:18-26 | every key is a node id or the target of an edge |
| SortLaws.KeysAreNodes | src/utils/topologicalSort.ts:18-26 | when every target is a node id, the keys are exactly the node ids |
| SortLaws.BlockedIffPending | src/utils/topologicalSort.ts:47-50 | an id waits exactly when some edge into it has an unlisted source |
| SortLaws.CycleNeverListed | src/utils/topologicalSort.ts:40-53 | no id on a cycle is ever listed |
| SortLaws.SelfLoopNeverListed | src/utils/topologicalSort.ts:40-53 | an id with an edge to itself is never listed |
| SortLaws.FlagOnCycle | src/utils/topologicalSort.ts:57 | when every target is a node id, a cycle makes the output shorter than the node list |
| SortLaws.FlagOnRepeat | src/utils/topologicalSort.ts:57 | when every target is a node id, a repeated node id makes the output shorter than the node list |
| SortLaws.CycleOnFlag | src/utils/topologicalSort.ts:57 | for distinct node ids closed under the edges, a length mismatch means there is a cycle |
| SortLaws.CompleteOnAcyclic | src/utils/topologicalSort.ts:40-57 | for distinct node ids closed under the edges, an acyclic graph is listed in full: the output is a permutation of the nodes |
| SortLaws.DanglingSourceBlocks | src/utils/topologicalSort.ts:22-26 | an edge from an id that is not a node, and that nothing points to, is never released: neither end is listed |
| Samples.SortDefaultSample | src/components/InputPanel.tsx:9-17 | the default graph sorts to `A, B, C, D, E` with no cycle |
| Samples.SortCycleSample | src/utils/topologicalSort.ts:29-57 | a three-cycle lists nothing and is flagged |
| Samples.SortMaskedLoopSample | src/utils/topologicalSort.ts:26-57 | a self-loop on `x` goes unflagged when an undeclared target `q` makes up the count: the output is `p, q` |
| Samples.SortRepeatSample | src/utils/topologicalSort.ts:16-57 | the repeated node list `A, A` with `A -> q` gives `A, q` and no flag |
| Samples.SortDanglingTargetSample | src/utils/topologicalSort.ts:26-57 | an edge to an undeclared id lists that id too, and the length mismatch is flagged as a cycle although there is none |
| Samples.SortDanglingSourceSample | src/utils/topologicalSort.ts:22-57 | an edge from an undeclared id is never released, and a cycle is flagged although there is none |
| Samples.ChainOrder | src/utils/topologicalSort.ts:40-54 | the only causal fixpoint for the default graph's releases is `A, B, C, D, E` |
| Samples.PairOrder | src/utils/topologicalSort.ts:40-54 | one root that frees one id, which frees nothing, gives exactly those two ids |
| Samples.EmptyOrder | src/utils/topologicalSort.ts:40 | with no root, the queue starts empty and nothing is listed |
| Samples.DefaultParse | src/components/InputPanel.tsx:9-17 | the input panel's default text parses to nodes `A` to `E` and the five edges of the sample |
| Samples.RunDefaultText | src/App.tsx:33-35 | parsing the default text and sorting its node ids and edges, as the application does, lists `A` to `E` with no cycle |

## Behaviour worth knowing

- The edge regex's `.` does not match line terminators. So an edge's `to`
  part must hold none of `\n`, `\r`, U+2028 or U+2029. Since lines are
  already split on `\n`, this matters for `\r` and the two Unicode
  separators. Read as prose, the format would only ask for "at least one
  character after the arrow".
- The cycle flag is the length comparison of `src/utils/topologicalSort.ts:57`,
  not "the graph has a cycle". The two agree when:
  - node ids are distinct;
  - every edge endpoint is a node id.

  Otherwise they can part, in either direction:
  - undeclared targets are sorted too and can mask a self-loop or a
    repeated id;
  - an undeclared target, or an undeclared source, raises the flag on an
    acyclic graph.

  The samples show each case.
- A node line whose first id begins with `#` is dropped as a comment when
  the text is read back. So export followed by parse loses the node list in
  that case. `ParserLaws.ParseExport` states it.

## Left out

- File import, download, clipboard and every React component
  (`src/App.tsx`, `src/components/`): user interface and browser I/O.
- The graph drawing (`src/components/DependencyGraph.tsx`): layout and
  rendering only, no logic of the core.
- The YAML input interfaces (`src/types.ts:22-33`): they are not used by the
  parser or the sort modelled here.
- The state handling of `src/App.tsx` (the effect of lines 32-40 and the
  empty result it stores for an empty node list, lines 37-38): user
  interface. Only the non-empty path, lines 33-35, which maps the parsed
  nodes to their ids and sorts them, is modelled, by
  `Samples.RunDefaultText`.
- `Text.Trim`: whitespace is the fixed ECMAScript set of WhiteSpace and
  LineTerminator code points. A Dafny `char` is a Unicode scalar value,
  while a JavaScript string is a sequence of UTF-16 code units. So a
  character outside the Basic Multilingual Plane is one `char` here and
  two code units there, and a lone surrogate cannot be represented at all;
  such strings are left out. On every string both sides can represent the
  results agree: the parser tests only characters of the Basic Multilingual
  Plane (whitespace, `-`, `>`, `,`, `#`, U+2192) and never compares lengths.
- Ancestor sets and level numbers of the nodes: nothing in
  `src/utils/parser.ts` or `src/utils/topologicalSort.ts` computes them,
  and the text format has no grammar file; only the parser, the exporter
  and the sort are modelled.
- Acyclicity and waiting are ghost predicates (they quantify over all
  paths and edges); the model states properties with them but never
  computes them, as the source never does either.
