/** The records the dependency-graph core passes around (src/types.ts). */
module Types {

  /** An optional value, for the optional `description` of a node. */
  datatype Option<+T> = None | Some(value: T)

  /** A graph node: `id` is its identity, `nodeLabel` its display text (the source field `label`; `label` is a Dafny keyword). */
  datatype DependencyNode = DependencyNode(id: string, nodeLabel: string, description: Option<string>)

  /** An edge meaning "`to` depends on `from`": `from` has to be ordered before `to`. */
  datatype DependencyEdge = DependencyEdge(from: string, to: string)

  /** What the arrow-grammar parser produces: nodes and edges in input order. */
  datatype ParsedInput = ParsedInput(nodes: seq<DependencyNode>, edges: seq<DependencyEdge>)

  /** What the topological sort produces: the emitted ids and the cycle flag. */
  datatype TopologicalSortResult = TopologicalSortResult(sorted: seq<string>, hasCycle: bool)

  /** The ids of `nodes`, in order. */
  function Ids(nodes: seq<DependencyNode>): (ids: seq<string>)
    ensures |ids| == |nodes|
    ensures forall i :: 0 <= i < |nodes| ==> ids[i] == nodes[i].id
  {
    seq(|nodes|, i requires 0 <= i < |nodes| => nodes[i].id)
  }

  /** True iff no element of `s` occurs twice. */
  predicate Distinct<T(==)>(s: seq<T>)
  {
    forall i, j :: 0 <= i < j < |s| ==> s[i] != s[j]
  }
}
