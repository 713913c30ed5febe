/**
 * The data model of the Markov chain engine: the registry nodes (MarkovNode),
 * their transition edges (MarkovNodeFrequency) and the invariants the engine
 * keeps over them. A node pointer of the C code is an index into the registry.
 */
module MarkovTypes {

  datatype Option<+T> = None | Some(value: T)

  /** EXIT_SUCCESS / EXIT_FAILURE as returned by the engine and its consumers. */
  datatype Status = ExitSuccess | ExitFailure

  /**
   * One entry of a node's transition list: the registry index of the target
   * node and how many times that target was observed right after the owner.
   */
  datatype Edge = Edge(target: nat, frequency: nat)

  /** A registry node: its own copy of the state, its edges, and their count. */
  datatype Node<T> = Node(data: T, edges: seq<Edge>, frequencyCount: int)

  /** The stored states of a registry, in registry order. */
  function Values<T>(db: seq<Node<T>>): (vs: seq<T>)
    ensures |vs| == |db|
    ensures forall i :: 0 <= i < |db| ==> vs[i] == db[i].data
  {
    if |db| == 0 then [] else Values(db[..|db| - 1]) + [db[|db| - 1].data]
  }

  /** No two edges of one list lead to the same node. */
  predicate DistinctTargets(edges: seq<Edge>)
  {
    forall i, j :: 0 <= i < j < |edges| ==> edges[i].target != edges[j].target
  }

  /** frequency_count equals the length of the list and every edge was observed at least once. */
  predicate Observed<T>(node: Node<T>)
  {
    && node.frequencyCount == |node.edges|
    && forall k :: 0 <= k < |node.edges| ==> node.edges[k].frequency >= 1
  }

  /**
   * The invariant of one node in a registry of `size` nodes: it is Observed,
   * every edge points into the registry, and no target appears twice.
   */
  predicate NodeWellFormed<T>(node: Node<T>, size: nat)
  {
    && Observed(node)
    && (forall k :: 0 <= k < |node.edges| ==> node.edges[k].target < size)
    && DistinctTargets(node.edges)
  }

  /** The registry invariant: deduplicated states and well-formed nodes. */
  predicate WellFormed<T(==)>(db: seq<Node<T>>)
  {
    && (forall i, j :: 0 <= i < j < |db| ==> db[i].data != db[j].data)
    && (forall i :: 0 <= i < |db| ==> NodeWellFormed(db[i], |db|))
  }

  /** Some edge of the list leads to `target`. */
  predicate HasEdge(edges: seq<Edge>, target: nat)
  {
    exists k :: 0 <= k < |edges| && edges[k].target == target
  }

  /** Every edge of the registry leads to a node of the registry. */
  predicate Closed<T>(db: seq<Node<T>>)
  {
    forall i, k :: 0 <= i < |db| && 0 <= k < |db[i].edges| ==> db[i].edges[k].target < |db|
  }
}
