/**
 * The behaviour of the engine's operations as functions on registry values.
 * The methods of MarkovChain.Chain are proved equal to these; the lemmas here
 * state what the operations promise (dedup, append-only edges, count
 * invariants, prefix-sum sampling, walk bounds).
 */
module MarkovSpec {
  import opened MarkovTypes

  /** get_random_number: a raw rand() value reduced to [0, maxNumber), or 0 for an empty range. */
  function RandomNumber(raw: nat, maxNumber: nat): (r: nat)
    ensures maxNumber > 0 ==> r < maxNumber
    ensures maxNumber == 0 ==> r == 0
  {
    if maxNumber != 0 then raw % maxNumber else 0
  }

  // ---------------------------------------------------------------- registry

  /** get_node_from_database: the first node, in registry order, holding `v`. */
  function Lookup<T(==)>(db: seq<Node<T>>, v: T): (r: Option<nat>)
    ensures r.Some? ==> r.value < |db| && db[r.value].data == v
    ensures r.Some? ==> forall j :: 0 <= j < r.value ==> db[j].data != v
    ensures r.None? ==> forall j :: 0 <= j < |db| ==> db[j].data != v
  {
    if |db| == 0 then None
    else if db[0].data == v then Some(0)
    else match Lookup(db[1..], v)
      case None => None
      case Some(i) => Some(i + 1)
  }

  /** In a deduplicated registry, looking up a stored state finds its own node. */
  lemma LookupStored<T>(db: seq<Node<T>>, i: nat)
    requires WellFormed(db) && i < |db|
    ensures Lookup(db, db[i].data) == Some(i)
  {
  }

  /** create_markov_node: a fresh node holding a copy of `v`, or None when an allocation fails. */
  function CreateNode<T>(v: T, allocOk: bool): (r: Option<Node<T>>)
    ensures r.Some? <==> allocOk
    ensures r.Some? ==> r.value.data == v && forall size :: NodeWellFormed(r.value, size)
  {
    if allocOk then Some(Node(v, [], 0)) else None
  }

  /** The outcome of add_to_database: the node reached (None for NULL) and the new registry. */
  datatype Registered<T> = Registered(node: Option<nat>, db: seq<Node<T>>)

  /**
   * add_to_database: the node already holding `v`, or a new node appended at
   * the end; on an allocation failure nothing changes and no node is returned.
   */
  function Register<T(==)>(db: seq<Node<T>>, v: T, allocOk: bool): (r: Registered<T>)
    ensures Lookup(db, v).Some? ==> r.node == Lookup(db, v) && r.db == db
    ensures r.node.None? <==> Lookup(db, v).None? && !allocOk
    ensures r.node.None? ==> r.db == db
    ensures r.node.Some? ==> r.node.value < |r.db| && r.db[r.node.value].data == v
    ensures Lookup(db, v).None? && allocOk ==>
              && r.node == Some(|db|)
              && r.db == db + [Node(v, [], 0)]
  {
    match Lookup(db, v)
    case Some(i) => Registered(Some(i), db)
    case None =>
      match CreateNode(v, allocOk)
      case None => Registered(None, db)
      case Some(node) => Registered(Some(|db|), db + [node])
  }

  /** add_to_database keeps the registry invariant: no state is stored twice. */
  lemma RegisterWellFormed<T>(db: seq<Node<T>>, v: T, allocOk: bool)
    ensures WellFormed(db) ==> WellFormed(Register(db, v, allocOk).db)
  {
  }

  /** Registering a state never changes the nodes already stored: the registry only grows at its end. */
  lemma {:induction false} RegisterKeepsPrefix<T>(db: seq<Node<T>>, v: T, allocOk: bool)
    ensures |Register(db, v, allocOk).db| <= |db| + 1
    ensures Register(db, v, allocOk).db[..|db|] == db
    ensures Values(Register(db, v, allocOk).db) ==
              if v in Values(db) || !allocOk then Values(db) else Values(db) + [v]
  {
    var r := Register(db, v, allocOk);
    if Lookup(db, v).Some? {
      assert v in Values(db);
    } else if allocOk {
      assert r.db[..|r.db| - 1] == db;
    }
  }

  // ------------------------------------------------------- transition table

  /** The position of the edge leading to `target`, if the list has one. */
  function EdgeIndex(edges: seq<Edge>, target: nat): (r: Option<nat>)
    ensures r.Some? ==> r.value < |edges| && edges[r.value].target == target
    ensures r.Some? ==> forall j :: 0 <= j < r.value ==> edges[j].target != target
    ensures r.None? ==> forall j :: 0 <= j < |edges| ==> edges[j].target != target
  {
    if |edges| == 0 then None
    else if edges[0].target == target then Some(0)
    else match EdgeIndex(edges[1..], target)
      case None => None
      case Some(i) => Some(i + 1)
  }

  /** How many times `target` was recorded after the owner of `edges` (0 when there is no edge). */
  function EdgeWeight(edges: seq<Edge>, target: nat): nat
  {
    match EdgeIndex(edges, target)
    case Some(i) => edges[i].frequency
    case None => 0
  }

  /** The sum of the frequencies of a transition list, accumulated front to back. */
  function Weight(edges: seq<Edge>): nat
  {
    if |edges| == 0 then 0 else Weight(edges[..|edges| - 1]) + edges[|edges| - 1].frequency
  }

  /**
   * add_node_to_frequency_list on one node: increment the edge to `target`
   * if there is one, otherwise append a new edge with frequency 1 and bump
   * frequency_count; None when that new edge cannot be allocated.
   */
  function RecordTransition<T>(node: Node<T>, target: nat, allocOk: bool): (r: Option<Node<T>>)
    ensures r.None? <==> EdgeIndex(node.edges, target).None? && !allocOk
    ensures r.Some? ==> r.value.data == node.data
    ensures r.Some? ==> r.value.frequencyCount - |r.value.edges| == node.frequencyCount - |node.edges|
    ensures r.Some? && EdgeIndex(node.edges, target).Some? ==> |r.value.edges| == |node.edges|
    ensures r.Some? && EdgeIndex(node.edges, target).None? ==>
              r.value.edges == node.edges + [Edge(target, 1)]
    ensures r.Some? ==> forall k :: 0 <= k < |node.edges| ==> r.value.edges[k].target == node.edges[k].target
  {
    match EdgeIndex(node.edges, target)
    case Some(i) =>
      Some(node.(edges := node.edges[i := Edge(target, node.edges[i].frequency + 1)]))
    case None =>
      if allocOk then
        Some(node.(edges := node.edges + [Edge(target, 1)], frequencyCount := node.frequencyCount + 1))
      else None
  }

  lemma {:induction false} WeightAppend(edges: seq<Edge>, e: Edge)
    ensures Weight(edges + [e]) == Weight(edges) + e.frequency
  {
    assert (edges + [e])[..|edges|] == edges;
  }

  lemma {:induction false} WeightUpdate(edges: seq<Edge>, i: nat, e: Edge)
    requires i < |edges|
    ensures Weight(edges[i := e]) == Weight(edges) - edges[i].frequency + e.frequency
    decreases |edges|
  {
    var n := |edges|;
    if i == n - 1 {
      assert edges[i := e][..n - 1] == edges[..n - 1];
    } else {
      assert edges[i := e][..n - 1] == edges[..n - 1][i := e];
      WeightUpdate(edges[..n - 1], i, e);
    }
  }

  /** Recording a transition adds exactly one to the node's total weight. */
  lemma RecordTransitionWeight<T>(node: Node<T>, target: nat, allocOk: bool)
    requires RecordTransition(node, target, allocOk).Some?
    ensures Weight(RecordTransition(node, target, allocOk).value.edges) == Weight(node.edges) + 1
  {
    match EdgeIndex(node.edges, target)
    case Some(i) =>
      WeightUpdate(node.edges, i, Edge(target, node.edges[i].frequency + 1));
    case None =>
      WeightAppend(node.edges, Edge(target, 1));
  }

  /**
   * Recording a transition to `target` adds one observation of `target` and
   * leaves the recorded count of every other target as it was.
   */
  lemma RecordTransitionCounts<T>(node: Node<T>, target: nat, allocOk: bool, t: nat)
    requires RecordTransition(node, target, allocOk).Some?
    ensures EdgeWeight(RecordTransition(node, target, allocOk).value.edges, t) ==
              EdgeWeight(node.edges, t) + (if t == target then 1 else 0)
  {
    var edges := node.edges;
    var after := RecordTransition(node, target, allocOk).value.edges;
    match EdgeIndex(edges, target)
    case Some(i) =>
      assert EdgeIndex(after, t) == EdgeIndex(edges, t) by {
        match EdgeIndex(edges, t)
        case Some(k) =>
        case None =>
      }
    case None =>
      if t == target {
        assert after == edges + [Edge(target, 1)];
        assert after[|edges|].target == target;
        assert forall j :: 0 <= j < |edges| ==> after[j].target != target;
        assert EdgeIndex(after, t) == Some(|edges|);
      } else {
        assert EdgeIndex(after, t) == EdgeIndex(edges, t) by {
          match EdgeIndex(edges, t)
          case Some(k) =>
          case None =>
        }
      }
  }

  /** Recording a transition to a node of the registry keeps the node well formed. */
  lemma RecordTransitionWellFormed<T>(node: Node<T>, target: nat, allocOk: bool, size: nat)
    requires NodeWellFormed(node, size) && target < size
    requires RecordTransition(node, target, allocOk).Some?
    ensures NodeWellFormed(RecordTransition(node, target, allocOk).value, size)
  {
  }

  /** add_node_to_frequency_list lifted to the registry: the updated registry, or None on failure. */
  function AddTransition<T>(db: seq<Node<T>>, from: nat, to: nat, allocOk: bool): (r: Option<seq<Node<T>>>)
    requires from < |db|
    ensures r.None? <==> EdgeIndex(db[from].edges, to).None? && !allocOk
    ensures r.Some? ==> |r.value| == |db| && Values(r.value) == Values(db)
    ensures r.Some? ==> forall i :: 0 <= i < |db| && i != from ==> r.value[i] == db[i]
  {
    match RecordTransition(db[from], to, allocOk)
    case None => None
    case Some(node) => Some(db[from := node])
  }

  /** Recording a transition between two registry nodes keeps the registry invariant. */
  lemma AddTransitionWellFormed<T>(db: seq<Node<T>>, from: nat, to: nat, allocOk: bool)
    requires WellFormed(db) && from < |db| && to < |db|
    requires AddTransition(db, from, to, allocOk).Some?
    ensures WellFormed(AddTransition(db, from, to, allocOk).value)
  {
    RecordTransitionWellFormed(db[from], to, allocOk, |db|);
    var after := AddTransition(db, from, to, allocOk).value;
    forall i, j | 0 <= i < j < |after| ensures after[i].data != after[j].data {
      assert after[i].data == db[i].data && after[j].data == db[j].data;
    }
  }
}
