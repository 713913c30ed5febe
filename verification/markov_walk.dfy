/**
 * The random-walk half of the engine as functions: the weighted choice of a
 * successor (prefix sums over a transition list), the rejection sampling of a
 * start node, and the bounded walk of generate_random_sequence. Randomness is
 * an input: the raw values rand() would have returned.
 */
module MarkovWalk {
  import opened MarkovTypes
  import opened MarkovSpec

  // ------------------------------------------------------ weighted sampling

  lemma WeightStep(edges: seq<Edge>, i: nat)
    requires i < |edges|
    ensures Weight(edges[..i + 1]) == Weight(edges[..i]) + edges[i].frequency
  {
    assert edges[..i + 1][..i] == edges[..i];
  }

  /** Running sums never decrease along the list. */
  lemma {:induction false} WeightMonotone(edges: seq<Edge>, j: nat, k: nat)
    requires j <= k <= |edges|
    ensures Weight(edges[..j]) <= Weight(edges[..k])
    decreases k - j
  {
    if j < k {
      WeightStep(edges, k - 1);
      WeightMonotone(edges, j, k - 1);
    }
  }

  /** A list whose edges were each observed at least once weighs at least its length. */
  lemma {:induction false} WeightAtLeastLength(edges: seq<Edge>)
    requires forall k :: 0 <= k < |edges| ==> edges[k].frequency >= 1
    ensures Weight(edges) >= |edges|
  {
    if |edges| > 0 {
      WeightAtLeastLength(edges[..|edges| - 1]);
    }
  }

  /** The running sum of get_next_random_node after the first k edges. */
  function PrefixWeight(edges: seq<Edge>, k: nat): nat
    requires k <= |edges|
  {
    Weight(edges[..k])
  }

  /**
   * The second loop of get_next_random_node from edge i on, `cumulative` being
   * the running sum before edge i: the target of the first edge whose running
   * sum exceeds r, or None when the list runs out.
   */
  function Scan(edges: seq<Edge>, r: nat, i: nat, cumulative: nat): (t: Option<nat>)
    requires i <= |edges|
    ensures t.Some? ==> exists m :: i <= m < |edges| && edges[m].target == t.value
    decreases |edges| - i
  {
    if i == |edges| then None
    else if r < cumulative + edges[i].frequency then Some(edges[i].target)
    else Scan(edges, r, i + 1, cumulative + edges[i].frequency)
  }

  /** The node a draw r selects: the scan from the head of the list with a running sum of 0. */
  function Select(edges: seq<Edge>, r: nat): (t: Option<nat>)
    ensures t.Some? ==> HasEdge(edges, t.value)
  {
    Scan(edges, r, 0, 0)
  }

  /**
   * Started at edge i with the true running sum, and with no earlier edge
   * chosen, the scan returns the target of edge k exactly when k is the first
   * edge from i on whose running sum exceeds r.
   */
  lemma {:induction false} ScanFirst(edges: seq<Edge>, r: nat, i: nat, k: nat)
    requires DistinctTargets(edges)
    requires i <= k < |edges| && PrefixWeight(edges, i) <= r
    ensures Scan(edges, r, i, PrefixWeight(edges, i)) == Some(edges[k].target) <==>
              && PrefixWeight(edges, k) <= r < PrefixWeight(edges, k + 1)
              && forall j :: i < j <= k ==> PrefixWeight(edges, j) <= r
    decreases |edges| - i
  {
    WeightStep(edges, i);
    if PrefixWeight(edges, i + 1) <= r && i < k {
      ScanFirst(edges, r, i + 1, k);
    }
  }

  /** The scan runs off the end of the list exactly when no running sum from i on exceeds r. */
  lemma {:induction false} ScanNone(edges: seq<Edge>, r: nat, i: nat)
    requires i <= |edges|
    ensures Scan(edges, r, i, PrefixWeight(edges, i)).None? <==>
              forall j :: i < j <= |edges| ==> PrefixWeight(edges, j) <= r
    decreases |edges| - i
  {
    if i < |edges| {
      WeightStep(edges, i);
      ScanNone(edges, r, i + 1);
    }
  }

  /**
   * On a list without repeated targets, the draw r selects the target of edge
   * i exactly when r lies in [running sum before i, running sum through i).
   */
  lemma SelectInterval(edges: seq<Edge>, r: nat, i: nat)
    requires DistinctTargets(edges) && i < |edges|
    ensures Select(edges, r) == Some(edges[i].target) <==>
              PrefixWeight(edges, i) <= r < PrefixWeight(edges, i + 1)
  {
    assert edges[..0] == [];
    ScanFirst(edges, r, 0, i);
    if PrefixWeight(edges, i) <= r {
      forall j | 0 < j <= i ensures PrefixWeight(edges, j) <= r {
        WeightMonotone(edges, j, i);
      }
    }
  }

  /** The scan finds an edge exactly for the draws below the total weight. */
  lemma SelectFound(edges: seq<Edge>, r: nat)
    ensures Select(edges, r).Some? <==> r < Weight(edges)
  {
    assert edges[..0] == [];
    assert edges[..|edges|] == edges;
    ScanNone(edges, r, 0);
    if r < Weight(edges) {
      assert PrefixWeight(edges, |edges|) > r;
    } else {
      forall j | 0 < j <= |edges| ensures PrefixWeight(edges, j) <= r {
        WeightMonotone(edges, j, |edges|);
      }
    }
  }

  /** The integers lo, lo + 1, ..., hi - 1. */
  function Range(lo: nat, hi: nat): (s: set<nat>)
    ensures forall r :: r in s <==> lo <= r < hi
    ensures lo <= hi ==> |s| == hi - lo
    decreases hi
  {
    if hi <= lo then {} else Range(lo, hi - 1) + {hi - 1}
  }

  /**
   * Among the draws r in [0, total weight), exactly `frequency` of them select
   * the target of a given edge: each successor is chosen in proportion to the
   * number of times it was observed.
   */
  lemma SelectionCount(edges: seq<Edge>, i: nat)
    requires DistinctTargets(edges) && i < |edges|
    ensures |set r: nat | r < Weight(edges) && Select(edges, r) == Some(edges[i].target)| == edges[i].frequency
  {
    var lo, hi := PrefixWeight(edges, i), PrefixWeight(edges, i + 1);
    WeightStep(edges, i);
    WeightMonotone(edges, i + 1, |edges|);
    assert edges[..|edges|] == edges;
    var chosen := set r: nat | r < Weight(edges) && Select(edges, r) == Some(edges[i].target);
    var window := Range(lo, hi);
    forall r: nat | r < Weight(edges)
      ensures r in chosen <==> r in window
    {
      SelectInterval(edges, r, i);
    }
    assert chosen == window;
  }

  /**
   * get_next_random_node: None for a node whose frequency_count is 0,
   * otherwise the node selected by the draw rand() % total weight.
   */
  function NextState<T>(node: Node<T>, raw: nat): (r: Option<nat>)
    ensures r.Some? ==> HasEdge(node.edges, r.value)
    ensures node.frequencyCount == 0 ==> r.None?
  {
    if node.frequencyCount == 0 then None
    else Select(node.edges, RandomNumber(raw, Weight(node.edges)))
  }

  /** For a node whose count matches its list, the step fails exactly when the node has no outgoing edge. */
  lemma NextStateNoneIffNoEdges<T>(node: Node<T>, raw: nat)
    requires Observed(node)
    ensures NextState(node, raw).None? <==> node.edges == []
  {
    WeightAtLeastLength(node.edges);
    SelectFound(node.edges, RandomNumber(raw, Weight(node.edges)));
  }

  // --------------------------------------------------------- start selection

  /**
   * get_first_random_node: pick the node at rand() % size and redraw while it
   * holds a terminal state. `draws` are the successive rand() values; when
   * they run out before a non-terminal node is hit, there is no result.
   */
  function FirstState<T>(db: seq<Node<T>>, isLast: T -> bool, draws: seq<nat>): (r: Option<nat>)
    ensures r.Some? ==> r.value < |db| && !isLast(db[r.value].data)
    ensures r.Some? ==>
              exists k :: 0 <= k < |draws| && r.value == RandomNumber(draws[k], |db|) &&
                forall j :: 0 <= j < k ==> isLast(db[RandomNumber(draws[j], |db|)].data)
    ensures r.None? <==>
              |db| == 0 || forall k :: 0 <= k < |draws| ==> isLast(db[RandomNumber(draws[k], |db|)].data)
    decreases |draws|
  {
    if |db| == 0 || |draws| == 0 then None
    else if !isLast(db[RandomNumber(draws[0], |db|)].data) then Some(RandomNumber(draws[0], |db|))
    else
      var rest := FirstState(db, isLast, draws[1..]);
      assert forall k :: 1 <= k < |draws| ==> draws[1..][k - 1] == draws[k];
      rest
  }

  // ------------------------------------------------------------------- walks

  /**
   * The loop of generate_random_sequence after `printed` states were emitted,
   * the last one being `cur`: the states it emits next. Step number
   * printed - 1 uses the raw value rand(printed - 1).
   */
  function Continue<T>(db: seq<Node<T>>, isLast: T -> bool, cur: nat, printed: nat,
                       maxLength: int, rand: nat -> nat): (c: seq<nat>)
    requires Closed(db) && cur < |db| && printed >= 1
    ensures forall i :: 0 <= i < |c| ==> c[i] < |db|
    decreases maxLength - printed
  {
    if printed >= maxLength then []
    else
      match NextState(db[cur], rand(printed - 1))
      case None => []
      case Some(n) =>
        if isLast(db[n].data) || printed + 1 == maxLength then [n]
        else [n] + Continue(db, isLast, n, printed + 1, maxLength, rand)
  }

  /**
   * generate_random_sequence: the registry indexes of the states it prints.
   * Nothing for a NULL first node or a maximum length below 2.
   */
  function Walk<T>(db: seq<Node<T>>, isLast: T -> bool, first: Option<nat>,
                   maxLength: int, rand: nat -> nat): (w: seq<nat>)
    requires Closed(db) && (first.Some? ==> first.value < |db|)
    ensures forall i :: 0 <= i < |w| ==> w[i] < |db|
  {
    if first.None? || maxLength < 2 then []
    else [first.value] + Continue(db, isLast, first.value, 1, maxLength, rand)
  }

  /** One iteration of the generation loop, for a step that found a successor n. */
  lemma ContinueUnfold<T>(db: seq<Node<T>>, isLast: T -> bool, cur: nat, printed: nat,
                          maxLength: int, rand: nat -> nat, n: nat)
    requires Closed(db) && cur < |db| && 1 <= printed < maxLength
    requires NextState(db[cur], rand(printed - 1)) == Some(n)
    ensures n < |db| && HasEdge(db[cur].edges, n)
    ensures Continue(db, isLast, cur, printed, maxLength, rand) ==
              if isLast(db[n].data) || printed + 1 == maxLength then [n]
              else [n] + Continue(db, isLast, n, printed + 1, maxLength, rand)
  {
  }

  lemma {:induction false} ContinueLength<T>(db: seq<Node<T>>, isLast: T -> bool, cur: nat, printed: nat,
                                             maxLength: int, rand: nat -> nat)
    requires Closed(db) && cur < |db| && 1 <= printed <= maxLength
    ensures printed + |Continue(db, isLast, cur, printed, maxLength, rand)| <= maxLength
    decreases maxLength - printed
  {
    if printed < maxLength && NextState(db[cur], rand(printed - 1)).Some? {
      var n := NextState(db[cur], rand(printed - 1)).value;
      ContinueUnfold(db, isLast, cur, printed, maxLength, rand, n);
      if !(isLast(db[n].data) || printed + 1 == maxLength) {
        ContinueLength(db, isLast, n, printed + 1, maxLength, rand);
      }
    }
  }

  /**
   * A walk is empty exactly for a NULL first node or a maximum length below 2;
   * otherwise it starts at the first node and has between 1 and maxLength states.
   */
  lemma WalkLength<T>(db: seq<Node<T>>, isLast: T -> bool, first: Option<nat>,
                      maxLength: int, rand: nat -> nat)
    requires Closed(db) && (first.Some? ==> first.value < |db|)
    ensures Walk(db, isLast, first, maxLength, rand) == [] <==> first.None? || maxLength < 2
    ensures Walk(db, isLast, first, maxLength, rand) != [] ==>
              && Walk(db, isLast, first, maxLength, rand)[0] == first.value
              && 1 <= |Walk(db, isLast, first, maxLength, rand)| <= maxLength
  {
    if first.Some? && maxLength >= 2 {
      ContinueLength(db, isLast, first.value, 1, maxLength, rand);
    }
  }

  /** Each state of `c` is reached from the one before it (from `cur` for the first) along an edge. */
  ghost predicate FollowsEdges<T>(db: seq<Node<T>>, cur: nat, c: seq<nat>)
    requires cur < |db| && forall i :: 0 <= i < |c| ==> c[i] < |db|
  {
    && (c != [] ==> HasEdge(db[cur].edges, c[0]))
    && forall i :: 0 < i < |c| ==> HasEdge(db[c[i - 1]].edges, c[i])
  }

  lemma FollowsEdgesCons<T>(db: seq<Node<T>>, cur: nat, n: nat, rest: seq<nat>)
    requires cur < |db| && n < |db| && forall i :: 0 <= i < |rest| ==> rest[i] < |db|
    requires HasEdge(db[cur].edges, n) && FollowsEdges(db, n, rest)
    ensures FollowsEdges(db, cur, [n] + rest)
  {
    var c := [n] + rest;
    forall i | 0 < i < |c| ensures HasEdge(db[c[i - 1]].edges, c[i]) {
      assert c[i] == rest[i - 1];
      if i > 1 {
        assert c[i - 1] == rest[i - 2];
      }
    }
  }

  lemma {:induction false} ContinueFollowsEdges<T>(db: seq<Node<T>>, isLast: T -> bool, cur: nat, printed: nat,
                                                   maxLength: int, rand: nat -> nat)
    requires Closed(db) && cur < |db| && printed >= 1
    ensures FollowsEdges(db, cur, Continue(db, isLast, cur, printed, maxLength, rand))
    decreases maxLength - printed
  {
    if printed < maxLength && NextState(db[cur], rand(printed - 1)).Some? {
      var n := NextState(db[cur], rand(printed - 1)).value;
      ContinueUnfold(db, isLast, cur, printed, maxLength, rand, n);
      if !(isLast(db[n].data) || printed + 1 == maxLength) {
        ContinueFollowsEdges(db, isLast, n, printed + 1, maxLength, rand);
        FollowsEdgesCons(db, cur, n, Continue(db, isLast, n, printed + 1, maxLength, rand));
      }
    }
  }

  /** Every consecutive pair of a walk is an edge of the chain. */
  lemma WalkFollowsEdges<T>(db: seq<Node<T>>, isLast: T -> bool, first: Option<nat>,
                            maxLength: int, rand: nat -> nat)
    requires Closed(db) && (first.Some? ==> first.value < |db|)
    ensures var w := Walk(db, isLast, first, maxLength, rand);
            forall i :: 0 < i < |w| ==> HasEdge(db[w[i - 1]].edges, w[i])
  {
    if first.Some? && maxLength >= 2 {
      var c := Continue(db, isLast, first.value, 1, maxLength, rand);
      ContinueFollowsEdges(db, isLast, first.value, 1, maxLength, rand);
      var w := [first.value] + c;
      forall i | 0 < i < |w| ensures HasEdge(db[w[i - 1]].edges, w[i]) {
        assert w[i] == c[i - 1];
        if i > 1 {
          assert w[i - 1] == c[i - 2];
        }
      }
    }
  }

  lemma {:induction false} ContinueInterior<T>(db: seq<Node<T>>, isLast: T -> bool, cur: nat, printed: nat,
                                               maxLength: int, rand: nat -> nat)
    requires Closed(db) && cur < |db| && printed >= 1
    ensures var c := Continue(db, isLast, cur, printed, maxLength, rand);
            forall i :: 0 <= i < |c| - 1 ==> !isLast(db[c[i]].data)
    decreases maxLength - printed
  {
    var c := Continue(db, isLast, cur, printed, maxLength, rand);
    if printed < maxLength && NextState(db[cur], rand(printed - 1)).Some? {
      var n := NextState(db[cur], rand(printed - 1)).value;
      ContinueUnfold(db, isLast, cur, printed, maxLength, rand, n);
      if !(isLast(db[n].data) || printed + 1 == maxLength) {
        ContinueInterior(db, isLast, n, printed + 1, maxLength, rand);
        var rest := Continue(db, isLast, n, printed + 1, maxLength, rand);
        forall i | 0 < i < |c| - 1 ensures !isLast(db[c[i]].data) {
          assert c[i] == rest[i - 1];
        }
      }
    }
  }

  /** The loop emits nothing more only when the length is reached or the current node has no edge. */
  lemma ContinueEmpty<T>(db: seq<Node<T>>, isLast: T -> bool, cur: nat, printed: nat,
                         maxLength: int, rand: nat -> nat)
    requires Closed(db) && cur < |db| && printed >= 1 && Observed(db[cur])
    ensures Continue(db, isLast, cur, printed, maxLength, rand) == [] ==>
              printed >= maxLength || db[cur].edges == []
  {
    if printed < maxLength {
      NextStateNoneIffNoEdges(db[cur], rand(printed - 1));
    }
  }

  /**
   * When the loop emits something, its last state is where the walk ends: the
   * length is reached, that state has no edge, or it is terminal.
   */
  lemma {:induction false} ContinueLast<T>(db: seq<Node<T>>, isLast: T -> bool, cur: nat, printed: nat,
                                           maxLength: int, rand: nat -> nat)
    requires Closed(db) && (forall i :: 0 <= i < |db| ==> Observed(db[i]))
    requires cur < |db| && printed >= 1
    ensures var c := Continue(db, isLast, cur, printed, maxLength, rand);
            c != [] ==> printed + |c| >= maxLength || db[c[|c| - 1]].edges == [] || isLast(db[c[|c| - 1]].data)
    decreases maxLength - printed
  {
    if printed < maxLength && NextState(db[cur], rand(printed - 1)).Some? {
      var n := NextState(db[cur], rand(printed - 1)).value;
      ContinueUnfold(db, isLast, cur, printed, maxLength, rand, n);
      if !(isLast(db[n].data) || printed + 1 == maxLength) {
        var rest := Continue(db, isLast, n, printed + 1, maxLength, rand);
        if rest == [] {
          ContinueEmpty(db, isLast, n, printed + 1, maxLength, rand);
        } else {
          ContinueLast(db, isLast, n, printed + 1, maxLength, rand);
          var c := Continue(db, isLast, cur, printed, maxLength, rand);
          assert c[|c| - 1] == rest[|rest| - 1];
        }
      }
    }
  }

  /**
   * No state after the first, except possibly the last, is terminal; and a
   * walk ends only at maxLength states, at a node without edges, or right
   * after emitting a terminal state.
   */
  lemma WalkStops<T>(db: seq<Node<T>>, isLast: T -> bool, first: Option<nat>,
                     maxLength: int, rand: nat -> nat)
    requires Closed(db) && (forall i :: 0 <= i < |db| ==> Observed(db[i]))
    requires first.Some? ==> first.value < |db|
    ensures var w := Walk(db, isLast, first, maxLength, rand);
            && (forall i :: 0 < i < |w| - 1 ==> !isLast(db[w[i]].data))
            && (w != [] ==>
                  |w| == maxLength || db[w[|w| - 1]].edges == [] || (|w| > 1 && isLast(db[w[|w| - 1]].data)))
  {
    if first.Some? && maxLength >= 2 {
      var c := Continue(db, isLast, first.value, 1, maxLength, rand);
      ContinueInterior(db, isLast, first.value, 1, maxLength, rand);
      ContinueEmpty(db, isLast, first.value, 1, maxLength, rand);
      ContinueLast(db, isLast, first.value, 1, maxLength, rand);
      ContinueLength(db, isLast, first.value, 1, maxLength, rand);
      var w := [first.value] + c;
      assert w[|w| - 1] == if c == [] then first.value else c[|c| - 1];
      forall i | 0 < i < |w| - 1 ensures !isLast(db[w[i]].data) {
        assert w[i] == c[i - 1];
      }
    }
  }
}
