/**
 * The MarkovChain object of the engine: its registry (the `database` linked
 * list, here a sequence of nodes addressed by position) and the operations
 * that walk and update it step by step. Each method is proved equal to the
 * function of MarkovSpec or MarkovWalk that states what it computes.
 */
module MarkovChain {
  import opened MarkovTypes
  import opened MarkovSpec
  import opened MarkovWalk

  class Chain<T(==)> {
    /** The registry: node i is the i-th element of the database list. */
    var database: seq<Node<T>>
    /** The is_last capability: whether a state ends a sequence. */
    const isLast: T -> bool

    /**
     * The registry invariant every operation keeps. The methods do not
     * require it: each is total on any registry and its postcondition states
     * the whole new database, so callers get Valid() back whenever they
     * started from it.
     */
    ghost predicate Valid()
      reads this
    {
      WellFormed(database)
    }

    /** A chain with an empty database. */
    constructor(isLast: T -> bool)
      ensures database == [] && this.isLast == isLast
      ensures Valid()
    {
      database := [];
      this.isLast := isLast;
    }

    /** get_node_from_database: the linear scan from the head of the database. */
    method GetNodeFromDatabase(v: T) returns (r: Option<nat>)
      ensures r == Lookup(database, v)
    {
      var i := 0;
      while i < |database|
        invariant i <= |database|
        invariant forall j :: 0 <= j < i ==> database[j].data != v
      {
        if database[i].data == v {
          return Some(i);
        }
        i := i + 1;
      }
      return None;
    }

    /**
     * add_to_database: the existing node of `v`, or a new node appended at the
     * end of the database. `allocOk` says whether allocating the node, copying
     * the state and appending to the list all succeed.
     */
    method AddToDatabase(v: T, allocOk: bool) returns (r: Option<nat>)
      modifies this
      ensures Registered(r, database) == Register(old(database), v, allocOk)
      ensures old(Valid()) ==> Valid()
    {
      RegisterWellFormed(database, v, allocOk);
      var found := GetNodeFromDatabase(v);
      if found.Some? {
        return found;
      }
      var node := CreateNode(v, allocOk);
      if node.None? {
        return None;
      }
      database := database + [node.value];
      return Some(|database| - 1);
    }

    /**
     * add_node_to_frequency_list: scan the transition list of node `from` for
     * `to`; increment that edge, or append a new edge of frequency 1. None
     * stands for a NULL node pointer.
     */
    method AddNodeToFrequencyList(from: Option<nat>, to: Option<nat>, allocOk: bool) returns (status: Status)
      requires from.Some? ==> from.value < |database|
      modifies this
      ensures from.None? || to.None? ==> status == ExitFailure && database == old(database)
      ensures from.Some? && to.Some? ==>
                match AddTransition(old(database), from.value, to.value, allocOk)
                case None => status == ExitFailure && database == old(database)
                case Some(db) => status == ExitSuccess && database == db
      ensures old(Valid()) && (to.Some? ==> to.value < |database|) ==> Valid()
    {
      if from.None? || to.None? {
        return ExitFailure;
      }
      var node := database[from.value];
      var target := to.value;
      var i := 0;
      while i < |node.edges|
        invariant i <= |node.edges|
        invariant forall j :: 0 <= j < i ==> node.edges[j].target != target
      {
        if node.edges[i].target == target {
          assert EdgeIndex(node.edges, target) == Some(i);
          var updated := node.(edges := node.edges[i := Edge(target, node.edges[i].frequency + 1)]);
          database := database[from.value := updated];
          AddTransitionKeepsValid(old(database), from.value, target, allocOk);
          return ExitSuccess;
        }
        i := i + 1;
      }
      if !allocOk {
        return ExitFailure;
      }
      var appended := node.(edges := node.edges + [Edge(target, 1)], frequencyCount := node.frequencyCount + 1);
      database := database[from.value := appended];
      AddTransitionKeepsValid(old(database), from.value, target, allocOk);
      return ExitSuccess;
    }

    /**
     * get_next_random_node: sum the frequencies, reduce the raw value `raw` to
     * a draw below the sum, then return the target of the first edge whose
     * running sum exceeds the draw. None stands for a NULL node pointer.
     */
    method GetNextRandomNode(cur: Option<nat>, raw: nat) returns (r: Option<nat>)
      requires cur.Some? ==> cur.value < |database|
      ensures r == if cur.None? then None else NextState(database[cur.value], raw)
    {
      if cur.None? || database[cur.value].frequencyCount == 0 {
        return None;
      }
      var edges := database[cur.value].edges;
      var total := 0;
      var i := 0;
      while i < |edges|
        invariant i <= |edges| && total == PrefixWeight(edges, i)
      {
        WeightStep(edges, i);
        total := total + edges[i].frequency;
        i := i + 1;
      }
      assert edges[..|edges|] == edges;
      var drawn := RandomNumber(raw, total);
      var cumulative := 0;
      i := 0;
      while i < |edges|
        invariant i <= |edges| && cumulative == PrefixWeight(edges, i)
        invariant Select(edges, drawn) == Scan(edges, drawn, i, cumulative)
      {
        WeightStep(edges, i);
        cumulative := cumulative + edges[i].frequency;
        if drawn < cumulative {
          return Some(edges[i].target);
        }
        i := i + 1;
      }
      return None;
    }

    /**
     * get_first_random_node: draw an index with rand() % size and redraw while
     * its state is terminal. `draws` are the raw rand() values in order.
     */
    method GetFirstRandomNode(draws: seq<nat>) returns (r: Option<nat>)
      ensures r == FirstState(database, isLast, draws)
    {
      if |database| == 0 || |draws| == 0 {
        return None;
      }
      var k := 0;
      var index := RandomNumber(draws[0], |database|);
      while isLast(database[index].data)
        invariant k < |draws| && index == RandomNumber(draws[k], |database|)
        invariant FirstState(database, isLast, draws) == FirstState(database, isLast, draws[k..])
        decreases |draws| - k
      {
        FirstStateSkip(database, isLast, draws, k);
        if k + 1 == |draws| {
          assert FirstState(database, isLast, draws[k + 1..]) == None;
          return None;
        }
        k := k + 1;
        index := RandomNumber(draws[k], |database|);
      }
      return Some(index);
    }

    /**
     * generate_random_sequence: the registry indexes of the states it prints,
     * in order. Step i of the loop draws the raw value rand(i).
     */
    method GenerateRandomSequence(first: Option<nat>, maxLength: int, rand: nat -> nat) returns (printed: seq<nat>)
      requires Closed(database) && (first.Some? ==> first.value < |database|)
      ensures printed == Walk(database, isLast, first, maxLength, rand)
    {
      if first.None? || maxLength < 2 {
        return [];
      }
      var current: nat := first.value;
      printed := [current];
      var wordsPrinted := 1;
      while wordsPrinted < maxLength
        invariant 1 <= wordsPrinted <= maxLength && current < |database|
        invariant Walk(database, isLast, first, maxLength, rand) ==
                  printed + Continue(database, isLast, current, wordsPrinted, maxLength, rand)
        decreases maxLength - wordsPrinted
      {
        var next := GetNextRandomNode(Some(current), rand(wordsPrinted - 1));
        if next.None? {
          return;
        }
        var n := next.value;
        ContinueUnfold(database, isLast, current, wordsPrinted, maxLength, rand, n);
        if isLast(database[n].data) || wordsPrinted + 1 == maxLength {
          return printed + [n];
        }
        ghost var rest := Continue(database, isLast, n, wordsPrinted + 1, maxLength, rand);
        assert printed + ([n] + rest) == (printed + [n]) + rest;
        current, printed, wordsPrinted := n, printed + [n], wordsPrinted + 1;
      }
    }
  }

  /** Drawing a terminal state moves the rejection loop on to the next raw value. */
  lemma FirstStateSkip<T>(db: seq<Node<T>>, isLast: T -> bool, draws: seq<nat>, k: nat)
    requires k < |draws| && |db| > 0 && isLast(db[RandomNumber(draws[k], |db|)].data)
    ensures FirstState(db, isLast, draws[k..]) == FirstState(db, isLast, draws[k + 1..])
  {
    assert draws[k..][1..] == draws[k + 1..];
  }

  /** add_node_to_frequency_list keeps the registry invariant when both ends are registry nodes. */
  lemma AddTransitionKeepsValid<T>(db: seq<Node<T>>, from: nat, to: nat, allocOk: bool)
    requires from < |db|
    ensures AddTransition(db, from, to, allocOk).Some? && WellFormed(db) && to < |db| ==>
              WellFormed(AddTransition(db, from, to, allocOk).value)
  {
    if AddTransition(db, from, to, allocOk).Some? && WellFormed(db) && to < |db| {
      AddTransitionWellFormed(db, from, to, allocOk);
    }
  }

  /** The handle the consumers hold: free_markov_chain takes its address. */
  class Handle<T(==)> {
    var chain: Chain?<T>

    constructor(chain: Chain?<T>)
      ensures this.chain == chain
    {
      this.chain := chain;
    }

    /**
     * free_markov_chain: a NULL handle is left alone; a chain without a
     * free_data capability is left as it is; otherwise the chain is released
     * and the handle set to NULL.
     */
    method FreeMarkovChain(hasFreeData: bool)
      modifies this
      ensures old(chain) == null ==> chain == null
      ensures old(chain) != null ==> chain == if hasFreeData then null else old(chain)
    {
      if chain == null || !hasFreeData {
        return;
      }
      chain := null;
    }

    /** Freeing twice is safe: the second call finds a NULL handle and does nothing. */
    method FreeTwice()
      modifies this
      ensures chain == null
    {
      FreeMarkovChain(true);
      assert chain == null;
      FreeMarkovChain(true);
    }
  }
}
