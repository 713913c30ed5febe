/**
 * The tweets consumer of the engine: states are words, a word ending in a
 * period ends a sentence, and training reads a token stream into a chain.
 * The lines and strtok calls of the program are flattened into one sequence
 * of tokens (the previous node survives line ends, so the split into lines
 * does not change what is learnt).
 */
module TweetsGenerator {
  import opened MarkovTypes
  import opened MarkovSpec
  import opened MarkovWalk
  import opened MarkovChain

  /** A C string holds no NUL character: its end is marked by the terminator. */
  predicate NulFree(s: string)
  {
    forall i :: 0 <= i < |s| ==> s[i] != '\0'
  }

  /** A token as strtok hands it over: a non-empty C string. */
  type Word = s: string | |s| > 0 && NulFree(s) witness "."

  /** strdup (and copy_string, which calls it): an equal copy, or None when malloc fails. */
  function Strdup(s: string, allocOk: bool): (r: Option<string>)
    ensures r.Some? <==> allocOk
    ensures r.Some? ==> r.value == s && |r.value| == |s|
  {
    if allocOk then Some(s) else None
  }

  /** The character strcmp reads at the head of s: the terminator (0) when s is exhausted. */
  function HeadCode(s: string): int
  {
    if |s| == 0 then 0 else s[0] as int
  }

  /**
   * compare_strings (strcmp): walk both strings while their characters agree
   * and return the difference of the first pair that differs.
   */
  function CompareStrings(a: string, b: string): (r: int)
    requires NulFree(a) && NulFree(b)
    ensures r == 0 <==> a == b
    decreases |a|
  {
    if |a| == 0 || |b| == 0 || a[0] != b[0] then HeadCode(a) - HeadCode(b)
    else
      assert a == [a[0]] + a[1..] && b == [b[0]] + b[1..];
      CompareStrings(a[1..], b[1..])
  }

  /** Swapping the arguments of compare_strings negates the result. */
  lemma {:induction false} CompareStringsAntisymmetric(a: string, b: string)
    requires NulFree(a) && NulFree(b)
    ensures CompareStrings(b, a) == -CompareStrings(a, b)
    decreases |a|
  {
    if |a| > 0 && |b| > 0 && a[0] == b[0] {
      CompareStringsAntisymmetric(a[1..], b[1..]);
    }
  }

  /**
   * is_last_string: a word ends a sentence when its last character is a
   * period, that is, when it is some string followed by ".".
   */
  function IsLastString(w: Word): (r: bool)
    ensures r <==> w == w[..|w| - 1] + "."
  {
    var last := w[|w| - 1];
    assert w == w[..|w| - 1] + [last];
    last == '.'
  }

  // ------------------------------------------------------------- training

  /**
   * Which allocations succeed while one token is processed: the strdup of the
   * token, the node of add_to_database, and the edge of
   * add_node_to_frequency_list.
   */
  datatype Allocs = Allocs(word: bool, node: bool, edge: bool)

  /** The state training leaves: the status, the registry, and prev_node. */
  datatype Trained = Trained(status: Status, db: seq<Node<Word>>, prev: Option<nat>)

  /**
   * One token of read_and_process_file: copy it, register it, record the
   * edge from prev_node, and make it the new prev_node unless it ends a
   * sentence. A failed allocation stops with EXIT_FAILURE and the registry
   * as it stands.
   */
  function Step(db: seq<Node<Word>>, prev: Option<nat>, w: Word, a: Allocs): (t: Trained)
    requires prev.Some? ==> prev.value < |db|
    ensures t.prev.Some? ==> t.prev.value < |t.db|
    ensures t.status == ExitSuccess ==> a.word && |t.db| >= |db|
  {
    if !a.word then Trained(ExitFailure, db, prev)
    else
      var reg := Register(db, w, a.node);
      match reg.node
      case None => Trained(ExitFailure, reg.db, prev)
      case Some(cur) =>
        var next := if IsLastString(w) then None else Some(cur);
        if prev.None? then Trained(ExitSuccess, reg.db, next)
        else
          match AddTransition(reg.db, prev.value, cur, a.edge)
          case None => Trained(ExitFailure, reg.db, prev)
          case Some(db2) => Trained(ExitSuccess, db2, next)
  }

  /**
   * A step fails exactly when the strdup fails, when add_to_database must
   * create a node and cannot, or when add_node_to_frequency_list must append
   * an edge from prev_node and cannot; a failed step keeps prev_node.
   */
  lemma StepFails(db: seq<Node<Word>>, prev: Option<nat>, w: Word, a: Allocs)
    requires prev.Some? ==> prev.value < |db|
    ensures Step(db, prev, w, a).status == ExitFailure <==>
              || !a.word
              || (Lookup(db, w).None? && !a.node)
              || (&& prev.Some?
                  && Register(db, w, a.node).node.Some?
                  && EdgeIndex(db[prev.value].edges, Register(db, w, a.node).node.value).None?
                  && !a.edge)
    ensures Step(db, prev, w, a).status == ExitFailure ==> Step(db, prev, w, a).prev == prev
  {
    var reg := Register(db, w, a.node);
    if a.word && reg.node.Some? && prev.Some? {
      RegisterKeepsPrefix(db, w, a.node);
      assert reg.db[prev.value] == db[prev.value];
    }
  }

  /** Training on tokens[pos..], token k using the allocation outcomes alloc(k). */
  function Train(db: seq<Node<Word>>, prev: Option<nat>, tokens: seq<Word>, alloc: nat -> Allocs, pos: nat): (t: Trained)
    requires pos <= |tokens| && (prev.Some? ==> prev.value < |db|)
    ensures t.prev.Some? ==> t.prev.value < |t.db|
    decreases |tokens| - pos
  {
    if pos == |tokens| then Trained(ExitSuccess, db, prev)
    else
      var s := Step(db, prev, tokens[pos], alloc(pos));
      if s.status == ExitFailure then s else Train(s.db, s.prev, tokens, alloc, pos + 1)
  }

  /**
   * How many tokens the reading loops process: all of them for words_to_read
   * = -1, otherwise words_to_read of them, or all when fewer are available
   * (none for any other negative value).
   */
  function WordsToProcess(available: nat, wordsToRead: int): (n: nat)
    ensures n <= available
    ensures wordsToRead == -1 || wordsToRead >= available ==> n == available
    ensures 0 <= wordsToRead <= available ==> n == wordsToRead
    ensures wordsToRead < -1 ==> n == 0
  {
    if wordsToRead == -1 then available
    else if wordsToRead <= 0 then 0
    else if wordsToRead < available then wordsToRead
    else available
  }

  /**
   * read_and_process_file over the token stream: registers each token and
   * draws an edge from the previous one, stopping at the first failure or
   * once words_to_read tokens were read.
   */
  method ReadAndProcessFile(chain: Chain<Word>, tokens: seq<Word>, wordsToRead: int, alloc: nat -> Allocs)
    returns (status: Status)
    requires chain.isLast == IsLastString
    modifies chain
    ensures var t := Train(old(chain.database), None, tokens[..WordsToProcess(|tokens|, wordsToRead)], alloc, 0);
            status == t.status && chain.database == t.db
  {
    ghost var budget := tokens[..WordsToProcess(|tokens|, wordsToRead)];
    var prev: Option<nat> := None;
    var wordsRead := 0;
    while wordsRead < |tokens| && (wordsToRead == -1 || wordsRead < wordsToRead)
      invariant wordsRead <= |budget|
      invariant prev.Some? ==> prev.value < |chain.database|
      invariant Train(old(chain.database), None, budget, alloc, 0) == Train(chain.database, prev, budget, alloc, wordsRead)
      decreases |tokens| - wordsRead
    {
      assert wordsRead < |budget| && budget[wordsRead] == tokens[wordsRead];
      var next;
      status, next := ProcessToken(chain, prev, tokens[wordsRead], alloc(wordsRead));
      if status == ExitFailure {
        return;
      }
      prev := next;
      wordsRead := wordsRead + 1;
    }
    return ExitSuccess;
  }

  /**
   * One iteration of the reading loop: copy the token, register it, record
   * the edge from prev_node, and compute the next prev_node; on failure
   * prev_node is returned as it was.
   */
  method ProcessToken(chain: Chain<Word>, prev: Option<nat>, token: Word, a: Allocs)
    returns (status: Status, next: Option<nat>)
    requires chain.isLast == IsLastString && (prev.Some? ==> prev.value < |chain.database|)
    modifies chain
    ensures Trained(status, chain.database, next) == Step(old(chain.database), prev, token, a)
  {
    var word := Strdup(token, a.word);
    if word.None? {
      return ExitFailure, prev;
    }
    var w: Word := word.value;
    var current := chain.AddToDatabase(w, a.node);
    if current.None? {
      return ExitFailure, prev;
    }
    if prev.Some? {
      var res := chain.AddNodeToFrequencyList(prev, current, a.edge);
      if res == ExitFailure {
        return ExitFailure, prev;
      }
    }
    next := if chain.isLast(chain.database[current.value].data) then None else Some(current.value);
    return ExitSuccess, next;
  }

  /**
   * Training stops at the first token whose step fails: the run returns that
   * step's EXIT_FAILURE, registry and prev_node, and reads no further token.
   */
  lemma TrainStopsAtFailure(db: seq<Node<Word>>, prev: Option<nat>, tokens: seq<Word>,
                            alloc: nat -> Allocs, pos: nat)
    requires pos < |tokens| && (prev.Some? ==> prev.value < |db|)
    requires Step(db, prev, tokens[pos], alloc(pos)).status == ExitFailure
    ensures Train(db, prev, tokens, alloc, pos) == Step(db, prev, tokens[pos], alloc(pos))
    ensures Train(db, prev, tokens, alloc, pos).status == ExitFailure
  {
  }

  /** A training run in which every allocation succeeds never fails. */
  lemma {:induction false} TrainSucceeds(db: seq<Node<Word>>, prev: Option<nat>, tokens: seq<Word>,
                                         alloc: nat -> Allocs, pos: nat)
    requires pos <= |tokens| && (prev.Some? ==> prev.value < |db|)
    requires forall k :: pos <= k < |tokens| ==> alloc(k) == Allocs(true, true, true)
    ensures Train(db, prev, tokens, alloc, pos).status == ExitSuccess
    decreases |tokens| - pos
  {
    if pos < |tokens| {
      var s := Step(db, prev, tokens[pos], alloc(pos));
      TrainSucceeds(s.db, s.prev, tokens, alloc, pos + 1);
    }
  }

  // ------------------------------------------- what a training run learns

  /** The distinct tokens of ts, in order of first occurrence. */
  function Dedup(ts: seq<Word>): (d: seq<Word>)
    ensures forall x :: x in d <==> x in ts
  {
    if |ts| == 0 then []
    else
      var d := Dedup(ts[..|ts| - 1]);
      var w := ts[|ts| - 1];
      assert forall x :: x in ts <==> x in ts[..|ts| - 1] || x == w by {
        assert ts == ts[..|ts| - 1] + [w];
      }
      if w in d then d else d + [w]
  }

  /** How many times y directly follows x in ts, x not ending a sentence. */
  function PairCount(ts: seq<Word>, x: Word, y: Word): nat
  {
    if |ts| < 2 then 0
    else PairCount(ts[..|ts| - 1], x, y) + (if ts[|ts| - 2] == x && ts[|ts| - 1] == y && !IsLastString(x) then 1 else 0)
  }

  /** The recorded frequency of the transition from the node of x to the node of y, 0 when there is none. */
  function Count(db: seq<Node<Word>>, x: Word, y: Word): nat
  {
    match Lookup(db, x)
    case None => 0
    case Some(i) =>
      match Lookup(db, y)
      case None => 0
      case Some(j) => EdgeWeight(db[i].edges, j)
  }

  /** prev_node after a training run on ts: the node of the last token, unless it ends a sentence. */
  function Pending(db: seq<Node<Word>>, ts: seq<Word>): Option<nat>
  {
    if |ts| > 0 && !IsLastString(ts[|ts| - 1]) then Lookup(db, ts[|ts| - 1]) else None
  }

  /**
   * db and prev are what a successful training run on ts leaves behind,
   * starting from an empty registry.
   */
  ghost predicate Learnt(db: seq<Node<Word>>, prev: Option<nat>, ts: seq<Word>)
  {
    && WellFormed(db)
    && Values(db) == Dedup(ts)
    && (forall x, y :: Count(db, x, y) == PairCount(ts, x, y))
    && prev == Pending(db, ts)
  }

  /** A node holding v before every other node holding v is the one lookup finds. */
  lemma LookupIs<T>(db: seq<Node<T>>, v: T, k: nat)
    requires k < |db| && db[k].data == v
    requires forall j :: 0 <= j < k ==> db[j].data != v
    ensures Lookup(db, v) == Some(k)
  {
  }

  /** A stored value is found. */
  lemma LookupPresent<T>(db: seq<Node<T>>, v: T)
    requires v in Values(db)
    ensures Lookup(db, v).Some?
  {
    var i :| 0 <= i < |Values(db)| && Values(db)[i] == v;
    assert db[i].data == v;
  }

  /** Looking a value up only depends on the stored values. */
  lemma LookupByValues<T>(a: seq<Node<T>>, b: seq<Node<T>>, v: T)
    requires Values(a) == Values(b)
    ensures Lookup(a, v) == Lookup(b, v)
  {
    if Lookup(a, v).Some? {
      var i := Lookup(a, v).value;
      assert b[i].data == a[i].data;
      assert forall j :: 0 <= j < i ==> b[j].data == a[j].data;
      LookupIs(b, v, i);
    } else {
      assert forall j :: 0 <= j < |b| ==> b[j].data == a[j].data;
    }
  }

  /** Appending a node finds the old nodes where they were and the new one at the end. */
  lemma LookupAppend<T>(db: seq<Node<T>>, n: Node<T>, v: T)
    ensures Lookup(db + [n], v) ==
              if Lookup(db, v).Some? then Lookup(db, v) else if n.data == v then Some(|db|) else None
  {
    var e := db + [n];
    if Lookup(db, v).Some? {
      LookupIs(e, v, Lookup(db, v).value);
    } else if n.data == v {
      LookupIs(e, v, |db|);
    }
  }

  /** Registering a token does not change any recorded frequency. */
  lemma RegisterKeepsCounts(db: seq<Node<Word>>, w: Word, allocOk: bool, x: Word, y: Word)
    requires Closed(db)
    ensures Count(Register(db, w, allocOk).db, x, y) == Count(db, x, y)
  {
    var r := Register(db, w, allocOk);
    if r.db != db {
      var n := Node(w, [], 0);
      assert r.db == db + [n];
      LookupAppend(db, n, x);
      LookupAppend(db, n, y);
      match Lookup(db, x)
      case None =>
      case Some(i) =>
        assert r.db[i] == db[i];
        if Lookup(db, y).None? && y == w {
          assert EdgeIndex(db[i].edges, |db|).None?;
        }
    }
  }

  /** After registering w, the lookup of w finds the node returned, and earlier lookups are unchanged. */
  lemma RegisterFinds(db: seq<Node<Word>>, w: Word, allocOk: bool, v: Word)
    requires Register(db, w, allocOk).node.Some?
    ensures Lookup(Register(db, w, allocOk).db, w) == Register(db, w, allocOk).node
    ensures Lookup(db, v).Some? ==> Lookup(Register(db, w, allocOk).db, v) == Lookup(db, v)
  {
    if Lookup(db, w).None? {
      LookupAppend(db, Node(w, [], 0), w);
      LookupAppend(db, Node(w, [], 0), v);
    }
  }

  /** Recording the transition p -> c adds one to the frequency of exactly that pair of values. */
  lemma AddTransitionCounts(db: seq<Node<Word>>, p: nat, c: nat, allocOk: bool, x: Word, y: Word)
    requires p < |db| && c < |db|
    requires Lookup(db, db[p].data) == Some(p) && Lookup(db, db[c].data) == Some(c)
    requires AddTransition(db, p, c, allocOk).Some?
    ensures Count(AddTransition(db, p, c, allocOk).value, x, y) ==
              Count(db, x, y) + if x == db[p].data && y == db[c].data then 1 else 0
  {
    var after := AddTransition(db, p, c, allocOk).value;
    LookupByValues(after, db, x);
    LookupByValues(after, db, y);
    match Lookup(db, x)
    case None =>
    case Some(i) =>
      match Lookup(db, y)
      case None =>
      case Some(j) =>
        if i == p {
          RecordTransitionCounts(db[p], c, allocOk, j);
        }
  }

  lemma {:induction false} DedupSnoc(ts: seq<Word>, w: Word)
    ensures Dedup(ts + [w]) == if w in Dedup(ts) then Dedup(ts) else Dedup(ts) + [w]
  {
    assert (ts + [w])[..|ts|] == ts;
  }

  lemma {:induction false} PairCountSnoc(ts: seq<Word>, w: Word, x: Word, y: Word)
    ensures PairCount(ts + [w], x, y) ==
              PairCount(ts, x, y) + if |ts| > 0 && ts[|ts| - 1] == x && w == y && !IsLastString(x) then 1 else 0
  {
    assert (ts + [w])[..|ts|] == ts;
  }

  /** The registry after one successful step: still well formed, holding the distinct tokens so far. */
  lemma StepRegistry(db: seq<Node<Word>>, prev: Option<nat>, ts: seq<Word>, w: Word, a: Allocs)
    requires WellFormed(db) && Values(db) == Dedup(ts) && (prev.Some? ==> prev.value < |db|)
    requires Step(db, prev, w, a).status == ExitSuccess
    ensures WellFormed(Step(db, prev, w, a).db)
    ensures Values(Step(db, prev, w, a).db) == Dedup(ts + [w])
  {
    var reg := Register(db, w, a.node);
    RegisterWellFormed(db, w, a.node);
    RegisterKeepsPrefix(db, w, a.node);
    DedupSnoc(ts, w);
    if prev.Some? {
      AddTransitionWellFormed(reg.db, prev.value, reg.node.value, a.edge);
    }
  }

  /** prev_node after one successful step: the node of w, unless w ends a sentence. */
  lemma StepPending(db: seq<Node<Word>>, prev: Option<nat>, ts: seq<Word>, w: Word, a: Allocs)
    requires prev.Some? ==> prev.value < |db|
    requires Step(db, prev, w, a).status == ExitSuccess
    ensures Step(db, prev, w, a).prev == Pending(Step(db, prev, w, a).db, ts + [w])
  {
    var s := Step(db, prev, w, a);
    var reg := Register(db, w, a.node);
    RegisterFinds(db, w, a.node, w);
    assert s.prev == if IsLastString(w) then None else reg.node;
    if prev.Some? {
      LookupByValues(s.db, reg.db, w);
    }
    assert Lookup(s.db, w) == reg.node;
    assert (ts + [w])[|ts|] == w;
  }

  /** A first token, or one after the end of a sentence, records no transition. */
  lemma StepCountFresh(db: seq<Node<Word>>, ts: seq<Word>, w: Word, a: Allocs, x: Word, y: Word)
    requires Closed(db) && Pending(db, ts) == None && (|ts| > 0 ==> Lookup(db, ts[|ts| - 1]).Some?)
    requires Count(db, x, y) == PairCount(ts, x, y)
    requires Step(db, None, w, a).status == ExitSuccess
    ensures Count(Step(db, None, w, a).db, x, y) == PairCount(ts + [w], x, y)
  {
    RegisterKeepsCounts(db, w, a.node, x, y);
    PairCountSnoc(ts, w, x, y);
  }

  /** Recording the transition from the last token of ts to w counts the new pair of ts + [w]. */
  lemma LinkCounts(db: seq<Node<Word>>, p: nat, c: nat, ts: seq<Word>, w: Word, edgeOk: bool, x: Word, y: Word)
    requires |ts| > 0 && !IsLastString(ts[|ts| - 1])
    requires Lookup(db, ts[|ts| - 1]) == Some(p) && Lookup(db, w) == Some(c)
    requires Count(db, x, y) == PairCount(ts, x, y)
    requires AddTransition(db, p, c, edgeOk).Some?
    ensures Count(AddTransition(db, p, c, edgeOk).value, x, y) == PairCount(ts + [w], x, y)
  {
    PairCountSnoc(ts, w, x, y);
    AddTransitionCounts(db, p, c, edgeOk, x, y);
  }

  /** A token following a non-terminal one records one transition from that token to it. */
  lemma StepCountLinked(db: seq<Node<Word>>, p: nat, ts: seq<Word>, w: Word, a: Allocs, x: Word, y: Word)
    requires Closed(db) && Pending(db, ts) == Some(p)
    requires Count(db, x, y) == PairCount(ts, x, y)
    requires Step(db, Some(p), w, a).status == ExitSuccess
    ensures Count(Step(db, Some(p), w, a).db, x, y) == PairCount(ts + [w], x, y)
  {
    var reg := Register(db, w, a.node);
    RegisterKeepsCounts(db, w, a.node, x, y);
    RegisterFinds(db, w, a.node, ts[|ts| - 1]);
    LinkCounts(reg.db, p, reg.node.value, ts, w, a.edge, x, y);
  }

  /** One successful step of training extends what was learnt by one token. */
  lemma StepLearns(db: seq<Node<Word>>, prev: Option<nat>, ts: seq<Word>, w: Word, a: Allocs)
    requires Learnt(db, prev, ts)
    requires Step(db, prev, w, a).status == ExitSuccess
    ensures var s := Step(db, prev, w, a); Learnt(s.db, s.prev, ts + [w])
  {
    var s := Step(db, prev, w, a);
    StepRegistry(db, prev, ts, w, a);
    StepPending(db, prev, ts, w, a);
    if |ts| > 0 {
      LookupPresent(db, ts[|ts| - 1]);
    }
    forall x, y ensures Count(s.db, x, y) == PairCount(ts + [w], x, y) {
      if prev.Some? {
        StepCountLinked(db, prev.value, ts, w, a, x, y);
      } else {
        StepCountFresh(db, ts, w, a, x, y);
      }
    }
  }

  /** StepLearns for the token at position pos of the stream. */
  lemma StepLearnsToken(db: seq<Node<Word>>, prev: Option<nat>, tokens: seq<Word>, a: Allocs, pos: nat)
    requires pos < |tokens| && Learnt(db, prev, tokens[..pos])
    requires Step(db, prev, tokens[pos], a).status == ExitSuccess
    ensures var s := Step(db, prev, tokens[pos], a);
            Learnt(s.db, s.prev, tokens[..pos + 1]) && (s.prev.Some? ==> s.prev.value < |s.db|)
  {
    var ts := tokens[..pos];
    assert ts + [tokens[pos]] == tokens[..pos + 1];
    StepLearns(db, prev, ts, tokens[pos], a);
  }

  lemma {:induction false} TrainLearns(db: seq<Node<Word>>, prev: Option<nat>, tokens: seq<Word>,
                                       alloc: nat -> Allocs, pos: nat)
    requires pos <= |tokens| && (prev.Some? ==> prev.value < |db|)
    requires Learnt(db, prev, tokens[..pos])
    ensures var t := Train(db, prev, tokens, alloc, pos);
            t.status == ExitSuccess ==> Learnt(t.db, t.prev, tokens)
    decreases |tokens| - pos
  {
    if pos == |tokens| {
      assert tokens[..pos] == tokens;
    } else {
      var s := Step(db, prev, tokens[pos], alloc(pos));
      if s.status == ExitSuccess {
        StepLearnsToken(db, prev, tokens, alloc(pos), pos);
        assert Train(db, prev, tokens, alloc, pos) == Train(s.db, s.prev, tokens, alloc, pos + 1);
        TrainLearns(s.db, s.prev, tokens, alloc, pos + 1);
      }
    }
  }

  /**
   * Training an empty chain successfully leaves the distinct tokens in order
   * of first occurrence as the registry, and records for every pair x, y
   * exactly as many transitions as there are places where y follows a
   * non-terminal x.
   */
  lemma TrainFromEmpty(tokens: seq<Word>, alloc: nat -> Allocs)
    ensures var t := Train([], None, tokens, alloc, 0);
            t.status == ExitSuccess ==>
              && WellFormed(t.db)
              && Values(t.db) == Dedup(tokens)
              && forall x, y :: Count(t.db, x, y) == PairCount(tokens, x, y)
  {
    assert tokens[..0] == [];
    TrainLearns([], None, tokens, alloc, 0);
  }

  // ----------------------------------------------------------- validation

  /**
   * validate_and_finalize_database: at least two nodes, and some run of
   * registry nodes ending in a terminal word has length 2 or more, that is,
   * some terminal node directly follows a non-terminal one.
   */
  method ValidateAndFinalizeDatabase<T(==)>(chain: Chain<T>) returns (status: Status)
    ensures status == ExitSuccess <==>
              && |chain.database| >= 2
              && exists j :: 1 <= j < |chain.database| && EndsLongRun(chain.database, chain.isLast, j)
  {
    var db := chain.database;
    if |db| < 2 {
      return ExitFailure;
    }
    var maxSentenceLength := 0;
    var currentSentenceLength := 0;
    var i := 0;
    while i < |db|
      invariant i <= |db| && currentSentenceLength >= 0
      invariant currentSentenceLength == 0 <==> i == 0 || chain.isLast(db[i - 1].data)
      invariant maxSentenceLength >= 2 <==> exists j :: 1 <= j < i && EndsLongRun(db, chain.isLast, j)
    {
      currentSentenceLength := currentSentenceLength + 1;
      if chain.isLast(db[i].data) {
        if currentSentenceLength >= 2 {
          assert EndsLongRun(db, chain.isLast, i);
        }
        if currentSentenceLength > maxSentenceLength {
          maxSentenceLength := currentSentenceLength;
        }
        currentSentenceLength := 0;
      }
      i := i + 1;
    }
    if maxSentenceLength < 2 {
      return ExitFailure;
    }
    return ExitSuccess;
  }

  /** Node j is terminal and node j - 1 is not: the run ending at j has length at least 2. */
  predicate EndsLongRun<T>(db: seq<Node<T>>, isLast: T -> bool, j: nat)
    requires 1 <= j < |db|
  {
    isLast(db[j].data) && !isLast(db[j - 1].data)
  }

  /**
   * fill_database: a fresh empty database (None when it cannot be allocated),
   * training, then validation.
   */
  method FillDatabase(chain: Chain<Word>, tokens: seq<Word>, wordsToRead: int, alloc: nat -> Allocs, listAllocOk: bool)
    returns (status: Status)
    requires chain.isLast == IsLastString
    modifies chain
    ensures !listAllocOk ==> status == ExitFailure
    ensures listAllocOk ==>
              var t := Train([], None, tokens[..WordsToProcess(|tokens|, wordsToRead)], alloc, 0);
              && chain.database == t.db
              && (status == ExitSuccess <==>
                    && t.status == ExitSuccess
                    && |t.db| >= 2
                    && exists j :: 1 <= j < |t.db| && EndsLongRun(t.db, IsLastString, j))
  {
    if !listAllocOk {
      return ExitFailure;
    }
    chain.database := [];
    status := ReadAndProcessFile(chain, tokens, wordsToRead, alloc);
    if status == ExitFailure {
      return;
    }
    status := ValidateAndFinalizeDatabase(chain);
  }

  // ------------------------------------------------------------- scenario

  const WordA: Word := "a"
  const WordB: Word := "b"
  const WordC: Word := "c."
  const Ok := Allocs(true, true, true)

  /** The registry learnt from the single sentence "a b c.". */
  function SentenceDb(): seq<Node<Word>>
  {
    [Node(WordA, [Edge(1, 1)], 1), Node(WordB, [Edge(2, 1)], 1), Node(WordC, [], 0)]
  }

  lemma DistinctWords()
    ensures WordA != WordB && WordA != WordC && WordB != WordC
  {
    assert WordA[0] != WordB[0] && WordA[0] != WordC[0] && WordB[0] != WordC[0];
  }

  lemma SentenceFirstStep()
    ensures Step([], None, WordA, Ok) == Trained(ExitSuccess, [Node(WordA, [], 0)], Some(0))
  {
  }

  lemma SentenceSecondStep()
    ensures Step([Node(WordA, [], 0)], Some(0), WordB, Ok) ==
              Trained(ExitSuccess, [Node(WordA, [Edge(1, 1)], 1), Node(WordB, [], 0)], Some(1))
  {
    DistinctWords();
    var db1 := [Node(WordA, [], 0)];
    assert Lookup(db1, WordB) == None;
    assert Register(db1, WordB, true) == Registered(Some(1), db1 + [Node(WordB, [], 0)]);
    assert EdgeIndex([], 1) == None;
    assert [] + [Edge(1, 1)] == [Edge(1, 1)];
    assert RecordTransition(Node(WordA, [], 0), 1, true) == Some(Node(WordA, [Edge(1, 1)], 1));
  }

  lemma SentenceThirdStep()
    ensures Step([Node(WordA, [Edge(1, 1)], 1), Node(WordB, [], 0)], Some(1), WordC, Ok) ==
              Trained(ExitSuccess, SentenceDb(), None)
  {
    DistinctWords();
    var db2 := [Node(WordA, [Edge(1, 1)], 1), Node(WordB, [], 0)];
    LookupAppend([db2[0]], db2[1], WordC);
    assert db2 == [db2[0]] + [db2[1]];
    assert Lookup(db2, WordC) == None;
    assert Register(db2, WordC, true) == Registered(Some(2), db2 + [Node(WordC, [], 0)]);
    assert EdgeIndex([], 2) == None;
    assert [] + [Edge(2, 1)] == [Edge(2, 1)];
    assert RecordTransition(Node(WordB, [], 0), 2, true) == Some(Node(WordB, [Edge(2, 1)], 1));
    assert IsLastString(WordC);
  }

  /**
   * Training on "a b c." with every allocation succeeding registers three
   * nodes, one transition a -> b and one b -> c., and leaves no prev_node.
   */
  lemma SentenceTraining()
    ensures var t := Train([], None, [WordA, WordB, WordC], _ => Ok, 0);
            && t == Trained(ExitSuccess, SentenceDb(), None)
            && Count(t.db, WordA, WordB) == 1 && Count(t.db, WordB, WordC) == 1 && Count(t.db, WordA, WordC) == 0
  {
    var tokens := [WordA, WordB, WordC];
    var alloc: nat -> Allocs := _ => Ok;
    SentenceFirstStep();
    SentenceSecondStep();
    SentenceThirdStep();
    var db1 := [Node(WordA, [], 0)];
    var db2 := [Node(WordA, [Edge(1, 1)], 1), Node(WordB, [], 0)];
    assert Train(db2, Some(1), tokens, alloc, 2) == Trained(ExitSuccess, SentenceDb(), None);
    assert Train(db1, Some(0), tokens, alloc, 1) == Trained(ExitSuccess, SentenceDb(), None);
    SentenceLookups();
  }

  lemma SentenceLookups()
    ensures Count(SentenceDb(), WordA, WordB) == 1
    ensures Count(SentenceDb(), WordB, WordC) == 1
    ensures Count(SentenceDb(), WordA, WordC) == 0
  {
    var db := SentenceDb();
    DistinctWords();
    LookupIs(db, WordA, 0);
    LookupIs(db, WordB, 1);
    LookupIs(db, WordC, 2);
  }

  /**
   * Whatever rand() returns, a walk from "a" of at most 5 states prints
   * a b c. and stops at the terminal word; the database also validates.
   */
  lemma SentenceGeneration(rand: nat -> nat)
    ensures Closed(SentenceDb())
    ensures Walk(SentenceDb(), IsLastString, Some(0), 5, rand) == [0, 1, 2]
    ensures EndsLongRun(SentenceDb(), IsLastString, 2)
  {
    var db := SentenceDb();
    assert NextState(db[0], rand(0)) == Some(1);
    assert NextState(db[1], rand(1)) == Some(2);
    assert Continue(db, IsLastString, 1, 2, 5, rand) == [2];
  }
}
