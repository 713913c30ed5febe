/**
 * The snakes-and-ladders consumer of the engine: states are the cells of a
 * 100-cell board, a cell with a ladder or a snake leads only along it, any
 * other cell leads to the next one to six cells, and cell 100 ends a game.
 */
module SnakesAndLadders {
  import opened MarkovTypes
  import opened MarkovSpec
  import opened MarkovWalk
  import opened MarkovChain

  const Empty := -1
  const BoardSize := 100
  const DiceMax := 6
  const MaxGenerationLength := 60

  /** The ladders and snakes of the board: (from, to) is a ladder when from < to, a snake otherwise. */
  const Transitions: seq<(int, int)> :=
    [(13, 4), (85, 17), (95, 67), (97, 58), (66, 89), (87, 31), (57, 83), (91, 25), (28, 50), (35, 11),
     (8, 30), (41, 62), (81, 43), (69, 32), (20, 39), (33, 70), (79, 99), (23, 76), (15, 47), (61, 14)]

  /** A board cell: its number (1..100) and where its ladder or snake leads, Empty when it has none. */
  datatype Cell = Cell(number: int, ladderTo: int, snakeTo: int)

  /** Every pair of the table joins two different cells of the board, and no cell starts two of them. */
  predicate TableWellFormed()
  {
    && (forall m :: 0 <= m < |Transitions| ==>
          1 <= Transitions[m].0 <= BoardSize && 1 <= Transitions[m].1 <= BoardSize &&
          Transitions[m].0 != Transitions[m].1)
    && (forall m, m' :: 0 <= m < m' < |Transitions| ==> Transitions[m].0 != Transitions[m'].0)
  }

  lemma TableIsWellFormed()
    ensures TableWellFormed()
  {
    TableInRange();
    TableFromsDistinct();
  }

  /** Every pair of the table joins two different cells of the board. */
  lemma TableInRange()
    ensures forall m :: 0 <= m < |Transitions| ==>
              1 <= Transitions[m].0 <= BoardSize && 1 <= Transitions[m].1 <= BoardSize &&
              Transitions[m].0 != Transitions[m].1
  {
  }

  /** No two pairs of the table start on the same cell. */
  lemma TableFromsDistinct()
    ensures forall m, m' :: 0 <= m < m' < |Transitions| ==> Transitions[m].0 != Transitions[m'].0
  {
  }

  /** ladder_to of cell n once the first k pairs of the table are applied. */
  function LadderAmong(n: int, k: nat): int
    requires k <= |Transitions|
  {
    if k == 0 then Empty
    else if Transitions[k - 1].0 == n && Transitions[k - 1].0 < Transitions[k - 1].1 then Transitions[k - 1].1
    else LadderAmong(n, k - 1)
  }

  /** snake_to of cell n once the first k pairs of the table are applied. */
  function SnakeAmong(n: int, k: nat): int
    requires k <= |Transitions|
  {
    if k == 0 then Empty
    else if Transitions[k - 1].0 == n && !(Transitions[k - 1].0 < Transitions[k - 1].1) then Transitions[k - 1].1
    else SnakeAmong(n, k - 1)
  }

  /** The board once the first t pairs of the table are applied: cell i holds number i + 1. */
  function BoardAfter(t: nat): (b: seq<Cell>)
    requires t <= |Transitions|
    ensures |b| == BoardSize
  {
    seq(BoardSize, i => Cell(i + 1, LadderAmong(i + 1, t), SnakeAmong(i + 1, t)))
  }

  /** The board create_board builds: every pair of the table applied. */
  function Board(): (b: seq<Cell>)
    ensures |b| == BoardSize
  {
    BoardAfter(|Transitions|)
  }

  /** Applying pair t of the table changes one field of the cell it starts on and nothing else. */
  lemma BoardAfterStep(t: nat)
    requires t < |Transitions|
    ensures var (from, to) := Transitions[t];
            && 1 <= from <= BoardSize
            && BoardAfter(t + 1) ==
                 BoardAfter(t)[from - 1 := if from < to then BoardAfter(t)[from - 1].(ladderTo := to)
                                           else BoardAfter(t)[from - 1].(snakeTo := to)]
  {
    TableInRange();
    var (from, to) := Transitions[t];
    var updated := BoardAfter(t)[from - 1 := if from < to then BoardAfter(t)[from - 1].(ladderTo := to)
                                               else BoardAfter(t)[from - 1].(snakeTo := to)];
    forall k | 0 <= k < BoardSize
      ensures BoardAfter(t + 1)[k] == updated[k]
    {
    }
  }

  /**
   * create_board: allocate the 100 cells (allocOk(i) says whether the
   * allocation of cell i succeeds), number them, then apply the table.
   */
  method CreateBoard(allocOk: nat -> bool) returns (status: Status, cells: array<Cell>)
    ensures fresh(cells) && cells.Length == BoardSize
    ensures status == ExitSuccess <==> forall i :: 0 <= i < BoardSize ==> allocOk(i)
    ensures status == ExitSuccess ==> cells[..] == Board()
  {
    cells := new Cell[BoardSize];
    var i := 0;
    while i < BoardSize
      invariant 0 <= i <= BoardSize
      invariant forall k :: 0 <= k < i ==> allocOk(k)
      invariant forall k :: 0 <= k < i ==> cells[k] == Cell(k + 1, Empty, Empty)
    {
      if !allocOk(i) {
        return ExitFailure, cells;
      }
      cells[i] := Cell(i + 1, Empty, Empty);
      i := i + 1;
    }
    forall k | 0 <= k < BoardSize
      ensures cells[k] == BoardAfter(0)[k]
    {
    }
    ApplyTransitions(cells);
    return ExitSuccess, cells;
  }

  /** The second loop of create_board: apply each pair of the table to the cell it starts on. */
  method ApplyTransitions(cells: array<Cell>)
    requires cells.Length == BoardSize && cells[..] == BoardAfter(0)
    modifies cells
    ensures cells[..] == Board()
  {
    var t := 0;
    while t < |Transitions|
      invariant 0 <= t <= |Transitions|
      invariant cells[..] == BoardAfter(t)
    {
      BoardAfterStep(t);
      var from, to := Transitions[t].0, Transitions[t].1;
      var cell := if from < to then cells[from - 1].(ladderTo := to) else cells[from - 1].(snakeTo := to);
      ghost var before := cells[..];
      cells[from - 1] := cell;
      assert cells[..] == before[from - 1 := cell];
      t := t + 1;
    }
  }

  // ------------------------------------------------------ board properties

  /** A ladder leads up from the cell it starts on and comes from a pair of the table. */
  lemma {:induction false} LadderFromTable(n: int, k: nat)
    requires k <= |Transitions|
    ensures LadderAmong(n, k) != Empty ==>
              exists m :: 0 <= m < k && Transitions[m] == (n, LadderAmong(n, k)) && n < LadderAmong(n, k)
  {
    if k > 0 && LadderAmong(n, k) != LadderAmong(n, k - 1) {
      assert Transitions[k - 1] == (n, LadderAmong(n, k));
    } else if k > 0 {
      LadderFromTable(n, k - 1);
    }
  }

  /** A snake leads down from the cell it starts on and comes from a pair of the table. */
  lemma {:induction false} SnakeFromTable(n: int, k: nat)
    requires k <= |Transitions|
    ensures SnakeAmong(n, k) != Empty ==>
              exists m :: 0 <= m < k && Transitions[m] == (n, SnakeAmong(n, k)) && n >= SnakeAmong(n, k)
  {
    if k > 0 && SnakeAmong(n, k) != SnakeAmong(n, k - 1) {
      assert Transitions[k - 1] == (n, SnakeAmong(n, k));
    } else if k > 0 {
      SnakeFromTable(n, k - 1);
    }
  }

  /** The pair m of the table, the only one starting on its cell, decides both fields of that cell. */
  lemma {:induction false} AmongFound(n: int, k: nat, m: nat)
    requires m < k <= |Transitions| && TableWellFormed() && Transitions[m].0 == n
    ensures LadderAmong(n, k) == if n < Transitions[m].1 then Transitions[m].1 else Empty
    ensures SnakeAmong(n, k) == if n < Transitions[m].1 then Empty else Transitions[m].1
    decreases k
  {
    if m < k - 1 {
      assert Transitions[k - 1].0 != n;
      AmongFound(n, k - 1, m);
    } else {
      AmongAbsent(n, k - 1);
    }
  }

  /** A cell no pair of the table starts on has neither a ladder nor a snake. */
  lemma {:induction false} AmongAbsent(n: int, k: nat)
    requires k <= |Transitions| && forall m :: 0 <= m < k ==> Transitions[m].0 != n
    ensures LadderAmong(n, k) == Empty && SnakeAmong(n, k) == Empty
  {
    if k > 0 {
      AmongAbsent(n, k - 1);
    }
  }

  /**
   * The board follows the table: every pair (from, to) sets ladder_to = to
   * on cell from when from < to and snake_to = to otherwise, and leaves the
   * other field Empty.
   */
  lemma BoardFollowsTable(m: nat)
    requires m < |Transitions|
    ensures var (from, to) := Transitions[m];
            && 1 <= from <= BoardSize
            && Board()[from - 1].number == from
            && Board()[from - 1].ladderTo == (if from < to then to else Empty)
            && Board()[from - 1].snakeTo == (if from < to then Empty else to)
  {
    TableIsWellFormed();
    AmongFound(Transitions[m].0, |Transitions|, m);
  }

  /** Cells that start no pair of the table have neither a ladder nor a snake. */
  lemma BoardPlainCells(i: nat)
    requires i < BoardSize && forall m :: 0 <= m < |Transitions| ==> Transitions[m].0 != i + 1
    ensures Board()[i] == Cell(i + 1, Empty, Empty)
  {
    AmongAbsent(i + 1, |Transitions|);
  }

  /**
   * No cell has both a ladder and a snake; a ladder leads to a higher cell
   * and a snake to a lower one, both on the board.
   */
  lemma BoardShortcuts(i: nat)
    requires i < BoardSize
    ensures Board()[i].ladderTo == Empty || Board()[i].snakeTo == Empty
    ensures Board()[i].ladderTo != Empty ==> i + 1 < Board()[i].ladderTo <= BoardSize
    ensures Board()[i].snakeTo != Empty ==> 1 <= Board()[i].snakeTo < i + 1
  {
    TableIsWellFormed();
    LadderFromTable(i + 1, |Transitions|);
    SnakeFromTable(i + 1, |Transitions|);
    if Board()[i].ladderTo != Empty || Board()[i].snakeTo != Empty {
      var m :| 0 <= m < |Transitions| && Transitions[m].0 == i + 1;
      AmongFound(i + 1, |Transitions|, m);
    }
  }

  /** Cell 13 carries the snake to cell 4 and no ladder. */
  lemma Cell13IsSnake()
    ensures Board()[12] == Cell(13, Empty, 4)
  {
    BoardFollowsTable(0);
  }

  // ------------------------------------------ the capabilities of the chain

  /** copy_cell: all three fields, or None when malloc fails. */
  function CopyCell(c: Cell, allocOk: bool): (r: Option<Cell>)
    ensures r.Some? <==> allocOk
    ensures r.Some? ==> r.value.number == c.number && r.value.ladderTo == c.ladderTo && r.value.snakeTo == c.snakeTo
  {
    if allocOk then Some(c) else None
  }

  /** compare_cells: the difference of the cell numbers. */
  function CompareCells(a: Cell, b: Cell): (r: int)
    ensures r == 0 <==> a.number == b.number
    ensures r < 0 <==> a.number < b.number
  {
    a.number - b.number
  }

  /**
   * On the board, compare_cells finds two cells equal exactly when they are
   * the same cell, so lookups by compare_cells and by equality agree.
   */
  lemma CompareCellsOnBoard(i: nat, j: nat)
    requires i < BoardSize && j < BoardSize
    ensures CompareCells(Board()[i], Board()[j]) == 0 <==> Board()[i] == Board()[j]
    ensures Board()[i] == Board()[j] <==> i == j
    ensures CompareCells(Board()[j], Board()[i]) == -CompareCells(Board()[i], Board()[j])
  {
    assert Board()[i].number == i + 1 && Board()[j].number == j + 1;
  }

  /**
   * is_last_cell: the cell numbered 100 ends a game; of the cells of the
   * board that is the last one.
   */
  function IsLastCell(c: Cell): (r: bool)
    ensures c in Board() ==> (r <==> c == Board()[BoardSize - 1])
  {
    c.number == BoardSize
  }

  /** Of the board cells, exactly the last one ends a game. */
  lemma IsLastCellOnBoard(i: nat)
    requires i < BoardSize
    ensures IsLastCell(Board()[i]) <==> i == BoardSize - 1
  {
    assert Board()[i].number == i + 1;
  }

  // --------------------------------------------------------- the database

  /** Whether a cell has a ladder or a snake. */
  predicate HasShortcut(c: Cell)
  {
    c.snakeTo != Empty || c.ladderTo != Empty
  }

  /** MAX(snake_to, ladder_to): the cell a shortcut leads to. */
  function ShortcutTarget(c: Cell): int
  {
    if c.snakeTo < c.ladderTo then c.ladderTo else c.snakeTo
  }

  /** The shortcut of a board cell leads to a cell of the board other than itself. */
  lemma ShortcutOnBoard(i: nat)
    requires i < BoardSize && HasShortcut(Board()[i])
    ensures 1 <= ShortcutTarget(Board()[i]) <= BoardSize
    ensures ShortcutTarget(Board()[i]) != i + 1
  {
    BoardShortcuts(i);
  }

  /** How many dice edges cell n gets: one per throw 1..6 that stays on the board. */
  function DiceCount(n: int): (d: nat)
    ensures d <= DiceMax
  {
    if n + DiceMax <= BoardSize then DiceMax else if n < BoardSize then BoardSize - n else 0
  }

  /** The dice edges of cell n: to the cells n + 1, n + 2, ... (registry indexes n, n + 1, ...), each once. */
  function DiceEdges(n: nat): (es: seq<Edge>)
  {
    seq(DiceCount(n), j requires 0 <= j < DiceCount(n) => Edge(n + j, 1))
  }

  /**
   * The edges fill_database_snakes gives the cell at index i: the shortcut
   * edge (which is only recorded when edgeOk(i, 0), its failure being
   * ignored) or the dice edges.
   */
  function CellEdges(i: nat, edgeOk: (nat, nat) -> bool): seq<Edge>
    requires i < BoardSize
  {
    var c := Board()[i];
    if HasShortcut(c) then
      ShortcutOnBoard(i);
      if edgeOk(i, 0) then [Edge(ShortcutTarget(c) - 1, 1)] else []
    else DiceEdges(c.number)
  }

  /** The node of cell i once its edges are added. */
  function FinalNode(i: nat, edgeOk: (nat, nat) -> bool): Node<Cell>
    requires i < BoardSize
  {
    Node(Board()[i], CellEdges(i, edgeOk), |CellEdges(i, edgeOk)|)
  }

  /** The database a successful fill_database_snakes builds. */
  function SnakesDatabase(edgeOk: (nat, nat) -> bool): (db: seq<Node<Cell>>)
    ensures |db| == BoardSize
  {
    seq(BoardSize, i requires 0 <= i < BoardSize => FinalNode(i, edgeOk))
  }

  /** The first n throws from the cell at index i have their edges allocated. */
  predicate ThrowsOk(i: nat, n: nat, edgeOk: (nat, nat) -> bool)
  {
    forall j: nat :: 1 <= j <= n ==> edgeOk(i, j)
  }

  /** One more throw whose edge is allocated. */
  lemma ThrowsOkStep(i: nat, n: nat, edgeOk: (nat, nat) -> bool)
    requires ThrowsOk(i, n, edgeOk) && edgeOk(i, n + 1)
    ensures ThrowsOk(i, n + 1, edgeOk)
  {
  }

  /** Every dice edge the filling needs can be allocated; edgeOk(i, j) is throw j from the cell at index i. */
  predicate DiceOk(edgeOk: (nat, nat) -> bool)
  {
    forall i: nat :: i < BoardSize ==> CellDiceOk(i, edgeOk)
  }

  /** Every dice edge of the cell at index i can be allocated (vacuous for a cell with a shortcut). */
  predicate CellDiceOk(i: nat, edgeOk: (nat, nat) -> bool)
    requires i < BoardSize
  {
    !HasShortcut(Board()[i]) ==> ThrowsOk(i, DiceCount(i + 1), edgeOk)
  }

  /** The registry as the first loop of fill_database_snakes leaves it: the first n cells, no edges yet. */
  function CellsRegistered(n: nat): (db: seq<Node<Cell>>)
    requires n <= BoardSize
    ensures |db| == n
  {
    seq(n, i requires 0 <= i < n => Node(Board()[i], [], 0))
  }

  /** The registry part-way through the second loop: the cells before i have their final edges. */
  function Filled(i: nat, edgeOk: (nat, nat) -> bool): (db: seq<Node<Cell>>)
    requires i <= BoardSize
    ensures |db| == BoardSize
  {
    seq(BoardSize, k requires 0 <= k < BoardSize => if k < i then FinalNode(k, edgeOk) else Node(Board()[k], [], 0))
  }

  /** The registry part-way through the dice loop of cell i: its first j dice edges are added. */
  function DiceProgress(i: nat, j: nat, edgeOk: (nat, nat) -> bool): (db: seq<Node<Cell>>)
    requires i < BoardSize && j <= DiceCount(i + 1)
    ensures |db| == BoardSize
  {
    Filled(i, edgeOk)[i := Node(Board()[i], DiceEdges(i + 1)[..j], j)]
  }

  /** In a registry whose node k holds cell number k + 1, the lookup of a stored cell finds its own node. */
  lemma NumberedLookup(db: seq<Node<Cell>>, i: nat)
    requires i < |db| && forall k :: 0 <= k < |db| ==> db[k].data.number == k + 1
    ensures Lookup(db, db[i].data) == Some(i)
  {
  }

  /** get_node_from_database finds board cell i at index i of a registry holding the board in order. */
  lemma BoardLookup(db: seq<Node<Cell>>, i: nat)
    requires i < |db| <= BoardSize && forall k :: 0 <= k < |db| ==> db[k].data == Board()[k]
    ensures Lookup(db, Board()[i]) == Some(i)
  {
    forall k | 0 <= k < |db|
      ensures db[k].data.number == k + 1
    {
      assert db[k].data == Board()[k];
    }
    NumberedLookup(db, i);
  }

  /** Part-way through the second loop, every cell is still found at its own index. */
  lemma FilledLookup(i: nat, edgeOk: (nat, nat) -> bool, k: nat)
    requires i <= BoardSize && k < BoardSize
    ensures Lookup(Filled(i, edgeOk), Board()[k]) == Some(k)
  {
    var db := Filled(i, edgeOk);
    forall m | 0 <= m < BoardSize
      ensures db[m].data == Board()[m]
    {
      if m < i {
        assert db[m] == FinalNode(m, edgeOk);
      }
    }
    BoardLookup(db, k);
  }

  /** Part-way through a dice loop, every cell is still found at its own index. */
  lemma DiceProgressLookup(i: nat, j: nat, edgeOk: (nat, nat) -> bool, k: nat)
    requires i < BoardSize && j <= DiceCount(i + 1) && k < BoardSize
    ensures Lookup(DiceProgress(i, j, edgeOk), Board()[k]) == Some(k)
  {
    var db := DiceProgress(i, j, edgeOk);
    FilledLookup(i, edgeOk, 0);
    forall m | 0 <= m < BoardSize
      ensures db[m].data == Board()[m]
    {
      if m != i {
        assert db[m] == Filled(i, edgeOk)[m];
        if m < i {
          assert db[m] == FinalNode(m, edgeOk);
        }
      }
    }
    BoardLookup(db, k);
  }

  /** Registering the next cell of the board appends a node for it. */
  lemma RegisterCell(n: nat)
    requires n < BoardSize
    ensures Register(CellsRegistered(n), Board()[n], true) == Registered(Some(n), CellsRegistered(n + 1))
  {
    var db := CellsRegistered(n);
    forall j | 0 <= j < n
      ensures db[j].data != Board()[n]
    {
      assert db[j].data == Board()[j];
    }
    assert db + [Node(Board()[n], [], 0)] == CellsRegistered(n + 1);
  }

  /** Moving on to the next cell of the second loop replaces one node: that of cell i. */
  lemma FilledStep(i: nat, edgeOk: (nat, nat) -> bool)
    requires i < BoardSize
    ensures Filled(i + 1, edgeOk) == Filled(i, edgeOk)[i := FinalNode(i, edgeOk)]
  {
    var after := Filled(i, edgeOk)[i := FinalNode(i, edgeOk)];
    forall k | 0 <= k < BoardSize
      ensures Filled(i + 1, edgeOk)[k] == after[k]
    {
    }
  }

  /** Adding the shortcut edge of cell i, or failing to, leaves the registry at Filled(i + 1). */
  lemma ShortcutStep(i: nat, edgeOk: (nat, nat) -> bool)
    requires i < BoardSize && HasShortcut(Board()[i])
    ensures 1 <= ShortcutTarget(Board()[i]) <= BoardSize
    ensures match AddTransition(Filled(i, edgeOk), i, ShortcutTarget(Board()[i]) - 1, edgeOk(i, 0))
            case None => Filled(i, edgeOk) == Filled(i + 1, edgeOk)
            case Some(db) => db == Filled(i + 1, edgeOk)
  {
    ShortcutOnBoard(i);
    var target := ShortcutTarget(Board()[i]) - 1;
    var before := Filled(i, edgeOk);
    var node := before[i];
    assert node == Node(Board()[i], [], 0);
    assert EdgeIndex([], target) == None;
    FilledStep(i, edgeOk);
    if edgeOk(i, 0) {
      assert [] + [Edge(target, 1)] == [Edge(target, 1)];
      assert RecordTransition(node, target, true) == Some(FinalNode(i, edgeOk));
    } else {
      assert FinalNode(i, edgeOk) == node;
      assert before[i := node] == before;
    }
  }

  /** Before its dice loop, a cell without a shortcut has no edges. */
  lemma DiceStart(i: nat, edgeOk: (nat, nat) -> bool)
    requires i < BoardSize
    ensures DiceProgress(i, 0, edgeOk) == Filled(i, edgeOk)
  {
    assert DiceEdges(i + 1)[..0] == [];
  }

  /** Throw j + 1 of cell i adds the edge to cell i + j + 2, or fails when it cannot be allocated. */
  lemma DiceStep(i: nat, j: nat, edgeOk: (nat, nat) -> bool, allocOk: bool)
    requires i < BoardSize && j < DiceCount(i + 1)
    ensures i + 1 + j < BoardSize
    ensures AddTransition(DiceProgress(i, j, edgeOk), i, i + 1 + j, allocOk) ==
              if allocOk then Some(DiceProgress(i, j + 1, edgeOk)) else None
  {
    var before := DiceProgress(i, j, edgeOk);
    var edges := DiceEdges(i + 1)[..j];
    assert before[i].edges == edges;
    assert forall k :: 0 <= k < |edges| ==> edges[k].target == i + 1 + k;
    assert EdgeIndex(edges, i + 1 + j) == None;
    assert edges + [Edge(i + 1 + j, 1)] == DiceEdges(i + 1)[..j + 1];
    if allocOk {
      var node := Node(Board()[i], edges + [Edge(i + 1 + j, 1)], j + 1);
      assert RecordTransition(before[i], i + 1 + j, allocOk) == Some(node);
      assert before[i := node] == DiceProgress(i, j + 1, edgeOk);
    }
  }

  /** After its dice loop, cell i has all its dice edges. */
  lemma DiceDone(i: nat, edgeOk: (nat, nat) -> bool)
    requires i < BoardSize && !HasShortcut(Board()[i])
    ensures DiceProgress(i, DiceCount(i + 1), edgeOk) == Filled(i + 1, edgeOk)
  {
    assert DiceEdges(i + 1)[..DiceCount(i + 1)] == DiceEdges(i + 1);
    FilledStep(i, edgeOk);
  }

  /**
   * One iteration of the second loop of fill_database_snakes: the shortcut
   * edge of the cell at index i (its failure ignored), or its dice edges,
   * stopping with EXIT_FAILURE at the first dice edge that cannot be
   * allocated.
   */
  method AddCellEdges(chain: Chain<Cell>, cells: array<Cell>, i: nat, edgeOk: (nat, nat) -> bool)
    returns (status: Status)
    requires i < BoardSize && cells[..] == Board() && chain.database == Filled(i, edgeOk)
    modifies chain
    ensures status == ExitSuccess <==> CellDiceOk(i, edgeOk)
    ensures status == ExitSuccess ==> chain.database == Filled(i + 1, edgeOk)
  {
    FilledLookup(i, edgeOk, i);
    var from := chain.GetNodeFromDatabase(cells[i]);
    var cell := cells[i];
    if cell.snakeTo != Empty || cell.ladderTo != Empty {
      AddShortcut(chain, cells, i, from, edgeOk);
      return ExitSuccess;
    }
    status := AddDiceEdges(chain, cells, i, from, edgeOk);
  }

  /** The shortcut edge of the cell at index i, whose node is `from`; a failure to add it is ignored. */
  method AddShortcut(chain: Chain<Cell>, cells: array<Cell>, i: nat, from: Option<nat>, edgeOk: (nat, nat) -> bool)
    requires i < BoardSize && cells[..] == Board() && HasShortcut(Board()[i])
    requires chain.database == Filled(i, edgeOk) && from == Some(i)
    modifies chain
    ensures chain.database == Filled(i + 1, edgeOk)
  {
    ShortcutStep(i, edgeOk);
    var indexTo := ShortcutTarget(cells[i]) - 1;
    FilledLookup(i, edgeOk, indexTo);
    var to := chain.GetNodeFromDatabase(cells[indexTo]);
    var ignored := chain.AddNodeToFrequencyList(from, to, edgeOk(i, 0));
  }

  /** Throw j from the cell at index i, whose node is `from`: look up the cell at indexTo and add the edge to it. */
  method AddThrow(chain: Chain<Cell>, cells: array<Cell>, i: nat, j: nat, from: Option<nat>, indexTo: nat,
                  edgeOk: (nat, nat) -> bool)
    returns (status: Status)
    requires i < BoardSize && cells[..] == Board() && 1 <= j <= DiceCount(i + 1)
    requires chain.database == DiceProgress(i, j - 1, edgeOk) && from == Some(i) && indexTo == i + j
    modifies chain
    ensures status == ExitSuccess <==> edgeOk(i, j)
    ensures status == ExitSuccess ==> chain.database == DiceProgress(i, j, edgeOk)
  {
    DiceStep(i, j - 1, edgeOk, edgeOk(i, j));
    assert i + 1 + (j - 1) == indexTo;
    DiceProgressLookup(i, j - 1, edgeOk, indexTo);
    var to := chain.GetNodeFromDatabase(cells[indexTo]);
    assert to == Some(indexTo);
    ghost var expected := AddTransition(chain.database, i, indexTo, edgeOk(i, j));
    assert expected == if edgeOk(i, j) then Some(DiceProgress(i, j, edgeOk)) else None;
    status := chain.AddNodeToFrequencyList(from, to, edgeOk(i, j));
  }

  /** The dice loop of fill_database_snakes for the cell at index i, whose node is `from`. */
  method AddDiceEdges(chain: Chain<Cell>, cells: array<Cell>, i: nat, from: Option<nat>, edgeOk: (nat, nat) -> bool)
    returns (status: Status)
    requires i < BoardSize && cells[..] == Board() && !HasShortcut(Board()[i])
    requires chain.database == Filled(i, edgeOk) && from == Some(i)
    modifies chain
    ensures status == ExitSuccess <==> ThrowsOk(i, DiceCount(i + 1), edgeOk)
    ensures status == ExitSuccess ==> chain.database == Filled(i + 1, edgeOk)
  {
    DiceStart(i, edgeOk);
    var cell := cells[i];
    assert cell.number == i + 1;
    var j := 1;
    while j <= DiceMax
      invariant 1 <= j <= DiceMax + 1 && j - 1 <= DiceCount(i + 1)
      invariant chain.database == DiceProgress(i, j - 1, edgeOk)
      invariant ThrowsOk(i, j - 1, edgeOk)
    {
      var indexTo := cell.number + j - 1;
      if indexTo >= BoardSize {
        break;
      }
      assert j <= DiceCount(i + 1);
      var res := AddThrow(chain, cells, i, j, from, indexTo, edgeOk);
      if res == ExitFailure {
        assert !ThrowsOk(i, DiceCount(i + 1), edgeOk) by {
          assert !edgeOk(i, j);
        }
        return ExitFailure;
      }
      ThrowsOkStep(i, j - 1, edgeOk);
      j := j + 1;
    }
    assert j - 1 == DiceCount(i + 1);
    DiceDone(i, edgeOk);
    return ExitSuccess;
  }

  /**
   * fill_database_snakes: build the board, register its cells in order,
   * then give each cell its shortcut edge or its dice edges. A failed dice
   * edge stops the filling with EXIT_FAILURE; a failed shortcut edge is
   * ignored. Registering a cell is taken to succeed.
   */
  method FillDatabaseSnakes(chain: Chain<Cell>, boardAllocOk: nat -> bool, edgeOk: (nat, nat) -> bool)
    returns (status: Status)
    requires chain.database == []
    modifies chain
    ensures (exists k :: 0 <= k < BoardSize && !boardAllocOk(k)) ==> status == ExitFailure && chain.database == []
    ensures (forall k :: 0 <= k < BoardSize ==> boardAllocOk(k)) ==> (status == ExitSuccess <==> DiceOk(edgeOk))
    ensures status == ExitSuccess ==> chain.database == SnakesDatabase(edgeOk)
  {
    var created, cells := CreateBoard(boardAllocOk);
    if created == ExitFailure {
      return ExitFailure;
    }
    var i := 0;
    while i < BoardSize
      invariant 0 <= i <= BoardSize
      invariant chain.database == CellsRegistered(i)
      invariant cells[..] == Board()
    {
      RegisterCell(i);
      var registered := chain.AddToDatabase(cells[i], true);
      i := i + 1;
    }
    assert CellsRegistered(BoardSize) == Filled(0, edgeOk);
    i := 0;
    while i < BoardSize
      invariant 0 <= i <= BoardSize
      invariant chain.database == Filled(i, edgeOk)
      invariant cells[..] == Board()
      invariant forall k: nat :: k < i ==> CellDiceOk(k, edgeOk)
    {
      status := AddCellEdges(chain, cells, i, edgeOk);
      if status == ExitFailure {
        return;
      }
      i := i + 1;
    }
    assert Filled(BoardSize, edgeOk) == SnakesDatabase(edgeOk);
    return ExitSuccess;
  }

  // ------------------------------------------- what the database promises

  /** The built database keeps the registry invariant: distinct cells, well-formed transition lists. */
  lemma SnakesDatabaseWellFormed(edgeOk: (nat, nat) -> bool)
    ensures WellFormed(SnakesDatabase(edgeOk))
    ensures Closed(SnakesDatabase(edgeOk))
  {
    var db := SnakesDatabase(edgeOk);
    forall i | 0 <= i < BoardSize
      ensures NodeWellFormed(db[i], BoardSize)
    {
      assert db[i] == FinalNode(i, edgeOk);
      if HasShortcut(Board()[i]) {
        ShortcutOnBoard(i);
      }
    }
    forall i, j | 0 <= i < j < BoardSize
      ensures db[i].data != db[j].data
    {
      assert db[i].data.number == i + 1 && db[j].data.number == j + 1;
    }
  }

  /**
   * Registry index i holds cell number i + 1; a cell with a shortcut has
   * exactly the one edge, of count 1, to the cell MAX(snake_to, ladder_to)
   * when that edge could be allocated, and none otherwise.
   */
  lemma ShortcutEdges(edgeOk: (nat, nat) -> bool, i: nat)
    requires i < BoardSize && HasShortcut(Board()[i])
    ensures SnakesDatabase(edgeOk)[i].data.number == i + 1
    ensures var t := ShortcutTarget(Board()[i]);
            && 1 <= t <= BoardSize
            && SnakesDatabase(edgeOk)[i].edges == (if edgeOk(i, 0) then [Edge(t - 1, 1)] else [])
            && SnakesDatabase(edgeOk)[t - 1].data.number == t
  {
    ShortcutOnBoard(i);
    assert SnakesDatabase(edgeOk)[i] == FinalNode(i, edgeOk);
  }

  /** Cell 13 has the single edge to cell 4, the foot of its snake. */
  lemma Cell13Edges(edgeOk: (nat, nat) -> bool)
    requires edgeOk(12, 0)
    ensures SnakesDatabase(edgeOk)[12].edges == [Edge(3, 1)]
    ensures SnakesDatabase(edgeOk)[3].data.number == 4
  {
    Cell13IsSnake();
    ShortcutEdges(edgeOk, 12);
  }

  /**
   * A cell n without a shortcut has, in order, one edge of count 1 to each
   * of the cells n + 1 .. min(n + 6, 100).
   */
  lemma DiceEdgesOfCell(edgeOk: (nat, nat) -> bool, i: nat)
    requires i < BoardSize && !HasShortcut(Board()[i])
    ensures var n, es := i + 1, SnakesDatabase(edgeOk)[i].edges;
            && |es| == (if n + DiceMax <= BoardSize then DiceMax else BoardSize - n)
            && forall k :: 0 <= k < |es| ==>
                 es[k].frequency == 1 && es[k].target < BoardSize &&
                 SnakesDatabase(edgeOk)[es[k].target].data.number == n + 1 + k
  {
    assert SnakesDatabase(edgeOk)[i] == FinalNode(i, edgeOk);
  }

  /** Cell 100 ends a game and has no edges. */
  lemma LastCellHasNoEdges(edgeOk: (nat, nat) -> bool)
    ensures IsLastCell(SnakesDatabase(edgeOk)[BoardSize - 1].data)
    ensures SnakesDatabase(edgeOk)[BoardSize - 1].edges == []
  {
    BoardPlainCells(BoardSize - 1);
    assert SnakesDatabase(edgeOk)[BoardSize - 1] == FinalNode(BoardSize - 1, edgeOk);
  }

  /** When every shortcut edge is recorded, every cell but the last has somewhere to go. */
  lemma OtherCellsMove(edgeOk: (nat, nat) -> bool, i: nat)
    requires i < BoardSize - 1 && (forall k :: 0 <= k < BoardSize ==> edgeOk(k, 0))
    ensures SnakesDatabase(edgeOk)[i].edges != []
  {
    assert SnakesDatabase(edgeOk)[i] == FinalNode(i, edgeOk);
  }

  /**
   * A game generated from cell 1 moves only along recorded edges, passes no
   * finishing cell before its end, and ends on cell 100 unless it reached
   * the maximal length first.
   */
  lemma GameEnds(edgeOk: (nat, nat) -> bool, maxLength: int, rand: nat -> nat)
    requires forall k :: 0 <= k < BoardSize ==> edgeOk(k, 0)
    ensures var db := SnakesDatabase(edgeOk);
            Closed(db) &&
            var w := Walk(db, IsLastCell, Some(0), maxLength, rand);
            && (forall k :: 0 < k < |w| ==> HasEdge(db[w[k - 1]].edges, w[k]))
            && (forall k :: 0 <= k < |w| - 1 ==> !IsLastCell(db[w[k]].data))
            && (w != [] ==> |w| == maxLength || db[w[|w| - 1]].data.number == BoardSize)
  {
    var db := SnakesDatabase(edgeOk);
    SnakesDatabaseWellFormed(edgeOk);
    assert forall k :: 0 <= k < |db| ==> Observed(db[k]);
    WalkStops(db, IsLastCell, Some(0), maxLength, rand);
    WalkFollowsEdges(db, IsLastCell, Some(0), maxLength, rand);
    WalkLength(db, IsLastCell, Some(0), maxLength, rand);
    var w := Walk(db, IsLastCell, Some(0), maxLength, rand);
    if w != [] {
      assert db[0].data.number == 1;
      var last := w[|w| - 1];
      if db[last].edges == [] && last < BoardSize - 1 {
        OtherCellsMove(edgeOk, last);
      }
      assert db[last].data.number == last + 1;
    }
  }
}
