/**
 * The snakes-and-ladders driver of the Markov-chain engine: a fixed board of
 * 100 cells, a table of ladders and snakes, and the chain whose states are the
 * cells and whose transitions are the dice throws (or the one jump a ladder or
 * snake forces).
 */
module SnakesAndLadders {
  import opened Wrappers
  import opened MarkovChain

  const EMPTY: int := -1
  const BOARD_SIZE: int := 100
  const DICE_MAX: int := 6
  const NUM_OF_TRANSITIONS: int := 20

  /** Each pair (from, to) is a ladder when from < to and a snake otherwise. */
  const TRANSITIONS: seq<(int, int)> :=
    [(13, 4), (85, 17), (95, 67), (97, 58), (66, 89), (87, 31), (57, 83), (91, 25), (28, 50), (35, 11),
     (8, 30), (41, 62), (81, 43), (69, 32), (20, 39), (33, 70), (79, 99), (23, 76), (15, 47), (61, 14)]

  /** A board cell: its number (1 to 100) and the targets of its ladder and snake, `EMPTY` when absent. */
  datatype Cell = Cell(number: int, ladderTo: int, snakeTo: int)

  // ---------------------------------------------------------------------------
  // The transitions table
  // ---------------------------------------------------------------------------

  /** Every pair starts on a cell below the last one, ends on a board cell, and moves. */
  lemma TransitionInRange(k: nat)
    requires k < |TRANSITIONS|
    ensures |TRANSITIONS| == NUM_OF_TRANSITIONS
    ensures 1 <= TRANSITIONS[k].0 < BOARD_SIZE && 1 <= TRANSITIONS[k].1 <= BOARD_SIZE
    ensures TRANSITIONS[k].0 != TRANSITIONS[k].1
  {
  }

  /** No two pairs start on the same cell. */
  lemma TransitionsDistinct(i: nat, j: nat)
    requires i < j < |TRANSITIONS|
    ensures TRANSITIONS[i].0 != TRANSITIONS[j].0
  {
  }

  /** The ladder target cell `n` has once the first `k` pairs are applied (a later pair overwrites an earlier one). */
  function LadderAfter(k: nat, n: int): int
    requires k <= |TRANSITIONS|
  {
    if k == 0 then EMPTY
    else if TRANSITIONS[k - 1].0 == n && TRANSITIONS[k - 1].0 < TRANSITIONS[k - 1].1 then TRANSITIONS[k - 1].1
    else LadderAfter(k - 1, n)
  }

  /** The snake target cell `n` has once the first `k` pairs are applied. */
  function SnakeAfter(k: nat, n: int): int
    requires k <= |TRANSITIONS|
  {
    if k == 0 then EMPTY
    else if TRANSITIONS[k - 1].0 == n && !(TRANSITIONS[k - 1].0 < TRANSITIONS[k - 1].1) then TRANSITIONS[k - 1].1
    else SnakeAfter(k - 1, n)
  }

  /** Cell `n` of the board once the first `k` pairs are applied. */
  function CellAfter(k: nat, n: int): Cell
    requires k <= |TRANSITIONS|
  {
    Cell(n, LadderAfter(k, n), SnakeAfter(k, n))
  }

  /** Applying pair `i` changes only the cell it starts on, setting its ladder or its snake. */
  lemma CellAfterStep(i: nat, n: int)
    requires i < |TRANSITIONS|
    ensures CellAfter(i + 1, n) ==
      if TRANSITIONS[i].0 != n then CellAfter(i, n)
      else if TRANSITIONS[i].0 < TRANSITIONS[i].1 then CellAfter(i, n).(ladderTo := TRANSITIONS[i].1)
      else CellAfter(i, n).(snakeTo := TRANSITIONS[i].1)
  {
  }

  /** Cell `n` of the finished board. */
  function BoardCell(n: int): Cell {
    CellAfter(|TRANSITIONS|, n)
  }

  /** A cell no pair among the first `k` starts on keeps both targets `EMPTY`. */
  lemma {:induction false} CellAfterAbsent(k: nat, n: int)
    requires k <= |TRANSITIONS|
    requires forall i :: 0 <= i < k ==> TRANSITIONS[i].0 != n
    ensures CellAfter(k, n) == Cell(n, EMPTY, EMPTY)
    decreases k
  {
    if k > 0 {
      CellAfterAbsent(k - 1, n);
    }
  }

  /**
   * The cell pair `i` starts on gets that pair's target as its ladder (upwards)
   * or snake (downwards), and `EMPTY` for the other, whatever pairs follow.
   */
  lemma {:induction false} CellAfterPair(k: nat, i: nat)
    requires i < k <= |TRANSITIONS|
    ensures var (from, to) := TRANSITIONS[i];
      CellAfter(k, from) == if from < to then Cell(from, to, EMPTY) else Cell(from, EMPTY, to)
    decreases k
  {
    var from := TRANSITIONS[i].0;
    if i == k - 1 {
      forall j | 0 <= j < i
        ensures TRANSITIONS[j].0 != from
      {
        TransitionsDistinct(j, i);
      }
      CellAfterAbsent(i, from);
    } else {
      TransitionsDistinct(i, k - 1);
      CellAfterPair(k - 1, i);
    }
  }

  /** A cell that starts a ladder or snake has exactly that one jump. */
  lemma BoardCellJump(k: nat)
    requires k < |TRANSITIONS|
    ensures var (from, to) := TRANSITIONS[k];
      BoardCell(from) == if from < to then Cell(from, to, EMPTY) else Cell(from, EMPTY, to)
  {
    CellAfterPair(|TRANSITIONS|, k);
  }

  /** A cell no pair starts on has neither a ladder nor a snake. */
  lemma BoardCellPlain(n: int)
    requires forall i :: 0 <= i < |TRANSITIONS| ==> TRANSITIONS[i].0 != n
    ensures BoardCell(n) == Cell(n, EMPTY, EMPTY)
  {
    CellAfterAbsent(|TRANSITIONS|, n);
  }

  /**
   * Every cell has at most one of ladder and snake, each target is a board
   * cell, and the last cell has neither.
   */
  lemma BoardCellShape(n: int)
    ensures BoardCell(n).number == n
    ensures BoardCell(n).ladderTo == EMPTY || BoardCell(n).snakeTo == EMPTY
    ensures BoardCell(n).ladderTo != EMPTY ==> n < BoardCell(n).ladderTo <= BOARD_SIZE
    ensures BoardCell(n).snakeTo != EMPTY ==> 1 <= BoardCell(n).snakeTo < n
    ensures n == BOARD_SIZE ==> BoardCell(n) == Cell(n, EMPTY, EMPTY)
  {
    if k :| 0 <= k < |TRANSITIONS| && TRANSITIONS[k].0 == n {
      BoardCellJump(k);
      TransitionInRange(k);
    } else {
      BoardCellPlain(n);
    }
  }

  // ---------------------------------------------------------------------------
  // The behaviours handed to the engine
  // ---------------------------------------------------------------------------

  /** `comp_func`: the difference of the cell numbers, zero exactly for the same number. */
  function CompFunc(a: Cell, b: Cell): (r: int)
    ensures r == 0 <==> a.number == b.number
    ensures r < 0 <==> a.number < b.number
  {
    a.number - b.number
  }

  /** The engine's equality: `comp_func(a, b) == EXIT_SUCCESS`. */
  predicate SameCell(a: Cell, b: Cell) {
    CompFunc(a, b) == 0
  }

  /** `copy_func`: a field-by-field copy. */
  function CopyFunc(c: Cell): (r: Cell)
    ensures r == c
  {
    Cell(c.number, c.ladderTo, c.snakeTo)
  }

  /** `check_is_last`: only the cell numbered `BOARD_SIZE` ends a game. */
  predicate CheckIsLast(c: Cell) {
    c.number == BOARD_SIZE
  }

  /** On the board, the last cell, and no other, ends a walk; no other cell compares equal to a given one. */
  lemma BoardBehaviours(m: int, n: int)
    ensures CheckIsLast(BoardCell(n)) <==> n == BOARD_SIZE
    ensures SameCell(BoardCell(m), BoardCell(n)) <==> m == n
  {
    BoardCellShape(m);
    BoardCellShape(n);
  }

  /** The cell behaviours satisfy what the engine relies on. */
  lemma CellBehavioursLawful()
    ensures LawfulBehaviours(SameCell, CopyFunc)
  {
  }

  // ---------------------------------------------------------------------------
  // Rendering
  // ---------------------------------------------------------------------------

  function DigitChar(d: nat): (c: char)
    requires d < 10
    ensures '0' <= c <= '9'
  {
    ('0' as int + d) as char
  }

  function DigitValue(c: char): nat {
    if '0' <= c <= '9' then c as int - '0' as int else 0
  }

  /** `%d` of a non-negative number: its decimal digits, most significant first. */
  function NatToString(n: nat): (s: string)
    ensures |s| >= 1 && forall i :: 0 <= i < |s| ==> '0' <= s[i] <= '9'
    decreases n
  {
    if n < 10 then [DigitChar(n)] else NatToString(n / 10) + [DigitChar(n % 10)]
  }

  /** `%d` of any number: a minus sign before the digits of a negative one. */
  function IntToString(i: int): (s: string)
    ensures |s| >= 1 && forall k :: 0 <= k < |s| ==> s[k] != ']'
  {
    if i < 0 then "-" + NatToString(-i) else NatToString(i)
  }

  /** The value of a string of decimal digits. */
  function ParseNat(s: string): nat
    decreases |s|
  {
    if |s| == 0 then 0 else ParseNat(s[..|s| - 1]) * 10 + DigitValue(s[|s| - 1])
  }

  function ParseInt(s: string): int {
    if |s| > 0 && s[0] == '-' then 0 - ParseNat(s[1..]) else ParseNat(s)
  }

  lemma {:induction false} NatToStringParses(n: nat)
    ensures ParseNat(NatToString(n)) == n
    decreases n
  {
    if n >= 10 {
      NatToStringParses(n / 10);
      var s := NatToString(n);
      assert s[..|s| - 1] == NatToString(n / 10);
      assert DigitValue(s[|s| - 1]) == n % 10;
      assert (n / 10) * 10 + n % 10 == n;
    }
  }

  /** The number printed is the number read back. */
  lemma IntToStringParses(i: int)
    ensures ParseInt(IntToString(i)) == i
  {
    if i < 0 {
      NatToStringParses(-i);
      assert IntToString(i)[1..] == NatToString(-i);
    } else {
      NatToStringParses(i);
    }
  }

  /** What a rendered cell announces after its number. */
  datatype Kind = Final | Ladder | Snake | Plain

  /** The kind `print_func` reports, in its order of precedence: last cell, ladder, snake. */
  function KindOf(c: Cell): Kind {
    if c.number == BOARD_SIZE then Final
    else if c.ladderTo != EMPTY then Ladder
    else if c.snakeTo != EMPTY then Snake
    else Plain
  }

  function Arrow(k: Kind): string {
    match k
    case Final => ""
    case Ladder => " -ladder to->"
    case Snake => " -snake to->"
    case Plain => " ->"
  }

  /** `print_func`: the bracketed number, then the arrow of the cell's kind. */
  function PrintFunc(c: Cell): (r: string)
    ensures |r| >= 3 && r[0] == '['
    ensures KindOf(c) == Final <==> r[|r| - 1] == ']'
  {
    if c.number == BOARD_SIZE then "[" + IntToString(c.number) + "]"
    else if c.ladderTo != EMPTY then "[" + IntToString(c.number) + "] -ladder to->"
    else if c.snakeTo != EMPTY then "[" + IntToString(c.number) + "] -snake to->"
    else "[" + IntToString(c.number) + "] ->"
  }

  /** The first index at or after `i` holding `']'`, or `|s|`. */
  function CloseAt(s: string, i: nat): (p: nat)
    requires i <= |s|
    ensures i <= p <= |s| && (p < |s| ==> s[p] == ']')
    ensures forall k :: i <= k < p ==> s[k] != ']'
    decreases |s| - i
  {
    if i == |s| || s[i] == ']' then i else CloseAt(s, i + 1)
  }

  function KindOfArrow(a: string): Option<Kind> {
    if a == "" then Some(Final)
    else if a == " -ladder to->" then Some(Ladder)
    else if a == " -snake to->" then Some(Snake)
    else if a == " ->" then Some(Plain)
    else None
  }

  /** Reading a rendered cell back: the number between the brackets and the kind its arrow names. */
  function ReadCell(s: string): Option<(int, Kind)> {
    if |s| == 0 || s[0] != '[' then None
    else
      var p := CloseAt(s, 1);
      if p == |s| then None
      else match KindOfArrow(s[p + 1..])
        case None => None
        case Some(k) => Some((ParseInt(s[1..p]), k))
  }

  /** A bracketed text free of `']'`, followed by an arrow, reads back as that text and the arrow's kind. */
  lemma ReadBracketed(d: string, k: Kind)
    requires |d| >= 1 && forall i :: 0 <= i < |d| ==> d[i] != ']'
    ensures ReadCell("[" + d + "]" + Arrow(k)) == Some((ParseInt(d), k))
  {
    var s := "[" + d + "]" + Arrow(k);
    assert forall i :: 1 <= i < |d| + 1 ==> s[i] == d[i - 1];
    assert s[|d| + 1] == ']';
    assert CloseAt(s, 1) == |d| + 1;
    assert s[1..|d| + 1] == d;
    assert s[|d| + 2..] == Arrow(k);
  }

  /** A rendered cell reads back as its number and its kind. */
  lemma PrintFuncReadsBack(c: Cell)
    ensures ReadCell(PrintFunc(c)) == Some((c.number, KindOf(c)))
  {
    assert PrintFunc(c) == "[" + IntToString(c.number) + "]" + Arrow(KindOf(c));
    ReadBracketed(IntToString(c.number), KindOf(c));
    IntToStringParses(c.number);
  }

  // ---------------------------------------------------------------------------
  // Building the board and the chain
  // ---------------------------------------------------------------------------

  /** `create_board`: number the cells 1 to 100, then apply the pairs of `TRANSITIONS` in order. */
  method CreateBoard() returns (cells: array<Cell>)
    ensures fresh(cells) && cells.Length == BOARD_SIZE
    ensures forall i :: 0 <= i < BOARD_SIZE ==> cells[i] == BoardCell(i + 1)
  {
    cells := new Cell[BOARD_SIZE];
    for i := 0 to BOARD_SIZE
      invariant forall k :: 0 <= k < i ==> cells[k] == CellAfter(0, k + 1)
    {
      cells[i] := Cell(i + 1, EMPTY, EMPTY);
    }
    for i := 0 to NUM_OF_TRANSITIONS
      invariant forall k :: 0 <= k < BOARD_SIZE ==> cells[k] == CellAfter(i, k + 1)
    {
      TransitionInRange(i);
      var from := TRANSITIONS[i].0;
      var to := TRANSITIONS[i].1;
      if from < to {
        cells[from - 1] := cells[from - 1].(ladderTo := to);
      } else {
        cells[from - 1] := cells[from - 1].(snakeTo := to);
      }
      forall k | 0 <= k < BOARD_SIZE
        ensures cells[k] == CellAfter(i + 1, k + 1)
      {
        CellAfterStep(i, k + 1);
      }
    }
  }

  function Min(a: int, b: int): int {
    if a < b then a else b
  }

  /** `MAX(X, Y)` of the source. */
  function Max(a: int, b: int): int {
    if a < b then b else a
  }

  /**
   * The dice moves from plain cell `n`: one entry of count 1 for each of the
   * cells n + 1 to min(n + 6, 100), in that order (cell m is state m - 1).
   */
  function DiceTargets(n: int): (r: seq<Frequency>)
    requires 1 <= n <= BOARD_SIZE
    ensures |r| == Min(DICE_MAX, BOARD_SIZE - n)
    ensures forall j :: 0 <= j < |r| ==> r[j] == Frequency(n + j, 1)
  {
    seq(Min(DICE_MAX, BOARD_SIZE - n), j requires 0 <= j => Frequency(n + j, 1))
  }

  /**
   * The frequency list cell `n` ends up with: one entry of count 1 to the
   * target of its ladder or snake if it has one, its dice moves otherwise.
   */
  function Transitions(n: int): (r: seq<Frequency>)
    requires 1 <= n <= BOARD_SIZE
    ensures |r| <= DICE_MAX
    ensures forall j :: 0 <= j < |r| ==> r[j].frequency == 1
  {
    var c := BoardCell(n);
    BoardCellShape(n);
    if c.ladderTo != EMPTY then [Frequency(c.ladderTo - 1, 1)]
    else if c.snakeTo != EMPTY then [Frequency(c.snakeTo - 1, 1)]
    else DiceTargets(n)
  }

  /** The state database `fill_database_snakes` builds: cell n + 1 at position n, with its transitions. */
  ghost predicate IsBoardDatabase(db: seq<MarkovNode<Cell>>) {
    && |db| == BOARD_SIZE
    && forall i :: 0 <= i < BOARD_SIZE ==> db[i] == MarkovNode(BoardCell(i + 1), Transitions(i + 1))
  }

  /** A ladder or snake cell has the single transition to its target. */
  lemma JumpCellTransitions(k: nat)
    requires k < |TRANSITIONS|
    ensures 1 <= TRANSITIONS[k].0 <= BOARD_SIZE
    ensures Transitions(TRANSITIONS[k].0) == [Frequency(TRANSITIONS[k].1 - 1, 1)]
  {
    BoardCellJump(k);
    TransitionInRange(k);
  }

  /** A plain cell moves to each of the next six cells, up to the last; the last cell has no moves. */
  lemma PlainCellTransitions(n: int)
    requires 1 <= n <= BOARD_SIZE
    requires forall i :: 0 <= i < |TRANSITIONS| ==> TRANSITIONS[i].0 != n
    ensures Transitions(n) == DiceTargets(n)
    ensures n == BOARD_SIZE ==> Transitions(n) == []
  {
    BoardCellPlain(n);
  }

  /**
   * Every cell but the last has somewhere to go, with a count of 1 per
   * distinct target on the board.
   */
  lemma TransitionsWellFormed(n: int)
    requires 1 <= n <= BOARD_SIZE
    ensures WellFormedList(Transitions(n), BOARD_SIZE)
    ensures n < BOARD_SIZE <==> Transitions(n) != []
  {
    BoardCellShape(n);
  }

  /**
   * Since `EMPTY` is below every cell number, `MAX(snake_to, ladder_to)` of a
   * cell with a jump is the jump's target, a board cell.
   */
  lemma JumpChoice(n: int)
    requires 1 <= n <= BOARD_SIZE
    ensures var c := BoardCell(n);
      if c.snakeTo != EMPTY || c.ladderTo != EMPTY then
        1 <= Max(c.snakeTo, c.ladderTo) <= BOARD_SIZE && Transitions(n) == [Frequency(Max(c.snakeTo, c.ladderTo) - 1, 1)]
      else
        Transitions(n) == DiceTargets(n)
  {
    BoardCellShape(n);
  }

  /** The board's behaviours, as `create_chain` hands them to the engine. */
  method CreateChain() returns (chain: Chain<Cell>)
    ensures fresh(chain) && chain.Valid() && chain.database == []
    ensures chain.comp == SameCell && chain.copy == CopyFunc && chain.isLast == CheckIsLast && chain.render == PrintFunc
  {
    CellBehavioursLawful();
    chain := new Chain(SameCell, CopyFunc, CheckIsLast, PrintFunc);
  }

  /** The dice moves grow one cell at a time. */
  lemma DiceStep(n: int, j: nat)
    requires 1 <= n <= BOARD_SIZE && 1 <= j <= |DiceTargets(n)|
    ensures DiceTargets(n)[..j] == DiceTargets(n)[..j - 1] + [Frequency(n + j - 1, 1)]
    ensures IndexOfTarget(DiceTargets(n)[..j - 1], n + j - 1).None?
  {
    var d := DiceTargets(n);
    assert d[..j] == d[..j - 1] + [d[j - 1]];
  }

  lemma UpdateTwice<X>(s: seq<X>, i: nat, a: X, b: X)
    requires i < |s|
    ensures s[i := a][i := b] == s[i := b]
  {
  }

  /** Linking state `from` to a target it does not list yet appends one entry of count 1. */
  lemma LinkedFresh(db: seq<MarkovNode<Cell>>, from: nat, to: nat)
    requires from < |db|
    requires forall m :: 0 <= m < |db[from].frequencies| ==> db[from].frequencies[m].target != to
    ensures Linked(db, from, to) == db[from := MarkovNode(db[from].data, db[from].frequencies + [Frequency(to, 1)])]
  {
    RecordAbsent(db[from].frequencies, to);
  }

  /** Under the board's equality, the cell numbered n + 1 is found at position n. */
  lemma FindsCell(db: seq<MarkovNode<Cell>>, c: Cell)
    requires forall k :: 0 <= k < |db| ==> db[k].data.number == k + 1
    requires 1 <= c.number <= |db|
    ensures Find(db, SameCell, c) == Some(c.number - 1)
  {
    assert SameCell(db[c.number - 1].data, c);
  }

  /** The cells in board order, as `create_board` leaves them. */
  ghost predicate IsBoard(cells: array<Cell>)
    reads cells
  {
    cells.Length == BOARD_SIZE && forall i :: 0 <= i < BOARD_SIZE ==> cells[i] == BoardCell(i + 1)
  }

  /**
   * `fill_database_snakes`: add the 100 cells in order, then give each cell
   * its one jump, or one transition per dice value up to the last cell.
   */
  method FillDatabaseSnakes(chain: Chain<Cell>)
    requires chain.Valid() && chain.database == [] && chain.comp == SameCell && chain.copy == CopyFunc
    modifies chain
    ensures chain.Valid() && IsBoardDatabase(chain.database)
  {
    var cells := CreateBoard();
    AddCells(chain, cells);
    for i := 0 to BOARD_SIZE
      invariant chain.Valid() && |chain.database| == BOARD_SIZE
      invariant forall k :: 0 <= k < BOARD_SIZE ==> chain.database[k].data == BoardCell(k + 1)
      invariant forall k :: 0 <= k < i ==> chain.database[k].frequencies == Transitions(k + 1)
      invariant forall k :: i <= k < BOARD_SIZE ==> chain.database[k].frequencies == []
      invariant IsBoard(cells)
    {
      LinkCell(chain, cells, i);
    }
  }

  /** The first loop of `fill_database_snakes`: every cell, in order, becomes a new state. */
  method AddCells(chain: Chain<Cell>, cells: array<Cell>)
    requires chain.Valid() && chain.database == [] && chain.comp == SameCell && chain.copy == CopyFunc
    requires IsBoard(cells)
    modifies chain
    ensures chain.Valid() && |chain.database| == BOARD_SIZE
    ensures forall k :: 0 <= k < BOARD_SIZE ==> chain.database[k] == MarkovNode(BoardCell(k + 1), [])
  {
    for i := 0 to BOARD_SIZE
      invariant chain.Valid() && |chain.database| == i
      invariant forall k :: 0 <= k < i ==> chain.database[k] == MarkovNode(BoardCell(k + 1), [])
    {
      assert Find(chain.database, SameCell, cells[i]).None?;
      var _ := chain.AddToDatabase(cells[i]);
    }
  }

  /** `get_node_from_database(markov_chain, cells[i])` on the board database: cell i + 1 is state i. */
  method LookUpCell(chain: Chain<Cell>, cells: array<Cell>, i: nat) returns (state: nat)
    requires chain.comp == SameCell && IsBoard(cells) && i < BOARD_SIZE
    requires |chain.database| == BOARD_SIZE
    requires forall k :: 0 <= k < BOARD_SIZE ==> chain.database[k].data == BoardCell(k + 1)
    ensures state == i
  {
    FindsCell(chain.database, cells[i]);
    var node := chain.GetNodeFromDatabase(cells[i]);
    state := node.value;
  }

  /** One pass of the second loop of `fill_database_snakes`: the transitions of cell i + 1. */
  method LinkCell(chain: Chain<Cell>, cells: array<Cell>, i: nat)
    requires chain.Valid() && chain.comp == SameCell && IsBoard(cells) && i < BOARD_SIZE
    requires |chain.database| == BOARD_SIZE
    requires forall k :: 0 <= k < BOARD_SIZE ==> chain.database[k].data == BoardCell(k + 1)
    requires chain.database[i].frequencies == []
    modifies chain
    ensures chain.Valid()
    ensures chain.database == old(chain.database)[i := MarkovNode(BoardCell(i + 1), Transitions(i + 1))]
  {
    if cells[i].snakeTo != EMPTY || cells[i].ladderTo != EMPTY {
      LinkJump(chain, cells, i);
    } else {
      LinkDice(chain, cells, i);
    }
  }

  /** A ladder or snake cell: one transition, to the larger of its two targets (the other is `EMPTY`). */
  method LinkJump(chain: Chain<Cell>, cells: array<Cell>, i: nat)
    requires chain.Valid() && chain.comp == SameCell && IsBoard(cells) && i < BOARD_SIZE
    requires |chain.database| == BOARD_SIZE
    requires forall k :: 0 <= k < BOARD_SIZE ==> chain.database[k].data == BoardCell(k + 1)
    requires chain.database[i].frequencies == []
    requires cells[i].snakeTo != EMPTY || cells[i].ladderTo != EMPTY
    modifies chain
    ensures chain.Valid()
    ensures chain.database == old(chain.database)[i := MarkovNode(BoardCell(i + 1), Transitions(i + 1))]
  {
    var from := LookUpCell(chain, cells, i);
    JumpChoice(i + 1);
    var indexTo := Max(cells[i].snakeTo, cells[i].ladderTo) - 1;
    LinkTo(chain, cells, from, indexTo);
    assert [] + [Frequency(indexTo, 1)] == Transitions(i + 1);
  }

  /**
   * Looking up the cell at position `indexTo` and linking state `from` to it,
   * a target `from` does not list yet.
   */
  method LinkTo(chain: Chain<Cell>, cells: array<Cell>, from: nat, indexTo: nat)
    requires chain.Valid() && chain.comp == SameCell && IsBoard(cells)
    requires |chain.database| == BOARD_SIZE && from < BOARD_SIZE && indexTo < BOARD_SIZE
    requires forall k :: 0 <= k < BOARD_SIZE ==> chain.database[k].data == BoardCell(k + 1)
    requires IndexOfTarget(chain.database[from].frequencies, indexTo).None?
    modifies chain
    ensures chain.Valid()
    ensures chain.database ==
      old(chain.database)[from := MarkovNode(old(chain.database)[from].data, old(chain.database)[from].frequencies + [Frequency(indexTo, 1)])]
  {
    var to := LookUpCell(chain, cells, indexTo);
    LinkedFresh(chain.database, from, to);
    chain.AddNodeToFrequencyList(from, to);
  }

  /** The dice loop for plain cell i + 1: a transition to each of the next six cells, stopping at the last. */
  method LinkDice(chain: Chain<Cell>, cells: array<Cell>, i: nat)
    requires chain.Valid() && chain.comp == SameCell && IsBoard(cells) && i < BOARD_SIZE
    requires |chain.database| == BOARD_SIZE
    requires forall k :: 0 <= k < BOARD_SIZE ==> chain.database[k].data == BoardCell(k + 1)
    requires chain.database[i].frequencies == []
    requires cells[i].snakeTo == EMPTY && cells[i].ladderTo == EMPTY
    modifies chain
    ensures chain.Valid()
    ensures chain.database == old(chain.database)[i := MarkovNode(BoardCell(i + 1), Transitions(i + 1))]
  {
    ghost var db0 := chain.database;
    JumpChoice(i + 1);
    ghost var dice := DiceTargets(i + 1);
    var from := LookUpCell(chain, cells, i);
    assert db0 == db0[i := MarkovNode(BoardCell(i + 1), dice[..0])];
    for j := 1 to DICE_MAX + 1
      invariant chain.Valid() && j - 1 <= |dice|
      invariant chain.database == db0[i := MarkovNode(BoardCell(i + 1), dice[..j - 1])]
    {
      var indexTo := chain.database[from].data.number + j - 1;
      if indexTo >= BOARD_SIZE {
        assert dice[..j - 1] == dice;
        break;
      }
      DiceStep(i + 1, j);
      LinkTo(chain, cells, from, indexTo);
      UpdateTwice(db0, i, MarkovNode(BoardCell(i + 1), dice[..j - 1]), MarkovNode(BoardCell(i + 1), dice[..j]));
    }
    assert dice[..|dice|] == dice;
  }

  // ---------------------------------------------------------------------------
  // The game the chain plays
  // ---------------------------------------------------------------------------

  /** The board database satisfies the engine's invariants. */
  lemma BoardDatabaseInvariants(db: seq<MarkovNode<Cell>>)
    requires IsBoardDatabase(db)
    ensures WellFormedDatabase(db) && NoDuplicates(db, SameCell)
  {
    forall i | 0 <= i < |db|
      ensures WellFormedList(db[i].frequencies, |db|)
    {
      TransitionsWellFormed(i + 1);
    }
  }

  /**
   * A random walk on the board that stops before its length cap has reached
   * the last cell: no other cell ends the game, and every other cell has a move.
   */
  lemma BoardWalkReachesEnd(db: seq<MarkovNode<Cell>>, start: nat, maxLength: int, draws: seq<nat>, w: seq<nat>)
    requires IsBoardDatabase(db) && WellFormedDatabase(db) && start < |db| && maxLength - 1 <= |draws|
    requires w == Walk(db, CheckIsLast, start, maxLength, draws)
    ensures |w| < maxLength ==> db[w[|w| - 1]].data.number == BOARD_SIZE
  {
    BoardDatabaseInvariants(db);
    WalkStops(db, CheckIsLast, start, maxLength, draws, w);
    var last := w[|w| - 1];
    TransitionsWellFormed(last + 1);
  }
}
