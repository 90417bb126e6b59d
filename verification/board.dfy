/** The 3x3 board: a grid of cell values plus the counter of marked squares,
    winner detection in a fixed scan order, marking, and the list of empty
    squares in row-major order. */
module Boards {

  /** ROWS == COLS == 3. */
  const Size: nat := 3

  /** Number of squares on the board. */
  const CellCount: nat := 9

  /** Contents of a square: 0 is empty, 1 is X (the maximiser), 2 is O. */
  type Cell = c: int | 0 <= c <= 2

  /** The mark a player puts down. */
  type Player = p: int | p == 1 || p == 2 witness 1

  /** A row or column number. */
  type Coord = i: int | 0 <= i < Size

  /** A (row, col) pair. */
  datatype Square = Square(row: Coord, col: Coord)

  /** The squares, row after row: square (row, col) is at index Size * row + col. */
  type Grid = s: seq<Cell> | |s| == CellCount witness [0, 0, 0, 0, 0, 0, 0, 0, 0]

  /** `squares` is the grid, `marked` is the counter `marked_sqrs`. */
  datatype Board = Board(squares: Grid, marked: nat)

  /** Position of a square in the row-major layout. */
  function Index(sq: Square): (i: nat)
    ensures i < CellCount
  {
    Size * sq.row + sq.col
  }

  /** The square at a row-major position. */
  function SquareAt(i: nat): Square
    requires i < CellCount
  {
    Square(i / Size, i % Size)
  }

  /** SquareAt undoes Index. */
  lemma SquareAtIndex(sq: Square)
    ensures SquareAt(Index(sq)) == sq
  {
  }

  /** Index undoes SquareAt. */
  lemma IndexSquareAt(i: nat)
    requires i < CellCount
    ensures Index(SquareAt(i)) == i
  {
  }

  /** The value stored at a square. */
  function Get(b: Board, sq: Square): Cell
  {
    b.squares[Index(sq)]
  }

  /** A fresh board: every square empty and nothing marked (`Board.__init__`). */
  function EmptyBoard(): Board
  {
    Board([0, 0, 0, 0, 0, 0, 0, 0, 0], 0)
  }

  /** Number of cells of `s` holding `v`. */
  function CountOf(s: seq<Cell>, v: Cell): (n: nat)
    ensures n <= |s|
  {
    if |s| == 0 then 0
    else (if s[0] == v then 1 else 0) + CountOf(s[1..], v)
  }

  /** Overwriting one cell changes each count by the cell's old and new value only. */
  lemma {:induction false} CountOfUpdate(s: seq<Cell>, i: nat, x: Cell, v: Cell)
    requires i < |s|
    ensures CountOf(s[i := x], v)
            == CountOf(s, v) - (if s[i] == v then 1 else 0) + (if x == v then 1 else 0)
  {
    if i == 0 {
      assert s[i := x][1..] == s[1..];
    } else {
      assert s[i := x][1..] == s[1..][i - 1 := x];
      CountOfUpdate(s[1..], i - 1, x, v);
    }
  }

  /** The counter agrees with the grid: `marked_sqrs` is the number of non-zero cells. */
  predicate Consistent(b: Board)
  {
    b.marked + CountOf(b.squares, 0) == CellCount
  }

  // ---------------------------------------------------------------- lines

  /** Three squares that win when they hold the same mark. */
  datatype Line = Line(first: Square, second: Square, third: Square)

  function Column(c: Coord): Line
  {
    Line(Square(0, c), Square(1, c), Square(2, c))
  }

  function Row(r: Coord): Line
  {
    Line(Square(r, 0), Square(r, 1), Square(r, 2))
  }

  /** Top-left to bottom-right. */
  const MainDiagonal: Line := Line(Square(0, 0), Square(1, 1), Square(2, 2))

  /** Bottom-left to top-right; its first square is (2, 0). */
  const AntiDiagonal: Line := Line(Square(2, 0), Square(1, 1), Square(0, 2))

  /** Number of winning lines. */
  const LineCount: nat := 8

  /** The winning lines in the order `final_state` examines them:
      columns 0..2, rows 0..2, the main diagonal, the anti-diagonal. */
  function LineAt(k: nat): Line
    requires k < LineCount
  {
    if k < Size then Column(k)
    else if k < 2 * Size then Row(k - Size)
    else if k == 6 then MainDiagonal
    else AntiDiagonal
  }

  /** The three cells of `l` all hold `p`. */
  predicate Owns(b: Board, l: Line, p: Cell)
  {
    Get(b, l.first) == p && Get(b, l.second) == p && Get(b, l.third) == p
  }

  /** The test `a == b == c != 0` that `final_state` applies to a line. */
  predicate Complete(b: Board, l: Line)
  {
    Get(b, l.first) == Get(b, l.second) && Get(b, l.second) == Get(b, l.third) && Get(b, l.third) != 0
  }

  /** Player `p` has three in a row somewhere. */
  predicate HasLine(b: Board, p: Player)
  {
    exists k :: 0 <= k < LineCount && Owns(b, LineAt(k), p)
  }

  // ---------------------------------------------------------- final_state

  /** The `for col in range(COLS)` loop of `final_state`, from column `col` on. */
  function ScanColumns(b: Board, col: nat): Cell
    requires col <= Size
    decreases Size - col
  {
    if col == Size then 0
    else if Complete(b, Column(col)) then Get(b, Column(col).first)
    else ScanColumns(b, col + 1)
  }

  /** The column loop returns the mark on the first complete column from
      `col` on, and 0 exactly when there is none. */
  lemma {:induction false} ScanColumnsFindsFirst(b: Board, col: nat)
    requires col <= Size
    ensures ScanColumns(b, col) != 0 ==>
              exists k :: col <= k < Size && Owns(b, LineAt(k), ScanColumns(b, col))
                          && forall j :: col <= j < k ==> !Complete(b, LineAt(j))
    ensures ScanColumns(b, col) == 0 ==> forall k :: col <= k < Size ==> !Complete(b, LineAt(k))
    decreases Size - col
  {
    if col < Size {
      assert LineAt(col) == Column(col);
      ScanColumnsFindsFirst(b, col + 1);
    }
  }

  /** The `for row in range(ROWS)` loop of `final_state`, from row `row` on. */
  function ScanRows(b: Board, row: nat): Cell
    requires row <= Size
    decreases Size - row
  {
    if row == Size then 0
    else if Complete(b, Row(row)) then Get(b, Row(row).first)
    else ScanRows(b, row + 1)
  }

  /** The row loop returns the mark on the first complete row from `row`
      on, and 0 exactly when there is none. */
  lemma {:induction false} ScanRowsFindsFirst(b: Board, row: nat)
    requires row <= Size
    ensures ScanRows(b, row) != 0 ==>
              exists k :: Size + row <= k < 2 * Size && Owns(b, LineAt(k), ScanRows(b, row))
                          && forall j :: Size + row <= j < k ==> !Complete(b, LineAt(j))
    ensures ScanRows(b, row) == 0 ==> forall k :: Size + row <= k < 2 * Size ==> !Complete(b, LineAt(k))
    decreases Size - row
  {
    if row < Size {
      assert LineAt(Size + row) == Row(row);
      ScanRowsFindsFirst(b, row + 1);
    }
  }

  /** `final_state` without drawing: columns, then rows, then the main
      diagonal, then the anti-diagonal; the mark on the first complete line. */
  function FinalState(b: Board): Cell
  {
    if ScanColumns(b, 0) != 0 then ScanColumns(b, 0)
    else if ScanRows(b, 0) != 0 then ScanRows(b, 0)
    else if Complete(b, MainDiagonal) then Get(b, MainDiagonal.first)
    else if Complete(b, AntiDiagonal) then Get(b, AntiDiagonal.first)
    else 0
  }

  /** `final_state` reports the owner of the first complete line in scan
      order, and 0 exactly when no line is complete. */
  lemma FinalStateFirstCompleteLine(b: Board)
    ensures FinalState(b) != 0 ==>
              exists k :: 0 <= k < LineCount && Owns(b, LineAt(k), FinalState(b))
                          && forall j :: 0 <= j < k ==> !Complete(b, LineAt(j))
    ensures FinalState(b) == 0 <==> forall k :: 0 <= k < LineCount ==> !Complete(b, LineAt(k))
  {
    ScanColumnsFindsFirst(b, 0);
    ScanRowsFindsFirst(b, 0);
    assert LineAt(2 * Size) == MainDiagonal;
    assert LineAt(2 * Size + 1) == AntiDiagonal;
  }

  /** Whoever `final_state` reports owns a line; it reports 0 exactly when
      nobody does; and a player who alone owns a line is the one reported. */
  lemma FinalStateNamesTheWinner(b: Board, p: Player)
    ensures FinalState(b) == p ==> HasLine(b, p)
    ensures FinalState(b) == 0 <==> !HasLine(b, 1) && !HasLine(b, 2)
    ensures HasLine(b, p) && !HasLine(b, 3 - p) ==> FinalState(b) == p
  {
    FinalStateFirstCompleteLine(b);
    var w := FinalState(b);
    if w == 0 {
      forall k | 0 <= k < LineCount
        ensures !Owns(b, LineAt(k), 1) && !Owns(b, LineAt(k), 2)
      {
        assert !Complete(b, LineAt(k));
      }
    } else {
      var k :| 0 <= k < LineCount && Owns(b, LineAt(k), w);
      assert HasLine(b, w);
    }
    if HasLine(b, 1) || HasLine(b, 2) {
      var q: Player := if HasLine(b, 1) then 1 else 2;
      var k :| 0 <= k < LineCount && Owns(b, LineAt(k), q);
      assert Complete(b, LineAt(k));
    }
  }

  // ------------------------------------------------------- marking, emptiness

  /** `empty_sqr`. */
  predicate EmptySqr(b: Board, sq: Square)
  {
    Get(b, sq) == 0
  }

  /** `mark_sqr`: writes `player` into one square and bumps the counter. The
      square is not required to be empty; only then does the counter stay
      in step with the grid. */
  function MarkSqr(b: Board, sq: Square, player: Player): (r: Board)
    ensures Get(r, sq) == player
    ensures r.marked == b.marked + 1
    ensures CountOf(r.squares, 0) == CountOf(b.squares, 0) - (if EmptySqr(b, sq) then 1 else 0)
    ensures EmptySqr(b, sq) && Consistent(b) ==> Consistent(r)
    ensures !EmptySqr(b, sq) ==> !Consistent(b) || !Consistent(r)
  {
    CountOfUpdate(b.squares, Index(sq), player, 0);
    Board(b.squares[Index(sq) := player], b.marked + 1)
  }

  /** `mark_sqr` touches one square only: every other square keeps its value. */
  lemma MarkSqrFrame(b: Board, sq: Square, player: Player, other: Square)
    requires other != sq
    ensures Get(MarkSqr(b, sq, player), other) == Get(b, other)
  {
  }

  /** The empty squares of the cells `s`, the first of which sits at
      row-major position `base`, in the order the cells come. */
  function EmptyIn(s: seq<Cell>, base: nat): seq<Square>
    requires base + |s| <= CellCount
    decreases |s|
  {
    if s == [] then []
    else (if s[0] == 0 then [SquareAt(base)] else []) + EmptyIn(s[1..], base + 1)
  }

  /** EmptyIn lists only squares of `s` whose cell is empty. */
  lemma {:induction false} EmptyInSound(s: seq<Cell>, base: nat)
    requires base + |s| <= CellCount
    ensures forall j :: 0 <= j < |EmptyIn(s, base)| ==>
              base <= Index(EmptyIn(s, base)[j]) < base + |s| && s[Index(EmptyIn(s, base)[j]) - base] == 0
    decreases |s|
  {
    if s != [] {
      EmptyInSound(s[1..], base + 1);
      IndexSquareAt(base);
    }
  }

  /** EmptyIn lists one square per empty cell. */
  lemma {:induction false} EmptyInCount(s: seq<Cell>, base: nat)
    requires base + |s| <= CellCount
    ensures |EmptyIn(s, base)| == CountOf(s, 0)
    decreases |s|
  {
    if s != [] {
      EmptyInCount(s[1..], base + 1);
    }
  }

  /** EmptyIn lists squares in strictly increasing row-major order. */
  lemma {:induction false} EmptyInOrder(s: seq<Cell>, base: nat)
    requires base + |s| <= CellCount
    ensures forall j, k :: 0 <= j < k < |EmptyIn(s, base)| ==> Index(EmptyIn(s, base)[j]) < Index(EmptyIn(s, base)[k])
    decreases |s|
  {
    if s != [] {
      EmptyInOrder(s[1..], base + 1);
      EmptyInSound(s[1..], base + 1);
      IndexSquareAt(base);
    }
  }

  /** Every empty cell of `s` has its square listed by EmptyIn. */
  lemma {:induction false} EmptyInComplete(s: seq<Cell>, base: nat, x: nat)
    requires base + |s| <= CellCount
    requires base <= x < base + |s|
    requires s[x - base] == 0
    ensures SquareAt(x) in EmptyIn(s, base)
    decreases |s|
  {
    var head := if s[0] == 0 then [SquareAt(base)] else [];
    assert EmptyIn(s, base) == head + EmptyIn(s[1..], base + 1);
    if x == base {
      assert EmptyIn(s, base)[0] == SquareAt(x);
    } else {
      EmptyInComplete(s[1..], base + 1, x);
    }
  }

  /** `get_empty_sqrs`: empty squares only, one per zero cell of the grid. */
  function EmptySqrs(b: Board): (r: seq<Square>)
    ensures forall j :: 0 <= j < |r| ==> EmptySqr(b, r[j])
    ensures |r| == CountOf(b.squares, 0)
  {
    EmptyInSound(b.squares, 0);
    EmptyInCount(b.squares, 0);
    EmptyIn(b.squares, 0)
  }

  /** `get_empty_sqrs` lists the squares in strictly increasing row-major
      order, the order of its nested comprehension, so without repetition. */
  lemma EmptySqrsInOrder(b: Board)
    ensures forall j, k :: 0 <= j < k < |EmptySqrs(b)| ==> Index(EmptySqrs(b)[j]) < Index(EmptySqrs(b)[k])
  {
    EmptyInOrder(b.squares, 0);
  }

  /** `get_empty_sqrs` misses no empty square: a square is listed exactly
      when it is empty. */
  lemma EmptySqrsExactlyTheEmpty(b: Board, sq: Square)
    ensures sq in EmptySqrs(b) <==> EmptySqr(b, sq)
  {
    var r := EmptySqrs(b);
    if EmptySqr(b, sq) {
      SquareAtIndex(sq);
      EmptyInComplete(b.squares, 0, Index(sq));
    }
    if sq in r {
      var j :| 0 <= j < |r| && r[j] == sq;
    }
  }

  /** `is_full`: looks only at the counter; on a consistent board that means
      the list of empty squares is empty. */
  function IsFull(b: Board): (r: bool)
    ensures Consistent(b) ==> (r <==> EmptySqrs(b) == [])
  {
    b.marked == CellCount
  }

  /** On a consistent board `is_full` holds exactly when no square is empty. */
  lemma IsFullIffNoEmptySquare(b: Board)
    requires Consistent(b)
    ensures IsFull(b) <==> forall sq :: !EmptySqr(b, sq)
  {
    if !IsFull(b) {
      var sq := EmptySqrs(b)[0];
      assert EmptySqr(b, sq);
    } else {
      forall sq ensures !EmptySqr(b, sq) {
        EmptySqrsExactlyTheEmpty(b, sq);
      }
    }
  }
}
