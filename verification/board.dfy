/**
  A Connect Four board: a cols x rows grid of pieces indexed [column][row] with row 0 at
  the bottom, the height of each column, the number of pieces played, the won flag, the
  stack of turns (the most recent last) and the line handler that scores the position.
 */
module Boards {
  import opened Pieces
  import opened Lines
  import opened LineIndex
  import opened LineHandlers

  /** The game tree's value for a board won by player one (Java's Integer.MAX_VALUE). */
  const P1_WIN: int := 0x7fff_ffff
  /** The game tree's value for a board won by player two (Java's Integer.MIN_VALUE). */
  const P2_WIN: int := -0x8000_0000

  /** Weight of the difference in open lines against the difference in values. */
  const OPEN_WEIGHT: int := 10000

  datatype Board = Board(
    cols: nat, rows: nat,
    grid: seq<seq<Piece>>,
    heights: seq<int>,
    count: int,
    won: bool,
    turns: seq<Piece>,
    handler: LineHandler)

  /** The dimensions of the grid, the heights and the handler agree with cols and rows. */
  predicate Shape(b: Board)
  {
    && GridShape(b.grid, b.cols, b.rows)
    && |b.heights| == b.cols
    && b.handler.cols == b.cols && b.handler.rows == b.rows
    && b.handler.WellFormed()
  }

  // ---------------------------------------------------------------------------
  // Construction

  /** Every cell holds an Empty that remembers its own position. */
  function InitGrid(cols: nat, rows: nat): seq<seq<Piece>>
  {
    seq(cols, c => seq(rows, r => Empty(c, r)))
  }

  /** A cols x rows board before any move; the stack starts with a Player2 so that player one moves first. */
  function NewBoard(cols: nat, rows: nat): Board
  {
    Board(cols, rows, InitGrid(cols, rows), seq(cols, _ => 0), 0, false, [NewPlayer2()], NewHandler(cols, rows))
  }

  /** The standard board: 7 columns, 6 rows. */
  function DefaultBoard(): Board
  {
    NewBoard(7, 6)
  }

  // ---------------------------------------------------------------------------
  // Queries

  function LastPiece(b: Board): Piece
    requires |b.turns| > 0
  {
    b.turns[|b.turns| - 1]
  }

  predicate IsFull(b: Board, col: int)
    requires Shape(b) && 0 <= col < b.cols
  {
    b.heights[col] == b.rows
  }

  predicate GameWon(b: Board)
  {
    b.won
  }

  predicate FullBoard(b: Board)
  {
    b.count == b.rows * b.cols
  }

  /** The piece in a cell, or OutOfBounds for a cell off the board. */
  function PieceAt(b: Board, col: int, row: int): (p: Piece)
    requires Shape(b)
    ensures p.OutOfBounds? <==> !InGrid(b.cols, b.rows, (col, row)) || b.grid[col][row].OutOfBounds?
    ensures InGrid(b.cols, b.rows, (col, row)) ==> p == b.grid[col][row]
  {
    if col < 0 || col >= b.cols || row < 0 || row >= b.rows then OutOfBounds
    else b.grid[col][row]
  }

  // ---------------------------------------------------------------------------
  // Moves

  /**
    Drops piece p into column col. A full column leaves the board as it is and answers false;
    otherwise the piece lands on top of the column, takes that cell as its position, is pushed
    on the stack and scored by the lines, and the answer is true.
   */
  function Place(b: Board, p: Piece, col: int): (r: (Board, bool))
    requires Shape(b) && 0 <= col < b.cols && 0 <= b.heights[col] <= b.rows
    ensures Shape(r.0) && r.0.cols == b.cols && r.0.rows == b.rows
  {
    if IsFull(b, col) then (b, false)
    else
      var row := b.heights[col];
      var q := SetPosition(p, col, row);
      var (h', win) := PlacePiece(b.handler, q, col, row);
      (b.(grid := b.grid[col := b.grid[col][row := q]],
          heights := b.heights[col := row + 1],
          count := b.count + 1,
          turns := b.turns + [q],
          handler := h',
          won := b.won || win), true)
  }

  /** The top of the stack can be taken back: it remembers a position on the board. */
  predicate CanUndo(b: Board)
  {
    |b.turns| > 0 && InGrid(b.cols, b.rows, (GetCol(LastPiece(b)), GetRow(LastPiece(b))))
  }

  /**
    Takes back the last turn: clears the won flag, pops the piece, lowers its column, puts a
    fresh Empty (at the default position) in its cell and removes it from the lines.
   */
  function Undo(b: Board): (b': Board)
    requires Shape(b) && CanUndo(b)
    ensures Shape(b') && b'.cols == b.cols && b'.rows == b.rows
  {
    var p := LastPiece(b);
    var col, row := GetCol(p), GetRow(p);
    b.(won := false,
       turns := b.turns[..|b.turns| - 1],
       heights := b.heights[col := b.heights[col] - 1],
       grid := b.grid[col := b.grid[col][row := NewEmpty()]],
       handler := RemovePiece(b.handler, p, col, row),
       count := b.count - 1)
  }

  // ---------------------------------------------------------------------------
  // Rendering

  /** A grid of the given dimensions, indexed [column][row]. */
  predicate GridShape(grid: seq<seq<Piece>>, cols: nat, rows: nat)
  {
    |grid| == cols && forall c :: 0 <= c < cols ==> |grid[c]| == rows
  }

  /** Row r from column c rightwards, each cell's tag followed by a space. */
  function RowString(grid: seq<seq<Piece>>, cols: nat, rows: nat, r: int, c: nat): string
    requires GridShape(grid, cols, rows) && 0 <= r < rows && c <= cols
    decreases cols - c
  {
    if c == cols then "" else Tag(grid[c][r]) + " " + RowString(grid, cols, rows, r, c + 1)
  }

  /** Rows r, r - 1, ..., 0, each on its own line. */
  function RowsFrom(grid: seq<seq<Piece>>, cols: nat, rows: nat, r: int): string
    requires GridShape(grid, cols, rows) && r < rows
    decreases r + 1
  {
    if r < 0 then "" else RowString(grid, cols, rows, r, 0) + "\n" + RowsFrom(grid, cols, rows, r - 1)
  }

  /** The board as text, the highest row first. */
  function BoardAsString(b: Board): string
    requires Shape(b)
  {
    RowsFrom(b.grid, b.cols, b.rows, b.rows as int - 1)
  }

  // ---------------------------------------------------------------------------
  // Evaluation

  /** The heuristic: open lines weigh 10000 times as much as pieces in open lines. */
  function Heuristic(h: LineHandler): int
  {
    (h.p1opps - h.p2opps) * OPEN_WEIGHT + (h.p1val - h.p2val)
  }

  /**
    A won board is worth the winner's sentinel; any other board is worth the heuristic,
    higher being better for player one.
   */
  function Evaluate(b: Board): int
    requires b.won ==> |b.turns| > 0
  {
    if b.won && Tag(LastPiece(b)) == "P1" then P1_WIN
    else if b.won && Tag(LastPiece(b)) == "P2" then P2_WIN
    else Heuristic(b.handler)
  }

  // ---------------------------------------------------------------------------
  // Invariants and equivalence

  function SumSeq(s: seq<int>): int
  {
    if |s| == 0 then 0 else s[0] + SumSeq(s[1..])
  }

  /** 1 when cell x holds a player's piece counted for side s, 0 otherwise. */
  function Holds(b: Board, x: Cell, s: Side): nat
    requires Shape(b)
  {
    if InGrid(b.cols, b.rows, x) && IsPlayer(b.grid[x.0][x.1]) && SideOf(b.grid[x.0][x.1]) == s then 1 else 0
  }

  /** The number of side s's pieces in the four cells of line d. */
  function Occupancy(b: Board, d: LineDef, s: Side): nat
    requires Shape(b)
  {
    Holds(b, CellAt(d, 0), s) + Holds(b, CellAt(d, 1), s) + Holds(b, CellAt(d, 2), s) + Holds(b, CellAt(d, 3), s)
  }

  /** Each line's counters are the numbers of each side's pieces in its cells. */
  predicate LinesMatch(b: Board)
    requires Shape(b)
  {
    forall i :: 0 <= i < |b.handler.lines| ==>
      b.handler.lines[i] == Line(Occupancy(b, AllLines(b.cols, b.rows)[i], SideP1), Occupancy(b, AllLines(b.cols, b.rows)[i], SideP2))
  }

  /** Every column holds players from the bottom up to its height and Empty pieces above. */
  predicate Stacked(b: Board)
    requires Shape(b)
  {
    && (forall c :: 0 <= c < b.cols ==> 0 <= b.heights[c] <= b.rows)
    && (forall c, r :: 0 <= c < b.cols && 0 <= r < b.rows ==>
          (r < b.heights[c] ==> IsPlayer(b.grid[c][r])) && (r >= b.heights[c] ==> b.grid[c][r].Empty?))
  }

  /** What holds of every board reached from a new board by moves of the two players. */
  predicate Inv(b: Board)
  {
    && Shape(b)
    && Stacked(b)
    && b.count == SumSeq(b.heights)
    && |b.turns| > 0
    && Consistent(b.handler)
    && LinesMatch(b)
  }

  /** Pieces compared as the game sees them: the position an Empty remembers is ignored. */
  function Norm(p: Piece): Piece
  {
    if p.Empty? then NewEmpty() else p
  }

  predicate GridEquivalent(g1: seq<seq<Piece>>, g2: seq<seq<Piece>>)
  {
    && |g1| == |g2|
    && (forall c :: 0 <= c < |g1| ==> |g1[c]| == |g2[c]|)
    && (forall c, r :: 0 <= c < |g1| && 0 <= r < |g1[c]| && r < |g2[c]| ==> Norm(g1[c][r]) == Norm(g2[c][r]))
  }

  /** Two boards that differ at most in the positions remembered by Empty pieces. */
  predicate Equivalent(b1: Board, b2: Board)
  {
    && b1.cols == b2.cols && b1.rows == b2.rows
    && GridEquivalent(b1.grid, b2.grid)
    && b1.heights == b2.heights && b1.count == b2.count && b1.won == b2.won
    && b1.turns == b2.turns && b1.handler == b2.handler
  }
}
