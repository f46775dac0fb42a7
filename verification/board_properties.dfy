/**
  What the board promises: a new board, placing, taking back, reading cells, the invariant
  every reachable board keeps, and the range of the evaluation.
 */
module BoardProperties {
  import opened Pieces
  import opened Lines
  import opened LineIndex
  import opened LineHandlers
  import opened Boards

  // ---------------------------------------------------------------------------
  // Sums of heights

  lemma {:induction false} SumSeqUpdate(s: seq<int>, i: int, v: int)
    requires 0 <= i < |s|
    ensures SumSeq(s[i := v]) == SumSeq(s) - s[i] + v
  {
    if i == 0 {
      assert s[i := v][1..] == s[1..];
    } else {
      assert s[i := v][1..] == s[1..][i - 1 := v];
      SumSeqUpdate(s[1..], i - 1, v);
    }
  }

  /** Heights between 0 and m add up to at most m per column, and to exactly that only when every column is at m. */
  lemma {:induction false} SumSeqBound(s: seq<int>, m: int)
    requires forall i :: 0 <= i < |s| ==> 0 <= s[i] <= m
    ensures 0 <= SumSeq(s) <= m * |s|
    ensures SumSeq(s) == m * |s| ==> forall i :: 0 <= i < |s| ==> s[i] == m
  {
    if |s| > 0 {
      SumSeqBound(s[1..], m);
      assert m * |s| == m * (|s| - 1) + m;
      if SumSeq(s) == m * |s| {
        forall i | 0 <= i < |s| ensures s[i] == m {
          if i > 0 {
            assert s[i] == s[1..][i - 1];
          }
        }
      }
    }
  }

  lemma {:induction false} SumSeqZeros(n: nat)
    ensures SumSeq(seq(n, _ => 0)) == 0
  {
    if n > 0 {
      assert seq(n, _ => 0)[1..] == seq(n - 1, _ => 0);
      SumSeqZeros(n - 1);
    }
  }

  // ---------------------------------------------------------------------------
  // A new board

  /**
    A new board: every cell Empty (remembering its own position), every height 0, no piece
    played, not won, a Player2 on top of the stack.
   */
  lemma NewBoardSpec(cols: nat, rows: nat)
    ensures Shape(NewBoard(cols, rows))
    ensures forall c, r :: 0 <= c < cols && 0 <= r < rows ==> NewBoard(cols, rows).grid[c][r] == Empty(c, r)
    ensures forall c :: 0 <= c < cols ==> NewBoard(cols, rows).heights[c] == 0
    ensures NewBoard(cols, rows).count == 0 && !GameWon(NewBoard(cols, rows))
    ensures LastPiece(NewBoard(cols, rows)) == NewPlayer2()
  {
    NewHandlerSpec(cols, rows);
  }

  lemma NewBoardShape(cols: nat, rows: nat)
    ensures Shape(NewBoard(cols, rows))
  {
    NewHandlerSpec(cols, rows);
  }

  lemma NewHolds(cols: nat, rows: nat, x: Cell, s: Side)
    requires Shape(NewBoard(cols, rows))
    ensures Holds(NewBoard(cols, rows), x, s) == 0
  {
  }

  /** A new board satisfies the board invariant. */
  lemma NewBoardInv(cols: nat, rows: nat)
    ensures Inv(NewBoard(cols, rows))
  {
    var b := NewBoard(cols, rows);
    NewHandlerSpec(cols, rows);
    SumSeqZeros(cols);
    forall i | 0 <= i < |b.handler.lines|
      ensures b.handler.lines[i] == Line(Occupancy(b, AllLines(cols, rows)[i], SideP1), Occupancy(b, AllLines(cols, rows)[i], SideP2))
    {
      var d := AllLines(cols, rows)[i];
      NewHolds(cols, rows, CellAt(d, 0), SideP1);
      NewHolds(cols, rows, CellAt(d, 1), SideP1);
      NewHolds(cols, rows, CellAt(d, 2), SideP1);
      NewHolds(cols, rows, CellAt(d, 3), SideP1);
      NewHolds(cols, rows, CellAt(d, 0), SideP2);
      NewHolds(cols, rows, CellAt(d, 1), SideP2);
      NewHolds(cols, rows, CellAt(d, 2), SideP2);
      NewHolds(cols, rows, CellAt(d, 3), SideP2);
    }
  }

  /** `n` copies of `s`, one after the other: the picture of an empty row, and of an empty board. */
  function Repeat<T>(s: seq<T>, n: nat): seq<T>
  {
    if n == 0 then [] else s + Repeat(s, n - 1)
  }

  lemma {:induction false} NewRowString(cols: nat, rows: nat, r: int, c: nat)
    requires 0 <= r < rows && c <= cols
    ensures GridShape(InitGrid(cols, rows), cols, rows)
    ensures RowString(InitGrid(cols, rows), cols, rows, r, c) == Repeat("__ ", cols - c)
    decreases cols - c
  {
    if c < cols {
      NewRowString(cols, rows, r, c + 1);
    }
  }

  lemma {:induction false} NewRowsFrom(cols: nat, rows: nat, r: int)
    requires -1 <= r < rows
    ensures GridShape(InitGrid(cols, rows), cols, rows)
    ensures RowsFrom(InitGrid(cols, rows), cols, rows, r) == Repeat(Repeat("__ ", cols) + "\n", r + 1)
    decreases r + 1
  {
    if r >= 0 {
      NewRowString(cols, rows, r, 0);
      NewRowsFrom(cols, rows, r - 1);
    }
  }

  /** A new board renders as `rows` lines of `cols` empty cells ("__ " each), the Tester's expected picture. */
  lemma NewBoardRender(cols: nat, rows: nat)
    ensures Shape(NewBoard(cols, rows))
    ensures BoardAsString(NewBoard(cols, rows)) == Repeat(Repeat("__ ", cols) + "\n", rows)
  {
    NewBoardShape(cols, rows);
    NewRowsFrom(cols, rows, rows as int - 1);
  }

  // ---------------------------------------------------------------------------
  // Placing and taking back

  /** Placing in a full column changes nothing and answers false. */
  lemma PlaceFull(b: Board, p: Piece, col: int)
    requires Shape(b) && 0 <= col < b.cols && 0 <= b.heights[col] <= b.rows
    requires IsFull(b, col)
    ensures Place(b, p, col) == (b, false)
  {
  }

  /**
    Placing in a column that is not full answers true; the piece lands at row = old height,
    remembers that cell, and becomes the last piece; the height and the count rise by one and
    no other cell changes. The board is won afterwards exactly when it was already won or a
    line through the cell held three pieces of the placer's side.
   */
  lemma PlaceSpec(b: Board, p: Piece, col: int)
    requires Shape(b) && 0 <= col < b.cols && 0 <= b.heights[col] < b.rows
    ensures var (b', ok) := Place(b, p, col);
            var row := b.heights[col];
            && ok
            && b'.grid[col][row] == SetPosition(p, col, row) && LastPiece(b') == SetPosition(p, col, row)
            && b'.heights == b.heights[col := row + 1] && b'.count == b.count + 1
            && b'.turns == b.turns + [SetPosition(p, col, row)]
            && (forall c, r :: 0 <= c < b.cols && 0 <= r < b.rows && (c, r) != (col, row) ==> b'.grid[c][r] == b.grid[c][r])
            && (b'.won <==> b.won || Completes(b.handler.lines, CellIds(b.handler, col, row), SetPosition(p, col, row)))
  {
    var row := b.heights[col];
    PlaceWin(b.handler, SetPosition(p, col, row), col, row);
    var b' := Place(b, p, col).0;
    assert b'.turns == b.turns + [SetPosition(p, col, row)];
  }

  /**
    Taking back the piece just placed gives back the board (up to the position an Empty
    remembers), with the won flag cleared: same cells as far as the game can tell, same
    heights, count, stack and line handler.
   */
  lemma UndoAfterPlace(b: Board, p: Piece, col: int)
    requires Shape(b) && 0 <= col < b.cols && 0 <= b.heights[col] < b.rows
    requires b.grid[col][b.heights[col]].Empty? && !p.OutOfBounds?
    ensures CanUndo(Place(b, p, col).0)
    ensures Equivalent(Undo(Place(b, p, col).0), b.(won := false))
    ensures Undo(Place(b, p, col).0).handler == b.handler
  {
    var row := b.heights[col];
    var q := SetPosition(p, col, row);
    var b1 := Place(b, p, col).0;
    assert LastPiece(b1) == q;
    assert CanUndo(b1);
    var b2 := Undo(b1);
    PlaceRemoveRoundTrip(b.handler, q, col, row);
    assert b2.handler == b.handler;
    assert b2.turns == b.turns;
    assert b2.heights == b.heights;
    assert b2.count == b.count;
    assert b2.grid == ClearCell(SetCell(b.grid, col, row, q), col, row);
    RestoreCell(b.grid, b.cols, b.rows, col, row, q);
  }

  /**
    Undo does not check for the sentinel: with only the Player2 at (0, 0) on the stack it pops
    it all the same, so column 0's height and the count drop by one and the stack is left empty.
   */
  lemma UndoSentinel(b: Board)
    requires Shape(b) && b.cols > 0 && b.rows > 0 && b.turns == [NewPlayer2()]
    ensures CanUndo(b)
    ensures var u := Undo(b);
            u.heights[0] == b.heights[0] - 1 && u.count == b.count - 1 && |u.turns| == 0 && !u.won
  {
  }

  /** On a new board, undo drops column 0's height and the count to -1. */
  lemma UndoNewBoard(cols: nat, rows: nat)
    requires cols > 0 && rows > 0
    ensures Shape(NewBoard(cols, rows)) && CanUndo(NewBoard(cols, rows))
    ensures var u := Undo(NewBoard(cols, rows));
            u.heights[0] == -1 && u.count == -1 && |u.turns| == 0 && !u.won
  {
    var b := NewBoard(cols, rows);
    NewBoardSpec(cols, rows);
    assert b.heights[0] == 0 && b.count == 0 && b.turns == [NewPlayer2()];
    UndoSentinel(b);
  }

  /** Taking back the piece just placed leaves the rendering as it was. */
  lemma UndoAfterPlaceRender(b: Board, p: Piece, col: int)
    requires Shape(b) && 0 <= col < b.cols && 0 <= b.heights[col] < b.rows
    requires b.grid[col][b.heights[col]].Empty? && !p.OutOfBounds?
    ensures CanUndo(Place(b, p, col).0)
    ensures BoardAsString(Undo(Place(b, p, col).0)) == BoardAsString(b)
  {
    UndoAfterPlace(b, p, col);
    GridsRender(Undo(Place(b, p, col).0), b);
  }

  /** Boards with the same dimensions and equivalent grids render the same, whatever else differs. */
  lemma GridsRender(b1: Board, b2: Board)
    requires Shape(b1) && Shape(b2) && b1.cols == b2.cols && b1.rows == b2.rows
    requires GridEquivalent(b1.grid, b2.grid)
    ensures BoardAsString(b1) == BoardAsString(b2)
  {
    EquivalentRowsFrom(b1.grid, b2.grid, b1.cols, b1.rows, b1.rows as int - 1);
  }

  function SetCell(g: seq<seq<Piece>>, col: int, row: int, q: Piece): seq<seq<Piece>>
    requires 0 <= col < |g| && 0 <= row < |g[col]|
  {
    g[col := g[col][row := q]]
  }

  function ClearCell(g: seq<seq<Piece>>, col: int, row: int): seq<seq<Piece>>
    requires 0 <= col < |g| && 0 <= row < |g[col]|
  {
    g[col := g[col][row := NewEmpty()]]
  }

  /** Writing a piece over an Empty and then a fresh Empty over it gives back an equivalent grid. */
  lemma RestoreCell(g: seq<seq<Piece>>, cols: nat, rows: nat, col: int, row: int, q: Piece)
    requires GridShape(g, cols, rows) && 0 <= col < cols && 0 <= row < rows && g[col][row].Empty?
    ensures GridShape(ClearCell(SetCell(g, col, row, q), col, row), cols, rows)
    ensures GridEquivalent(ClearCell(SetCell(g, col, row, q), col, row), g)
  {
    var g2 := ClearCell(SetCell(g, col, row, q), col, row);
    forall c, r | 0 <= c < |g2| && 0 <= r < |g2[c]| && r < |g[c]|
      ensures Norm(g2[c][r]) == Norm(g[c][r])
    {
      if c == col && r == row {
        assert g2[c][r] == NewEmpty();
      } else if c == col {
        assert g2[c][r] == g[c][r];
      }
    }
  }

  // ---------------------------------------------------------------------------
  // Equivalent boards

  lemma NormKeepsTag(p1: Piece, p2: Piece)
    requires Norm(p1) == Norm(p2)
    ensures Tag(p1) == Tag(p2)
  {
    assert Tag(Norm(p1)) == Tag(p1) && Tag(Norm(p2)) == Tag(p2);
  }

  lemma {:induction false} EquivalentRowString(g1: seq<seq<Piece>>, g2: seq<seq<Piece>>, cols: nat, rows: nat, r: int, c: nat)
    requires GridShape(g1, cols, rows) && GridShape(g2, cols, rows) && GridEquivalent(g1, g2)
    requires 0 <= r < rows && c <= cols
    ensures RowString(g1, cols, rows, r, c) == RowString(g2, cols, rows, r, c)
    decreases cols - c
  {
    if c < cols {
      NormKeepsTag(g1[c][r], g2[c][r]);
      EquivalentRowString(g1, g2, cols, rows, r, c + 1);
    }
  }

  lemma {:induction false} EquivalentRowsFrom(g1: seq<seq<Piece>>, g2: seq<seq<Piece>>, cols: nat, rows: nat, r: int)
    requires GridShape(g1, cols, rows) && GridShape(g2, cols, rows) && GridEquivalent(g1, g2)
    requires r < rows
    ensures RowsFrom(g1, cols, rows, r) == RowsFrom(g2, cols, rows, r)
    decreases r + 1
  {
    if r >= 0 {
      EquivalentRowString(g1, g2, cols, rows, r, 0);
      EquivalentRowsFrom(g1, g2, cols, rows, r - 1);
    }
  }

  /** Equivalent boards render the same: the text shows only tags. */
  lemma EquivalentRender(b1: Board, b2: Board)
    requires Shape(b1) && Shape(b2) && Equivalent(b1, b2)
    ensures BoardAsString(b1) == BoardAsString(b2)
  {
    EquivalentRowsFrom(b1.grid, b2.grid, b1.cols, b1.rows, b1.rows as int - 1);
  }

  /** Equivalence is an equivalence relation. */
  lemma EquivalentIsEquivalence(b1: Board, b2: Board, b3: Board)
    ensures Equivalent(b1, b1)
    ensures Equivalent(b1, b2) ==> Equivalent(b2, b1)
    ensures Equivalent(b1, b2) && Equivalent(b2, b3) ==> Equivalent(b1, b3)
  {
  }

  /** Every query the game makes gives the same answer on equivalent boards. */
  lemma EquivalentQueries(b1: Board, b2: Board)
    requires Shape(b1) && Equivalent(b1, b2)
    ensures Shape(b2)
    ensures forall col :: 0 <= col < b1.cols ==> IsFull(b1, col) == IsFull(b2, col)
    ensures FullBoard(b1) == FullBoard(b2) && GameWon(b1) == GameWon(b2)
    ensures |b1.turns| > 0 ==> LastPiece(b1) == LastPiece(b2)
    ensures (b1.won ==> |b1.turns| > 0) ==> Evaluate(b1) == Evaluate(b2)
    ensures CanUndo(b1) == CanUndo(b2)
    ensures forall col, row :: Norm(PieceAt(b1, col, row)) == Norm(PieceAt(b2, col, row))
  {
  }

  /** Placing the same piece in the same column of equivalent boards gives equivalent boards and the same answer. */
  lemma EquivalentPlace(b1: Board, b2: Board, p: Piece, col: int)
    requires Shape(b1) && Equivalent(b1, b2) && 0 <= col < b1.cols && 0 <= b1.heights[col] <= b1.rows
    ensures Shape(b2)
    ensures Place(b1, p, col).1 == Place(b2, p, col).1
    ensures Equivalent(Place(b1, p, col).0, Place(b2, p, col).0)
  {
  }

  /** Taking back the last turn of equivalent boards gives equivalent boards. */
  lemma EquivalentUndo(b1: Board, b2: Board)
    requires Shape(b1) && Equivalent(b1, b2) && CanUndo(b1)
    ensures Shape(b2) && CanUndo(b2)
    ensures Equivalent(Undo(b1), Undo(b2))
  {
  }
}
