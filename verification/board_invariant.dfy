/**
  The board invariant under play: placing a player's piece in a column that is not full keeps
  it, taking the piece back keeps it, and it carries over to equivalent boards. From it follow
  the bounds the game relies on: the count of pieces, a full board, the line counters, the
  handler's totals and the range of the evaluation.
 */
module BoardInvariant {
  import opened Pieces
  import opened Lines
  import opened LineIndex
  import opened LineHandlers
  import opened Boards
  import opened BoardProperties

  // ---------------------------------------------------------------------------
  // Placing keeps the invariant

  /** Where a player's piece lands on an Empty cell, that cell now holds it for the piece's side and no other cell changes. */
  lemma HoldsAfterPlace(b: Board, p: Piece, col: int, x: Cell, s: Side)
    requires Shape(b) && 0 <= col < b.cols && 0 <= b.heights[col] < b.rows
    requires b.grid[col][b.heights[col]].Empty? && IsPlayer(p)
    ensures Holds(Place(b, p, col).0, x, s)
         == Holds(b, x, s) + (if x == (col, b.heights[col]) && SideOf(p) == s then 1 else 0)
  {
    var row := b.heights[col];
    var b' := Place(b, p, col).0;
    if x == (col, row) {
      assert b'.grid[col][row] == SetPosition(p, col, row);
    } else if InGrid(b.cols, b.rows, x) {
      assert b'.grid[x.0][x.1] == b.grid[x.0][x.1];
    }
  }

  /** A line's occupancy for side s grows by one exactly when it passes through the cell filled by a piece of side s. */
  lemma OccupancyAfterPlace(b: Board, p: Piece, col: int, d: LineDef, s: Side)
    requires Shape(b) && 0 <= col < b.cols && 0 <= b.heights[col] < b.rows
    requires b.grid[col][b.heights[col]].Empty? && IsPlayer(p)
    ensures Occupancy(Place(b, p, col).0, d, s)
         == Occupancy(b, d, s) + (if (col, b.heights[col]) in CellsOf(d) && SideOf(p) == s then 1 else 0)
  {
    CellsDistinct(d);
    assert CellsOf(d)[0] == CellAt(d, 0) && CellsOf(d)[1] == CellAt(d, 1);
    assert CellsOf(d)[2] == CellAt(d, 2) && CellsOf(d)[3] == CellAt(d, 3);
    HoldsAfterPlace(b, p, col, CellAt(d, 0), s);
    HoldsAfterPlace(b, p, col, CellAt(d, 1), s);
    HoldsAfterPlace(b, p, col, CellAt(d, 2), s);
    HoldsAfterPlace(b, p, col, CellAt(d, 3), s);
  }

  /** After the placement each line's counters still match the pieces in its cells. */
  lemma LineAfterPlace(b: Board, p: Piece, col: int, i: int)
    requires Shape(b) && LinesMatch(b) && 0 <= col < b.cols && 0 <= b.heights[col] < b.rows
    requires b.grid[col][b.heights[col]].Empty? && IsPlayer(p) && 0 <= i < |b.handler.lines|
    ensures Place(b, p, col).0.handler.lines[i]
         == Line(Occupancy(Place(b, p, col).0, AllLines(b.cols, b.rows)[i], SideP1),
                 Occupancy(Place(b, p, col).0, AllLines(b.cols, b.rows)[i], SideP2))
  {
    var row := b.heights[col];
    var q := SetPosition(p, col, row);
    var d := AllLines(b.cols, b.rows)[i];
    var l := b.handler.lines[i];
    assert l == Line(Occupancy(b, d, SideP1), Occupancy(b, d, SideP2));
    UpdateAt(b.handler, q, col, row, true, i);
    CellLinesSpec(b.cols, b.rows, (col, row), i);
    OccupancyAfterPlace(b, p, col, d, SideP1);
    OccupancyAfterPlace(b, p, col, d, SideP2);
    assert SideOf(q) == SideOf(p);
  }

  /** Placing a player's piece in a column that is not full keeps the board invariant. */
  lemma PlaceInv(b: Board, p: Piece, col: int)
    requires Inv(b) && 0 <= col < b.cols && !IsFull(b, col) && IsPlayer(p)
    ensures Place(b, p, col).1
    ensures Inv(Place(b, p, col).0)
  {
    assert b.grid[col][b.heights[col]].Empty?;
    CountAfterPlace(b, p, col);
    ConsistentAfterPlace(b, p, col);
    LinesMatchAfterPlace(b, p, col);
    StackedAfterPlace(b, p, col);
  }

  /** The count still adds up the heights. */
  lemma CountAfterPlace(b: Board, p: Piece, col: int)
    requires Shape(b) && b.count == SumSeq(b.heights)
    requires 0 <= col < b.cols && 0 <= b.heights[col] < b.rows
    ensures Place(b, p, col).0.count == SumSeq(Place(b, p, col).0.heights)
  {
    var row := b.heights[col];
    var b' := Place(b, p, col).0;
    assert b'.heights == b.heights[col := row + 1] && b'.count == b.count + 1;
    SumSeqUpdate(b.heights, col, row + 1);
  }

  /** The totals still add up the lines. */
  lemma ConsistentAfterPlace(b: Board, p: Piece, col: int)
    requires Shape(b) && Consistent(b.handler)
    requires 0 <= col < b.cols && 0 <= b.heights[col] < b.rows
    ensures Consistent(Place(b, p, col).0.handler)
  {
    var row := b.heights[col];
    var q := SetPosition(p, col, row);
    assert Place(b, p, col).0.handler == PlacePiece(b.handler, q, col, row).0;
    UpdateConsistent(b.handler, q, col, row, true);
  }

  lemma LinesMatchAfterPlace(b: Board, p: Piece, col: int)
    requires Shape(b) && LinesMatch(b) && 0 <= col < b.cols && 0 <= b.heights[col] < b.rows
    requires b.grid[col][b.heights[col]].Empty? && IsPlayer(p)
    ensures LinesMatch(Place(b, p, col).0)
  {
    var b' := Place(b, p, col).0;
    forall i | 0 <= i < |b'.handler.lines|
      ensures b'.handler.lines[i] == Line(Occupancy(b', AllLines(b'.cols, b'.rows)[i], SideP1), Occupancy(b', AllLines(b'.cols, b'.rows)[i], SideP2))
    {
      LineAfterPlace(b, p, col, i);
    }
  }

  lemma StackedAfterPlace(b: Board, p: Piece, col: int)
    requires Shape(b) && Stacked(b) && 0 <= col < b.cols && !IsFull(b, col) && IsPlayer(p)
    ensures Stacked(Place(b, p, col).0)
  {
    var row := b.heights[col];
    var b' := Place(b, p, col).0;
    forall c, r | 0 <= c < b'.cols && 0 <= r < b'.rows
      ensures (r < b'.heights[c] ==> IsPlayer(b'.grid[c][r])) && (r >= b'.heights[c] ==> b'.grid[c][r].Empty?)
    {
      if c == col && r == row {
        assert b'.grid[c][r] == SetPosition(p, col, row);
      } else {
        assert b'.grid[c][r] == b.grid[c][r];
      }
    }
  }

  // ---------------------------------------------------------------------------
  // Equivalent boards

  /** Pieces that the game cannot tell apart agree on kind and side. */
  lemma NormKeepsKind(p1: Piece, p2: Piece)
    requires Norm(p1) == Norm(p2)
    ensures IsPlayer(p1) == IsPlayer(p2) && p1.Empty? == p2.Empty? && SideOf(p1) == SideOf(p2)
  {
  }

  lemma HoldsEquivalent(b1: Board, b2: Board, x: Cell, s: Side)
    requires Shape(b1) && Shape(b2) && Equivalent(b1, b2)
    ensures Holds(b1, x, s) == Holds(b2, x, s)
  {
    if InGrid(b1.cols, b1.rows, x) {
      NormKeepsKind(b1.grid[x.0][x.1], b2.grid[x.0][x.1]);
    }
  }

  /** The board invariant carries over to an equivalent board. */
  lemma InvEquivalent(b1: Board, b2: Board)
    requires Inv(b1) && Equivalent(b1, b2)
    ensures Inv(b2)
  {
    EquivalentQueries(b1, b2);
    forall i | 0 <= i < |b2.handler.lines|
      ensures b2.handler.lines[i] == Line(Occupancy(b2, AllLines(b2.cols, b2.rows)[i], SideP1), Occupancy(b2, AllLines(b2.cols, b2.rows)[i], SideP2))
    {
      var d := AllLines(b2.cols, b2.rows)[i];
      assert b1.handler.lines[i] == Line(Occupancy(b1, d, SideP1), Occupancy(b1, d, SideP2));
      HoldsEquivalent(b1, b2, CellAt(d, 0), SideP1);
      HoldsEquivalent(b1, b2, CellAt(d, 1), SideP1);
      HoldsEquivalent(b1, b2, CellAt(d, 2), SideP1);
      HoldsEquivalent(b1, b2, CellAt(d, 3), SideP1);
      HoldsEquivalent(b1, b2, CellAt(d, 0), SideP2);
      HoldsEquivalent(b1, b2, CellAt(d, 1), SideP2);
      HoldsEquivalent(b1, b2, CellAt(d, 2), SideP2);
      HoldsEquivalent(b1, b2, CellAt(d, 3), SideP2);
    }
    forall c, r | 0 <= c < b2.cols && 0 <= r < b2.rows
      ensures (r < b2.heights[c] ==> IsPlayer(b2.grid[c][r])) && (r >= b2.heights[c] ==> b2.grid[c][r].Empty?)
    {
      NormKeepsKind(b1.grid[c][r], b2.grid[c][r]);
    }
  }

  /** The won flag plays no part in the invariant. */
  lemma InvIgnoresWon(b: Board, w: bool)
    requires Inv(b)
    ensures Inv(b.(won := w))
  {
    var b0 := b.(won := w);
    forall x, s ensures Holds(b0, x, s) == Holds(b, x, s) {
    }
    forall i | 0 <= i < |b0.handler.lines|
      ensures b0.handler.lines[i] == Line(Occupancy(b0, AllLines(b0.cols, b0.rows)[i], SideP1), Occupancy(b0, AllLines(b0.cols, b0.rows)[i], SideP2))
    {
      assert b.handler.lines[i] == Line(Occupancy(b, AllLines(b.cols, b.rows)[i], SideP1), Occupancy(b, AllLines(b.cols, b.rows)[i], SideP2));
    }
  }

  /** Placing a player's piece and taking it back leaves a board that satisfies the invariant. */
  lemma UndoInv(b: Board, p: Piece, col: int)
    requires Inv(b) && 0 <= col < b.cols && !IsFull(b, col) && IsPlayer(p)
    ensures CanUndo(Place(b, p, col).0)
    ensures Inv(Undo(Place(b, p, col).0))
  {
    UndoAfterPlace(b, p, col);
    var b0 := b.(won := false);
    EquivalentIsEquivalence(Undo(Place(b, p, col).0), b0, b0);
    InvIgnoresWon(b, false);
    InvEquivalent(b0, Undo(Place(b, p, col).0));
  }

  // ---------------------------------------------------------------------------
  // What the invariant gives

  lemma {:induction false} SumSeqAllMax(s: seq<int>, m: int)
    requires forall i :: 0 <= i < |s| ==> s[i] == m
    ensures SumSeq(s) == m * |s|
  {
    if |s| > 0 {
      SumSeqAllMax(s[1..], m);
      assert m * |s| == m * (|s| - 1) + m;
    }
  }

  /** n heights between 0 and m add up to at most m * n, and to exactly that when every column is at m. */
  lemma HeightsFull(s: seq<int>, m: int, n: int)
    requires |s| == n && forall i :: 0 <= i < |s| ==> 0 <= s[i] <= m
    ensures 0 <= SumSeq(s) <= m * n
    ensures SumSeq(s) == m * n <==> forall i :: 0 <= i < |s| ==> s[i] == m
  {
    SumSeqBound(s, m);
    if forall i :: 0 <= i < |s| ==> s[i] == m {
      SumSeqAllMax(s, m);
    }
  }

  /**
    On a board whose columns are stacked and whose count adds up the heights (as on every
    board that keeps the invariant) the count lies between 0 and rows * cols, and the
    board is full exactly when every column is.
   */
  lemma CountBounds(b: Board)
    requires Shape(b) && Stacked(b) && b.count == SumSeq(b.heights)
    ensures 0 <= b.count <= b.rows * b.cols
    ensures FullBoard(b) <==> forall c :: 0 <= c < b.cols ==> IsFull(b, c)
  {
    HeightsFull(b.heights, b.rows, b.cols);
    if forall c :: 0 <= c < b.cols ==> IsFull(b, c) {
      forall i | 0 <= i < |b.heights| ensures b.heights[i] == b.rows {
        assert IsFull(b, i);
      }
    }
  }

  /** A board that keeps the invariant and is not full has a column that is not full. */
  lemma OpenColumn(b: Board)
    requires Inv(b) && !FullBoard(b)
    ensures exists c :: 0 <= c < b.cols && !IsFull(b, c)
  {
    CountBounds(b);
  }

  /** Every cell on the board holds a player or an Empty, never OutOfBounds. */
  lemma CellsOnBoard(b: Board, col: int, row: int)
    requires Inv(b) && InGrid(b.cols, b.rows, (col, row))
    ensures IsPlayer(PieceAt(b, col, row)) || PieceAt(b, col, row).Empty?
  {
  }

  /** Every line counts between 0 and 4 pieces of each side. */
  predicate CountsInRange(lines: seq<Line>)
  {
    forall i :: 0 <= i < |lines| ==> 0 <= lines[i].numP1 <= 4 && 0 <= lines[i].numP2 <= 4
  }

  lemma LineCounts(b: Board)
    requires Inv(b)
    ensures CountsInRange(b.handler.lines)
  {
  }

  /** Over lines with counters in range each player has at most one open line per line, and a value of at most four per line. */
  lemma {:induction false} TotalBounds(lines: seq<Line>)
    requires CountsInRange(lines)
    ensures 0 <= Total(lines).openP1 <= |lines| && 0 <= Total(lines).openP2 <= |lines|
    ensures 0 <= Total(lines).valueP1 <= 4 * |lines| && 0 <= Total(lines).valueP2 <= 4 * |lines|
  {
    if |lines| > 0 {
      var init := lines[..|lines| - 1];
      assert CountsInRange(init) by {
        forall i | 0 <= i < |init| ensures 0 <= init[i].numP1 <= 4 && 0 <= init[i].numP2 <= 4 {
          assert init[i] == lines[i];
        }
      }
      TotalBounds(init);
      ScoreBounds(lines[|lines| - 1]);
    }
  }

  /** The heuristic stays strictly between the two sentinels when a grid has at most n lines. */
  predicate HeuristicFits(n: int)
  {
    OPEN_WEIGHT * n + 4 * n < P1_WIN
  }

  /** The standard 7 x 6 grid has 69 lines, few enough for the heuristic to fit. */
  lemma StandardFits()
    ensures HeuristicFits(|AllLines(7, 6)|)
  {
    StandardLineCount();
  }

  /** Totals within the bounds for n lines give a heuristic strictly between the sentinels. */
  lemma HeuristicBetween(h: LineHandler, n: int)
    requires 0 <= h.p1opps <= n && 0 <= h.p2opps <= n && 0 <= h.p1val <= 4 * n && 0 <= h.p2val <= 4 * n
    requires HeuristicFits(n)
    ensures P2_WIN < Heuristic(h) < P1_WIN
  {
    var d := h.p1opps - h.p2opps;
    assert -n <= d <= n;
    assert -(10000 * n) <= d * 10000 <= 10000 * n;
  }

  /**
    A board that is not won is worth its heuristic, and on a board that keeps the invariant,
    with few enough lines, that value lies strictly between the two sentinels, so no position
    short of a win is confused with one.
   */
  lemma EvaluateRange(b: Board)
    requires Inv(b) && !b.won && HeuristicFits(|AllLines(b.cols, b.rows)|)
    ensures Evaluate(b) == Heuristic(b.handler)
    ensures P2_WIN < Evaluate(b) < P1_WIN
  {
    LineCounts(b);
    TotalBounds(b.handler.lines);
    assert b.handler.Totals() == Total(b.handler.lines);
    HeuristicBetween(b.handler, |b.handler.lines|);
  }

  /** A won board is worth the sentinel of the side that made the last move. */
  lemma EvaluateWon(b: Board)
    requires b.won && |b.turns| > 0
    ensures LastPiece(b).Player1? ==> Evaluate(b) == P1_WIN
    ensures LastPiece(b).Player2? ==> Evaluate(b) == P2_WIN
    ensures !IsPlayer(LastPiece(b)) ==> Evaluate(b) == Heuristic(b.handler)
  {
  }
}
