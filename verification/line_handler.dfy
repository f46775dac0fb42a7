/**
  The collection of all lines of a board, reached through the per-cell lists, with four
  running totals (player one's value, player two's value, and each player's number of
  open lines) that placing and removing a piece keep up to date by differences.
 */
module LineHandlers {
  import opened Pieces
  import opened Lines
  import opened LineIndex

  /** `lines[i]` is the line `AllLines(cols, rows)[i]`; the totals are read by the board's evaluation. */
  datatype LineHandler = LineHandler(
    cols: nat, rows: nat,
    lines: seq<Line>,
    p1val: int, p2val: int, p1opps: int, p2opps: int)
  {
    /** The four totals as one score. */
    function Totals(): Score
    {
      Score(p1val, p2val, p1opps, p2opps)
    }

    /** There is one line per line of the grid, so every number in a cell list names a line. */
    predicate WellFormed()
    {
      |lines| == |AllLines(cols, rows)|
    }
  }

  // ---------------------------------------------------------------------------
  // Sums of line scores

  /** The scores of all lines added up. */
  function Total(lines: seq<Line>): Score
  {
    if |lines| == 0 then Zero else Total(lines[..|lines| - 1]).Plus(ScoreOf(lines[|lines| - 1]))
  }

  /** The scores of the lines numbered in `ids` added up (with repeats counted again). */
  function SumAt(lines: seq<Line>, ids: seq<nat>): Score
    requires InRange(ids, |lines|)
  {
    if |ids| == 0 then Zero else ScoreOf(lines[ids[0]]).Plus(SumAt(lines, ids[1..]))
  }

  /** The totals are the sums over all lines: what the running totals are meant to hold. */
  predicate Consistent(h: LineHandler)
  {
    h.Totals() == Total(h.lines)
  }

  predicate InRange(ids: seq<nat>, n: int)
  {
    forall k :: 0 <= k < |ids| ==> ids[k] < n
  }

  // ---------------------------------------------------------------------------
  // Construction

  /** Creates the next line: it starts empty and is open for both players. */
  function MakeLine(h: LineHandler): (h': LineHandler)
    ensures h'.lines == h.lines + [NewLine()]
    ensures h'.Totals() == h.Totals().Plus(ScoreOf(NewLine()))
  {
    h.(lines := h.lines + [NewLine()], p1opps := h.p1opps + 1, p2opps := h.p2opps + 1)
  }

  /** Creates n lines, in order. */
  function MakeLines(h: LineHandler, n: nat): LineHandler
  {
    if n == 0 then h else MakeLine(MakeLines(h, n - 1))
  }

  /** A handler for a cols x rows board: every line created, every total counted from zero. */
  function NewHandler(cols: nat, rows: nat): LineHandler
  {
    MakeLines(LineHandler(cols, rows, [], 0, 0, 0, 0), |AllLines(cols, rows)|)
  }

  lemma {:induction false} MakeLinesSpec(h: LineHandler, n: nat)
    requires Consistent(h)
    ensures MakeLines(h, n).cols == h.cols && MakeLines(h, n).rows == h.rows
    ensures MakeLines(h, n).lines == h.lines + seq(n, _ => NewLine())
    ensures Consistent(MakeLines(h, n))
  {
    if n > 0 {
      var prev := MakeLines(h, n - 1);
      MakeLinesSpec(h, n - 1);
      assert prev.lines + [NewLine()] == h.lines + seq(n, _ => NewLine());
      TotalSnoc(prev.lines, NewLine());
    }
  }

  lemma TotalSnoc(lines: seq<Line>, l: Line)
    ensures Total(lines + [l]) == Total(lines).Plus(ScoreOf(l))
  {
    assert (lines + [l])[..|lines|] == lines;
  }

  lemma {:induction false} TotalOfNewLines(n: nat)
    ensures Total(seq(n, _ => NewLine())) == Score(0, 0, n, n)
  {
    if n > 0 {
      var s := seq(n, _ => NewLine());
      assert s[..n - 1] == seq(n - 1, _ => NewLine());
      TotalOfNewLines(n - 1);
    }
  }

  /**
    A new handler holds one empty line per line of the grid; no player has any value yet
    and every line is open for both players.
   */
  lemma NewHandlerSpec(cols: nat, rows: nat)
    ensures NewHandler(cols, rows).WellFormed() && Consistent(NewHandler(cols, rows))
    ensures NewHandler(cols, rows).cols == cols && NewHandler(cols, rows).rows == rows
    ensures NewHandler(cols, rows).lines == seq(|AllLines(cols, rows)|, _ => NewLine())
    ensures NewHandler(cols, rows).Totals() == Score(0, 0, |AllLines(cols, rows)|, |AllLines(cols, rows)|)
  {
    var n := |AllLines(cols, rows)|;
    var h0 := LineHandler(cols, rows, [], 0, 0, 0, 0);
    var h := MakeLines(h0, n);
    MakeLinesSpec(h0, n);
    assert h.lines == [] + seq(n, _ => NewLine());
    assert [] + seq(n, _ => NewLine()) == seq(n, _ => NewLine());
    TotalOfNewLines(n);
  }

  // ---------------------------------------------------------------------------
  // Placing and removing a piece

  /** One line's change: adding the piece (with its completion flag), or removing it. */
  function Step(l: Line, p: Piece, adding: bool): (Line, bool)
  {
    if adding then Add(l, p) else (Remove(l, p), false)
  }

  /**
    The first pass over a cell's lines: records each line's score before the change, changes
    the line, and notes whether some line became complete.
   */
  function Pass(lines: seq<Line>, ids: seq<nat>, p: Piece, adding: bool): (r: (seq<Line>, Score, bool))
    requires InRange(ids, |lines|)
    ensures |r.0| == |lines|
    decreases |ids|
  {
    if |ids| == 0 then (lines, Zero, false)
    else
      var id := ids[0];
      var before := ScoreOf(lines[id]);
      var (l', won) := Step(lines[id], p, adding);
      var (rest, sum, win) := Pass(lines[id := l'], ids[1..], p, adding);
      (rest, before.Plus(sum), won || win)
  }

  /**
    Adds or removes piece p in cell (col, row) in every line through the cell, and moves the
    totals by the change in those lines' scores (the second pass).
   */
  function Update(h: LineHandler, p: Piece, col: int, row: int, adding: bool): (r: (LineHandler, bool))
    requires h.WellFormed() && InGrid(h.cols, h.rows, (col, row))
    ensures r.0.WellFormed() && r.0.cols == h.cols && r.0.rows == h.rows
  {
    var ids := CellIds(h, col, row);
    var (lines', oldSum, win) := Pass(h.lines, ids, p, adding);
    var newSum := SumAt(lines', ids);
    var totals := h.Totals().Plus(newSum.Minus(oldSum));
    (h.(lines := lines', p1val := totals.valueP1, p2val := totals.valueP2,
        p1opps := totals.openP1, p2opps := totals.openP2), win)
  }

  /** Places piece p in cell (col, row); the flag tells whether the piece completed a line. */
  function PlacePiece(h: LineHandler, p: Piece, col: int, row: int): (r: (LineHandler, bool))
    requires h.WellFormed() && InGrid(h.cols, h.rows, (col, row))
    ensures r.0.WellFormed() && r.0.cols == h.cols && r.0.rows == h.rows
  {
    Update(h, p, col, row, true)
  }

  /** Takes piece p back out of cell (col, row). */
  function RemovePiece(h: LineHandler, p: Piece, col: int, row: int): (h': LineHandler)
    requires h.WellFormed() && InGrid(h.cols, h.rows, (col, row))
    ensures h'.WellFormed() && h'.cols == h.cols && h'.rows == h.rows
  {
    Update(h, p, col, row, false).0
  }

  /** The numbers of the lines through (col, row), each naming one of the handler's lines. */
  function CellIds(h: LineHandler, col: int, row: int): (ids: seq<nat>)
    requires h.WellFormed()
    ensures ids == CellLines(h.cols, h.rows, (col, row))
    ensures InRange(ids, |h.lines|) && Distinct(ids)
  {
    var ids := CellLines(h.cols, h.rows, (col, row));
    forall k | 0 <= k < |ids| ensures ids[k] < |h.lines| {
      CellLinesSpec(h.cols, h.rows, (col, row), ids[k]);
    }
    CellLinesSpec(h.cols, h.rows, (col, row), 0);
    DecreasingDistinct(ids);
    ids
  }

  lemma DecreasingDistinct(s: seq<nat>)
    requires Decreasing(s)
    ensures Distinct(s)
  {
  }

  // ---------------------------------------------------------------------------
  // Properties of the two passes

  lemma DistinctTail<T>(s: seq<T>)
    requires |s| > 0 && Distinct(s)
    ensures Distinct(s[1..]) && s[0] !in s[1..]
  {
    forall i, j | 0 <= i < j < |s[1..]| ensures s[1..][i] != s[1..][j] {
      assert s[1..][i] == s[i + 1] && s[1..][j] == s[j + 1];
    }
  }

  /** Changing a line that is not listed does not change the sum over the listed ones. */
  lemma {:induction false} SumAtFrame(lines: seq<Line>, ids: seq<nat>, i: int, v: Line)
    requires InRange(ids, |lines|) && 0 <= i < |lines| && i !in ids
    ensures SumAt(lines[i := v], ids) == SumAt(lines, ids)
  {
    if |ids| > 0 {
      assert ids[0] != i;
      SumAtFrame(lines, ids[1..], i, v);
    }
  }

  /** Replacing one line moves the total by the difference of the two lines' scores. */
  lemma {:induction false} TotalUpdate(lines: seq<Line>, i: int, v: Line)
    requires 0 <= i < |lines|
    ensures Total(lines[i := v]) == Total(lines).Minus(ScoreOf(lines[i])).Plus(ScoreOf(v))
  {
    var n := |lines|;
    var lines' := lines[i := v];
    var init, last := lines[..n - 1], lines[n - 1];
    assert Total(lines) == Total(init).Plus(ScoreOf(last));
    if i == n - 1 {
      assert lines'[..n - 1] == init;
      assert Total(lines') == Total(init).Plus(ScoreOf(v));
      ScoreSwap(Total(init), ScoreOf(last), ScoreOf(v));
    } else {
      assert lines'[..n - 1] == init[i := v];
      assert Total(lines') == Total(init[i := v]).Plus(ScoreOf(last));
      TotalUpdate(init, i, v);
      ScoreReorder(Total(init), ScoreOf(lines[i]), ScoreOf(v), ScoreOf(last));
    }
  }

  lemma ScoreSwap(t: Score, a: Score, b: Score)
    ensures t.Plus(b) == t.Plus(a).Minus(a).Plus(b)
  {
  }

  lemma ScoreReorder(t: Score, a: Score, b: Score, c: Score)
    ensures t.Minus(a).Plus(b).Plus(c) == t.Plus(c).Minus(a).Plus(b)
  {
  }

  /** The pass changes each listed line once, and no other line. */
  lemma {:induction false} PassAt(lines: seq<Line>, ids: seq<nat>, p: Piece, adding: bool, i: int)
    requires InRange(ids, |lines|) && Distinct(ids) && 0 <= i < |lines|
    ensures Pass(lines, ids, p, adding).0[i] == if i in ids then Step(lines[i], p, adding).0 else lines[i]
    decreases |ids|
  {
    if |ids| > 0 {
      var id := ids[0];
      DistinctTail(ids);
      PassAt(lines[id := Step(lines[id], p, adding).0], ids[1..], p, adding, i);
    }
  }

  /** The scores recorded by the pass are those of the lines before the change. */
  lemma {:induction false} PassBefore(lines: seq<Line>, ids: seq<nat>, p: Piece, adding: bool)
    requires InRange(ids, |lines|) && Distinct(ids)
    ensures Pass(lines, ids, p, adding).1 == SumAt(lines, ids)
    decreases |ids|
  {
    if |ids| > 0 {
      var id := ids[0];
      var l' := Step(lines[id], p, adding).0;
      DistinctTail(ids);
      PassBefore(lines[id := l'], ids[1..], p, adding);
      SumAtFrame(lines, ids[1..], id, l');
    }
  }

  /** The change of the total over all lines is the change of the sum over the listed lines. */
  lemma {:induction false} PassTotal(lines: seq<Line>, ids: seq<nat>, p: Piece, adding: bool)
    requires InRange(ids, |lines|) && Distinct(ids)
    ensures Total(Pass(lines, ids, p, adding).0)
         == Total(lines).Minus(SumAt(lines, ids)).Plus(SumAt(Pass(lines, ids, p, adding).0, ids))
    decreases |ids|
  {
    if |ids| > 0 {
      var id := ids[0];
      var l' := Step(lines[id], p, adding).0;
      var lines1 := lines[id := l'];
      var rest := ids[1..];
      var result := Pass(lines1, rest, p, adding).0;
      assert Pass(lines, ids, p, adding).0 == result;
      DistinctTail(ids);
      PassTotal(lines1, rest, p, adding);
      TotalUpdate(lines, id, l');
      SumAtFrame(lines, rest, id, l');
      PassAt(lines1, rest, p, adding, id);
      assert SumAt(lines, ids) == ScoreOf(lines[id]).Plus(SumAt(lines, rest));
      assert SumAt(result, ids) == ScoreOf(l').Plus(SumAt(result, rest));
      ScoreArith(Total(lines), ScoreOf(lines[id]), ScoreOf(l'), SumAt(lines, rest), SumAt(result, rest));
    }
  }

  lemma ScoreArith(t: Score, a: Score, a': Score, b: Score, b': Score)
    ensures t.Minus(a).Plus(a').Minus(b).Plus(b') == t.Minus(a.Plus(b)).Plus(a'.Plus(b'))
  {
  }

  /** Some listed line holds three pieces of the placer's side, so adding the piece completes it. */
  predicate Completes(lines: seq<Line>, ids: seq<nat>, p: Piece)
    requires InRange(ids, |lines|)
  {
    exists k :: 0 <= k < |ids| && Count(lines[ids[k]], SideOf(p)) == 3
  }

  /** The flag of a pass is raised only by adding, and only when some listed line is completed. */
  lemma {:induction false} PassWinSound(lines: seq<Line>, ids: seq<nat>, p: Piece, adding: bool)
    requires InRange(ids, |lines|) && Distinct(ids)
    requires Pass(lines, ids, p, adding).2
    ensures adding && Completes(lines, ids, p)
    decreases |ids|
  {
    var id, rest := ids[0], ids[1..];
    var lines1 := lines[id := Step(lines[id], p, adding).0];
    assert Pass(lines, ids, p, adding).2 == (Step(lines[id], p, adding).1 || Pass(lines1, rest, p, adding).2);
    if Step(lines[id], p, adding).1 {
      assert Count(lines[ids[0]], SideOf(p)) == 3;
    } else {
      DistinctTail(ids);
      PassWinSound(lines1, rest, p, adding);
      var k :| 0 <= k < |rest| && Count(lines1[rest[k]], SideOf(p)) == 3;
      assert rest[k] == ids[k + 1] && rest[k] != id;
      assert Count(lines[ids[k + 1]], SideOf(p)) == 3;
    }
  }

  /** The adding pass raises its flag when some listed line held three of the placer's side. */
  lemma {:induction false} PassWinComplete(lines: seq<Line>, ids: seq<nat>, p: Piece, k: int)
    requires InRange(ids, |lines|) && Distinct(ids)
    requires 0 <= k < |ids| && Count(lines[ids[k]], SideOf(p)) == 3
    ensures Pass(lines, ids, p, true).2
    decreases |ids|
  {
    var id, rest := ids[0], ids[1..];
    if k > 0 {
      var lines1 := lines[id := Add(lines[id], p).0];
      DistinctTail(ids);
      assert rest[k - 1] == ids[k] && ids[k] != id;
      PassWinComplete(lines1, rest, p, k - 1);
    }
  }

  /** The flag of the adding pass is raised exactly when some listed line is completed. */
  lemma PassWin(lines: seq<Line>, ids: seq<nat>, p: Piece, adding: bool)
    requires InRange(ids, |lines|) && Distinct(ids)
    ensures Pass(lines, ids, p, adding).2 <==> adding && Completes(lines, ids, p)
  {
    if Pass(lines, ids, p, adding).2 {
      PassWinSound(lines, ids, p, adding);
    }
    if adding && Completes(lines, ids, p) {
      var k :| 0 <= k < |ids| && Count(lines[ids[k]], SideOf(p)) == 3;
      PassWinComplete(lines, ids, p, k);
    }
  }

  // ---------------------------------------------------------------------------
  // Properties of placing and removing

  /** Exactly the lines through the cell change, each by the one piece. */
  lemma UpdateAt(h: LineHandler, p: Piece, col: int, row: int, adding: bool, i: int)
    requires h.WellFormed() && InGrid(h.cols, h.rows, (col, row)) && 0 <= i < |h.lines|
    ensures Update(h, p, col, row, adding).0.lines[i]
         == if i in CellLines(h.cols, h.rows, (col, row)) then Step(h.lines[i], p, adding).0 else h.lines[i]
  {
    PassAt(h.lines, CellIds(h, col, row), p, adding, i);
  }

  /** Updating by differences keeps the totals equal to the sums over all lines. */
  lemma UpdateConsistent(h: LineHandler, p: Piece, col: int, row: int, adding: bool)
    requires h.WellFormed() && InGrid(h.cols, h.rows, (col, row))
    requires Consistent(h)
    ensures Consistent(Update(h, p, col, row, adding).0)
  {
    var ids := CellIds(h, col, row);
    var r := Pass(h.lines, ids, p, adding);
    PassBefore(h.lines, ids, p, adding);
    PassTotal(h.lines, ids, p, adding);
    var h' := Update(h, p, col, row, adding).0;
    assert h'.lines == r.0;
    assert h'.Totals() == h.Totals().Plus(SumAt(r.0, ids).Minus(SumAt(h.lines, ids)));
    ScoreShift(h.Totals(), SumAt(h.lines, ids), SumAt(r.0, ids));
  }

  lemma ScoreShift(t: Score, a: Score, b: Score)
    ensures t.Plus(b.Minus(a)) == t.Minus(a).Plus(b)
  {
  }

  /** Placing a piece reports a win exactly when a line through the cell held three of its side. */
  lemma PlaceWin(h: LineHandler, p: Piece, col: int, row: int)
    requires h.WellFormed() && InGrid(h.cols, h.rows, (col, row))
    ensures PlacePiece(h, p, col, row).1 <==> Completes(h.lines, CellIds(h, col, row), p)
  {
    PassWin(h.lines, CellIds(h, col, row), p, true);
  }

  /** Undoing a change with the opposite change restores the handler, lines and totals alike. */
  lemma {:induction false} UpdateUndo(h: LineHandler, p: Piece, col: int, row: int, adding: bool)
    requires h.WellFormed() && InGrid(h.cols, h.rows, (col, row))
    ensures Update(Update(h, p, col, row, adding).0, p, col, row, !adding).0 == h
  {
    var ids := CellIds(h, col, row);
    var h1 := Update(h, p, col, row, adding).0;
    var h2 := Update(h1, p, col, row, !adding).0;
    assert CellIds(h1, col, row) == ids;
    forall i | 0 <= i < |h.lines| ensures h2.lines[i] == h.lines[i] {
      UpdateAt(h, p, col, row, adding, i);
      UpdateAt(h1, p, col, row, !adding, i);
      AddRemoveRoundTrip(h.lines[i], p);
    }
    assert h2.lines == h.lines;
    PassBefore(h.lines, ids, p, adding);
    PassBefore(h1.lines, ids, p, !adding);
    var o, n := SumAt(h.lines, ids), SumAt(h1.lines, ids);
    assert h1.Totals() == h.Totals().Plus(n.Minus(o));
    assert h2.Totals() == h1.Totals().Plus(o.Minus(n));
    ScoreUndo(h.Totals(), o, n);
  }

  lemma ScoreUndo(t: Score, a: Score, b: Score)
    ensures t.Plus(b.Minus(a)).Plus(a.Minus(b)) == t
  {
  }

  /** Taking back the piece just placed restores the handler, and so does placing back a removed piece. */
  lemma PlaceRemoveRoundTrip(h: LineHandler, p: Piece, col: int, row: int)
    requires h.WellFormed() && InGrid(h.cols, h.rows, (col, row))
    ensures RemovePiece(PlacePiece(h, p, col, row).0, p, col, row) == h
    ensures PlacePiece(RemovePiece(h, p, col, row), p, col, row).0 == h
  {
    UpdateUndo(h, p, col, row, true);
    UpdateUndo(h, p, col, row, false);
  }

  /** No line holds a negative number of pieces. */
  predicate NonNegative(lines: seq<Line>)
  {
    forall i :: 0 <= i < |lines| ==> lines[i].numP1 >= 0 && lines[i].numP2 >= 0
  }

  /** When each listed line gains the piece, the sum over them moves as one placement may. */
  lemma {:induction false} SumShift(lines: seq<Line>, lines': seq<Line>, ids: seq<nat>, p: Piece)
    requires InRange(ids, |lines|) && |lines'| == |lines| && NonNegative(lines)
    requires forall k :: 0 <= k < |ids| ==> lines'[ids[k]] == Add(lines[ids[k]], p).0
    ensures PlaceShift(SumAt(lines, ids), SumAt(lines', ids), SideOf(p))
    decreases |ids|
  {
    if |ids| > 0 {
      SumShift(lines, lines', ids[1..], p);
      AddShiftsScore(lines[ids[0]], p);
    }
  }

  /**
    Placing a piece never helps the opponent: the placer's number of open lines stays, the
    opponent's open lines and value can only fall, and the placer's value can only rise.
   */
  lemma PlaceShiftsTotals(h: LineHandler, p: Piece, col: int, row: int)
    requires h.WellFormed() && InGrid(h.cols, h.rows, (col, row)) && NonNegative(h.lines)
    ensures PlaceShift(h.Totals(), PlacePiece(h, p, col, row).0.Totals(), SideOf(p))
  {
    var ids := CellIds(h, col, row);
    var r := Pass(h.lines, ids, p, true);
    forall k | 0 <= k < |ids| ensures r.0[ids[k]] == Add(h.lines[ids[k]], p).0 {
      PassAt(h.lines, ids, p, true, ids[k]);
    }
    SumShift(h.lines, r.0, ids, p);
    PassBefore(h.lines, ids, p, true);
  }
}
