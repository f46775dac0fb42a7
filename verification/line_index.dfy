/**
  Where the lines of a cols x rows grid lie, and the per-cell index that lists
  the lines through each cell (the handler's table of lists).

  Lines are created scanning rows from the bottom, columns from the left, and
  at each start cell in the order horizontal, vertical, right diagonal, left
  diagonal; line number i is the i-th one created.
 */
module LineIndex {

  /** (column, row) */
  type Cell = (int, int)

  datatype Direction = Horizontal | Vertical | DiagonalRight | DiagonalLeft

  /** A line is named by the cell it starts from and the direction it runs in. */
  datatype LineDef = LineDef(col: int, row: int, dir: Direction)

  /** The step from one cell of a line to the next. */
  function DeltaCol(dir: Direction): int
  {
    match dir
    case Horizontal => 1
    case Vertical => 0
    case DiagonalRight => 1
    case DiagonalLeft => -1
  }

  function DeltaRow(dir: Direction): int
  {
    if dir == Horizontal then 0 else 1
  }

  /** The k-th cell of a line, k in 0..3, in the order the line registers its cells. */
  function CellAt(d: LineDef, k: int): Cell
  {
    (d.col + k * DeltaCol(d.dir), d.row + k * DeltaRow(d.dir))
  }

  function CellsOf(d: LineDef): seq<Cell>
  {
    [CellAt(d, 0), CellAt(d, 1), CellAt(d, 2), CellAt(d, 3)]
  }

  predicate InGrid(cols: int, rows: int, x: Cell)
  {
    0 <= x.0 < cols && 0 <= x.1 < rows
  }

  /** The condition under which the scan creates a line in direction `dir` from (c, r). */
  predicate DirFits(cols: int, rows: int, c: int, r: int, dir: Direction)
  {
    match dir
    case Horizontal => c + 3 < cols
    case Vertical => r + 3 < rows
    case DiagonalRight => c + 3 < cols && r + 3 < rows
    case DiagonalLeft => c - 3 >= 0 && r + 3 < rows
  }

  predicate Fits(cols: int, rows: int, d: LineDef)
  {
    0 <= d.col < cols && 0 <= d.row < rows && DirFits(cols, rows, d.col, d.row, d.dir)
  }

  /** The lines created from start cell (c, r), trying the directions in the order given. */
  function StartLinesFrom(cols: int, rows: int, c: int, r: int, dirs: seq<Direction>): seq<LineDef>
  {
    if |dirs| == 0 then []
    else (if DirFits(cols, rows, c, r, dirs[0]) then [LineDef(c, r, dirs[0])] else [])
         + StartLinesFrom(cols, rows, c, r, dirs[1..])
  }

  /** The lines created from start cell (c, r): horizontal, vertical, right diagonal, left diagonal. */
  function StartLines(cols: int, rows: int, c: int, r: int): seq<LineDef>
  {
    StartLinesFrom(cols, rows, c, r, [Horizontal, Vertical, DiagonalRight, DiagonalLeft])
  }

  /** The lines created by the scan from cell (c, r) onwards: rest of row r, then the rows above. */
  function ScanFrom(cols: nat, rows: nat, c: nat, r: nat): seq<LineDef>
    decreases rows - r, cols - c
  {
    if r >= rows then []
    else if c >= cols then ScanFrom(cols, rows, 0, r + 1)
    else StartLines(cols, rows, c, r) + ScanFrom(cols, rows, c + 1, r)
  }

  /** Every line of the grid, numbered in creation order. */
  function AllLines(cols: nat, rows: nat): seq<LineDef>
  {
    ScanFrom(cols, rows, 0, 0)
  }

  predicate Distinct<T(==)>(s: seq<T>)
  {
    forall i, j :: 0 <= i < j < |s| ==> s[i] != s[j]
  }

  // ---------------------------------------------------------------------------
  // Geometry of the enumeration

  /** The four cells of a line are pairwise different. */
  lemma CellsDistinct(d: LineDef)
    ensures Distinct(CellsOf(d))
  {
  }

  /** A line the scan creates lies wholly on the grid. */
  lemma FitsInGrid(cols: int, rows: int, d: LineDef)
    requires Fits(cols, rows, d)
    ensures InGrid(cols, rows, CellAt(d, 0)) && InGrid(cols, rows, CellAt(d, 1))
    ensures InGrid(cols, rows, CellAt(d, 2)) && InGrid(cols, rows, CellAt(d, 3))
  {
  }

  lemma {:induction false} StartLinesFromMember(cols: int, rows: int, c: int, r: int, dirs: seq<Direction>, d: LineDef)
    ensures d in StartLinesFrom(cols, rows, c, r, dirs) <==> d.col == c && d.row == r && d.dir in dirs && DirFits(cols, rows, c, r, d.dir)
  {
    if |dirs| > 0 {
      StartLinesFromMember(cols, rows, c, r, dirs[1..], d);
      assert dirs == [dirs[0]] + dirs[1..];
    }
  }

  lemma {:induction false} StartLinesFromDistinct(cols: int, rows: int, c: int, r: int, dirs: seq<Direction>)
    requires Distinct(dirs)
    ensures Distinct(StartLinesFrom(cols, rows, c, r, dirs))
  {
    if |dirs| > 0 {
      var rest := dirs[1..];
      assert Distinct(rest) by {
        forall i, j | 0 <= i < j < |rest| ensures rest[i] != rest[j] {
          assert rest[i] == dirs[i + 1] && rest[j] == dirs[j + 1];
        }
      }
      StartLinesFromDistinct(cols, rows, c, r, rest);
      var first := if DirFits(cols, rows, c, r, dirs[0]) then [LineDef(c, r, dirs[0])] else [];
      forall x | x in first
        ensures x !in StartLinesFrom(cols, rows, c, r, rest)
      {
        StartLinesFromMember(cols, rows, c, r, rest, x);
      }
      DistinctConcat(first, StartLinesFrom(cols, rows, c, r, rest));
    }
  }

  lemma StartLinesMember(cols: int, rows: int, c: int, r: int, d: LineDef)
    ensures d in StartLines(cols, rows, c, r) <==> d.col == c && d.row == r && DirFits(cols, rows, c, r, d.dir)
  {
    StartLinesFromMember(cols, rows, c, r, [Horizontal, Vertical, DiagonalRight, DiagonalLeft], d);
  }

  lemma StartLinesDistinct(cols: int, rows: int, c: int, r: int)
    ensures Distinct(StartLines(cols, rows, c, r))
  {
    StartLinesFromDistinct(cols, rows, c, r, [Horizontal, Vertical, DiagonalRight, DiagonalLeft]);
  }

  lemma DistinctConcat<T>(a: seq<T>, b: seq<T>)
    requires Distinct(a) && Distinct(b)
    requires forall x :: x in a ==> x !in b
    ensures Distinct(a + b)
  {
    forall i, j | 0 <= i < j < |a + b|
      ensures (a + b)[i] != (a + b)[j]
    {
      if j >= |a| && i < |a| {
        assert (a + b)[i] in a;
        assert (a + b)[j] == b[j - |a|];
      }
    }
  }

  /** (col, row) comes at or after (c, r) in the scan order. */
  predicate NotBefore(d: LineDef, c: int, r: int)
  {
    d.row > r || (d.row == r && d.col >= c)
  }

  /** Every line the scan creates from (c, r) onwards fits on the grid and starts at or after (c, r). */
  lemma {:induction false} ScanSound(cols: nat, rows: nat, c: nat, r: nat, d: LineDef)
    requires d in ScanFrom(cols, rows, c, r)
    ensures Fits(cols, rows, d) && NotBefore(d, c, r)
    decreases rows - r, cols - c
  {
    if c >= cols {
      ScanSound(cols, rows, 0, r + 1, d);
    } else if d in StartLines(cols, rows, c, r) {
      StartLinesMember(cols, rows, c, r, d);
    } else {
      ScanSound(cols, rows, c + 1, r, d);
    }
  }

  /** Every line that fits and starts at or after (c, r) is created by the scan from (c, r) onwards. */
  lemma {:induction false} ScanComplete(cols: nat, rows: nat, c: nat, r: nat, d: LineDef)
    requires Fits(cols, rows, d) && NotBefore(d, c, r)
    ensures d in ScanFrom(cols, rows, c, r)
    decreases rows - r, cols - c
  {
    if c >= cols {
      ScanComplete(cols, rows, 0, r + 1, d);
    } else if d.col == c && d.row == r {
      StartLinesMember(cols, rows, c, r, d);
    } else {
      ScanComplete(cols, rows, c + 1, r, d);
    }
  }

  lemma ScanMember(cols: nat, rows: nat, c: nat, r: nat, d: LineDef)
    ensures d in ScanFrom(cols, rows, c, r) <==> Fits(cols, rows, d) && NotBefore(d, c, r)
  {
    if d in ScanFrom(cols, rows, c, r) {
      ScanSound(cols, rows, c, r, d);
    }
    if Fits(cols, rows, d) && NotBefore(d, c, r) {
      ScanComplete(cols, rows, c, r, d);
    }
  }

  lemma {:induction false} ScanDistinct(cols: nat, rows: nat, c: nat, r: nat)
    ensures Distinct(ScanFrom(cols, rows, c, r))
    decreases rows - r, cols - c
  {
    if r >= rows {
    } else if c >= cols {
      ScanDistinct(cols, rows, 0, r + 1);
    } else {
      ScanDistinct(cols, rows, c + 1, r);
      StartLinesDistinct(cols, rows, c, r);
      var here, rest := StartLines(cols, rows, c, r), ScanFrom(cols, rows, c + 1, r);
      forall x | x in here
        ensures x !in rest
      {
        StartLinesMember(cols, rows, c, r, x);
        ScanMember(cols, rows, c + 1, r, x);
      }
      DistinctConcat(here, rest);
    }
  }

  /** The scan creates exactly one line per start cell and direction that fits on the grid. */
  lemma AllLinesSpec(cols: nat, rows: nat)
    ensures forall d :: d in AllLines(cols, rows) <==> Fits(cols, rows, d)
    ensures Distinct(AllLines(cols, rows))
    ensures forall i :: 0 <= i < |AllLines(cols, rows)| ==> Fits(cols, rows, AllLines(cols, rows)[i])
  {
    forall d
      ensures d in AllLines(cols, rows) <==> Fits(cols, rows, d)
    {
      ScanMember(cols, rows, 0, 0, d);
    }
    ScanDistinct(cols, rows, 0, 0);
  }

  function Ind(b: bool): nat
  {
    if b then 1 else 0
  }

  lemma StartLinesCount(cols: int, rows: int, c: int, r: int)
    ensures |StartLines(cols, rows, c, r)|
         == Ind(c + 3 < cols) + Ind(r + 3 < rows) + Ind(c + 3 < cols && r + 3 < rows) + Ind(c >= 3 && r + 3 < rows)
  {
    var d4 := [Horizontal, Vertical, DiagonalRight, DiagonalLeft];
    var d3 := [Vertical, DiagonalRight, DiagonalLeft];
    var d2 := [DiagonalRight, DiagonalLeft];
    var d1 := [DiagonalLeft];
    assert d4[1..] == d3 && d3[1..] == d2 && d2[1..] == d1 && d1[1..] == [];
    assert |StartLinesFrom(cols, rows, c, r, d1)| == Ind(c >= 3 && r + 3 < rows);
    assert |StartLinesFrom(cols, rows, c, r, d2)| == Ind(c + 3 < cols && r + 3 < rows) + Ind(c >= 3 && r + 3 < rows);
    assert |StartLinesFrom(cols, rows, c, r, d3)|
        == Ind(r + 3 < rows) + Ind(c + 3 < cols && r + 3 < rows) + Ind(c >= 3 && r + 3 < rows);
  }

  /** Number of lines the scan of the 7 x 6 board creates from (c, r) onwards. */
  function StandardRemaining(c: int, r: int): int
  {
    var above := if r >= 2 then 4 * (5 - r) else 12 + 19 * (2 - r);
    var here := (if c < 4 then 4 - c else 0)
              + (if r < 3 then (7 - c) + (if c < 4 then 4 - c else 0) + (if c < 3 then 4 else 7 - c) else 0);
    above + here
  }

  lemma {:induction false} StandardScanCount(c: nat, r: nat)
    requires c <= 7 && r < 6
    ensures |ScanFrom(7, 6, c, r)| == StandardRemaining(c, r)
    decreases 6 - r, 7 - c
  {
    if c == 7 {
      if r < 5 {
        StandardScanCount(0, r + 1);
      }
    } else {
      StandardScanCount(c + 1, r);
      StartLinesCount(7, 6, c, r);
    }
  }

  /** The standard 7 x 6 board has 24 horizontal, 21 vertical and 2 x 12 diagonal lines. */
  lemma StandardLineCount()
    ensures |AllLines(7, 6)| == 69
  {
    StandardScanCount(0, 0);
  }

  // ---------------------------------------------------------------------------
  // The per-cell index

  /** Strictly decreasing, hence free of repeats: lists hold the most recent line first. */
  predicate Decreasing(s: seq<nat>)
  {
    forall i, j :: 0 <= i < j < |s| ==> s[i] > s[j]
  }

  /** Reference definition: the numbers of those of the first n lines that pass through x, newest first. */
  function LinesThrough(x: Cell, defs: seq<LineDef>, n: nat): seq<nat>
    requires n <= |defs|
  {
    if n == 0 then []
    else (if x in CellsOf(defs[n - 1]) then [n - 1] else []) + LinesThrough(x, defs, n - 1)
  }

  lemma {:induction false} LinesThroughMember(x: Cell, defs: seq<LineDef>, n: nat, id: int)
    requires n <= |defs|
    ensures id in LinesThrough(x, defs, n) ==> 0 <= id < n && x in CellsOf(defs[id])
    ensures 0 <= id < n && x in CellsOf(defs[id]) ==> id in LinesThrough(x, defs, n)
  {
    if n > 0 {
      LinesThroughMember(x, defs, n - 1, id);
    }
  }

  lemma PrependDecreasing(id: nat, list: seq<nat>)
    requires Decreasing(list) && forall x :: x in list ==> x < id
    ensures Decreasing([id] + list)
  {
    var l := [id] + list;
    forall i, j | 0 <= i < j < |l|
      ensures l[i] > l[j]
    {
      assert l[j] == list[j - 1];
      if i > 0 {
        assert l[i] == list[i - 1];
      } else {
        assert list[j - 1] in list;
      }
    }
  }

  lemma {:induction false} LinesThroughDecreasing(x: Cell, defs: seq<LineDef>, n: nat)
    requires n <= |defs|
    ensures Decreasing(LinesThrough(x, defs, n))
  {
    if n > 0 {
      var rest := LinesThrough(x, defs, n - 1);
      LinesThroughDecreasing(x, defs, n - 1);
      if x in CellsOf(defs[n - 1]) {
        forall id | id in rest ensures id < n - 1 {
          LinesThroughMember(x, defs, n - 1, id);
        }
        PrependDecreasing(n - 1, rest);
      }
    }
  }

  /**
    The list of lines the handler keeps for cell x: each line, as it is created, pushes its
    number on the front of the lists of its four cells.
   */
  function CellLines(cols: nat, rows: nat, x: Cell): seq<nat>
  {
    LinesThrough(x, AllLines(cols, rows), |AllLines(cols, rows)|)
  }

  /**
    A cell's list holds exactly the lines through that cell, each once and the most recently
    created first; only cells on the grid have lines.
   */
  lemma CellLinesSpec(cols: nat, rows: nat, x: Cell, id: int)
    ensures id in CellLines(cols, rows, x) <==> 0 <= id < |AllLines(cols, rows)| && x in CellsOf(AllLines(cols, rows)[id])
    ensures Decreasing(CellLines(cols, rows, x))
    ensures id in CellLines(cols, rows, x) ==> InGrid(cols, rows, x)
  {
    var defs := AllLines(cols, rows);
    LinesThroughMember(x, defs, |defs|, id);
    LinesThroughDecreasing(x, defs, |defs|);
    if id in CellLines(cols, rows, x) {
      AllLinesSpec(cols, rows);
      FitsInGrid(cols, rows, defs[id]);
    }
  }
}
