/**
  What the game tree computes, stated without the shared board. The reference Value builds
  each child on its own copy of the board (no taking back), lists the children's values by
  column, and folds the list with the same step as the scan. The lemmas show that the search
  on the shared board computes exactly this, and characterise the fold: at even levels the
  minimum, ties to the later column, stopping at player two's sure win; at odd levels the
  maximum, ties to the later column, stopping at player one's sure win.
 */
module GameTreeSpec {
  import opened Pieces
  import opened LineIndex
  import opened Boards
  import opened BoardProperties
  import opened BoardInvariant
  import opened GameTree

  // ---------------------------------------------------------------------------
  // The reference

  /** Offers the (column, value) children one by one to Choose until it says stop. */
  function Scan(cs: seq<(int, int)>, level: int, best: Node): Node
  {
    if |cs| == 0 then best
    else
      var (next, stop) := Choose(level, best, cs[0].1, cs[0].0);
      if stop then next else Scan(cs[1..], level, next)
  }

  /** The value of the node for board b at the given level, each child on a board of its own. */
  function Value(b: Board, level: int, depth: int): Node
    requires Playable(b)
    decreases Room(b), 1, 0
  {
    if Terminal(b, level, depth) then Node(Evaluate(b), -1)
    else Scan(Children(b, level, depth, 0), level, Node(StartValue(b), -1))
  }

  /** The children from column col onwards: each column that is not full with its child's value. */
  function Children(b: Board, level: int, depth: int, col: int): seq<(int, int)>
    requires Playable(b) && 0 <= col <= b.cols
    decreases Room(b), 0, b.cols - col
  {
    if col == b.cols then []
    else if IsFull(b, col) then Children(b, level, depth, col + 1)
    else [(col, ChildValue(b, level, depth, col))] + Children(b, level, depth, col + 1)
  }

  /** The value of the child that places the next piece in column col. */
  function ChildValue(b: Board, level: int, depth: int, col: int): int
    requires Playable(b) && 0 <= col < b.cols && !IsFull(b, col)
    decreases Room(b), 0, 0
  {
    PlayableChild(b, ChildPiece(b), col);
    Value(Place(b, ChildPiece(b), col).0, level + 1, depth).value
  }

  /** What the reference needs of a board: its shape, a last piece, heights in range that add up to the count. */
  predicate Playable(b: Board)
  {
    && Shape(b) && |b.turns| > 0
    && (forall c :: 0 <= c < b.cols ==> 0 <= b.heights[c] <= b.rows)
    && b.count == SumSeq(b.heights)
  }

  lemma PlayableChild(b: Board, p: Piece, col: int)
    requires Playable(b) && 0 <= col < b.cols && !IsFull(b, col)
    ensures Playable(Place(b, p, col).0)
    ensures 0 <= Room(Place(b, p, col).0) == Room(b) - 1
  {
    var row := b.heights[col];
    var placed := Place(b, p, col).0;
    assert placed.heights == b.heights[col := row + 1] && placed.count == b.count + 1;
    assert placed.rows == b.rows && placed.cols == b.cols && |placed.turns| > 0;
    SumSeqUpdate(b.heights, col, row + 1);
    HeightsFull(b.heights, b.rows, b.cols);
  }

  lemma SearchableEquivalent(b': Board, b: Board)
    requires Searchable(b') && Equivalent(b', b)
    ensures Searchable(b)
  {
    InvEquivalent(b', b);
    EquivalentQueries(b', b);
  }

  lemma SearchablePlayable(b: Board)
    requires Searchable(b)
    ensures Playable(b)
  {
  }

  // ---------------------------------------------------------------------------
  // The search computes the reference

  /**
    The search on the shared board, started from any board equivalent to b, reports the node
    that the reference computes for b.
   */
  lemma {:induction false} SearchAgrees(b': Board, b: Board, level: int, depth: int)
    requires Playable(b) && Searchable(b') && Equivalent(b', b)
    ensures Search(b', level, depth).0 == Value(b, level, depth)
    decreases Room(b), 1, 0, 0
  {
    EquivalentQueries(b', b);
    if !Terminal(b, level, depth) {
      ExpandReady(b', level, depth);
      FindBestAgrees(b', b, level, depth, 0, Node(StartValue(b), -1));
    }
  }

  lemma {:induction false} FindBestAgrees(b': Board, b: Board, level: int, depth: int, col: int, best: Node)
    requires Playable(b) && Searchable(b') && Equivalent(b', b)
    requires !b'.won && !FullBoard(b') && 0 <= col <= b.cols
    ensures FindBest(b', level, depth, col, best).0 == Scan(Children(b, level, depth, col), level, best)
    decreases Room(b), 0, b.cols - col, 1
  {
    if col < b.cols {
      if IsFull(b, col) {
        SkipColumnAgrees(b', b, level, depth, col, best);
      } else {
        TryColumnAgrees(b', b, level, depth, col, best);
      }
    }
  }

  /** The scan agrees with the reference at a full column. */
  lemma {:induction false} SkipColumnAgrees(b': Board, b: Board, level: int, depth: int, col: int, best: Node)
    requires Playable(b) && Searchable(b') && Equivalent(b', b)
    requires !b'.won && !FullBoard(b') && 0 <= col < b.cols && IsFull(b, col)
    ensures FindBest(b', level, depth, col, best).0 == Scan(Children(b, level, depth, col), level, best)
    decreases Room(b), 0, b.cols - col, 0
  {
    assert Children(b, level, depth, col) == Children(b, level, depth, col + 1);
    assert b'.heights == b.heights && b'.rows == b.rows && b'.cols == b.cols;
    assert FindBest(b', level, depth, col, best) == FindBest(b', level, depth, col + 1, best);
    FindBestAgrees(b', b, level, depth, col + 1, best);
  }

  /** The scan agrees with the reference at a column that is not full. */
  lemma {:induction false} TryColumnAgrees(b': Board, b: Board, level: int, depth: int, col: int, best: Node)
    requires Playable(b) && Searchable(b') && Equivalent(b', b)
    requires !b'.won && !FullBoard(b') && 0 <= col < b.cols && !IsFull(b, col)
    ensures FindBest(b', level, depth, col, best).0 == Scan(Children(b, level, depth, col), level, best)
    decreases Room(b), 0, b.cols - col, 0
  {
    TryAgrees(b', b, level, depth, col, best);
    var t := TryColumn(b', level, depth, col, best);
    FindBestUnfold(b', level, depth, col, best);
    ScanUnfold(b, level, depth, col, best);
    if !t.1 {
      EquivalentIsEquivalence(t.2, b', b);
      FindBestAgrees(t.2, b, level, depth, col + 1, t.0);
      assert FindBest(b', level, depth, col, best).0 == FindBest(t.2, level, depth, col + 1, t.0).0;
      assert Scan(Children(b, level, depth, col), level, best) == Scan(Children(b, level, depth, col + 1), level, t.0);
    }
  }

  /** One step of the column scan, unfolded: kept apart so that its callers' proofs stay small. */
  lemma FindBestUnfold(b: Board, level: int, depth: int, col: int, best: Node)
    requires Searchable(b) && !b.won && !FullBoard(b) && 0 <= col < b.cols && !IsFull(b, col)
    ensures var t := TryColumn(b, level, depth, col, best);
            FindBest(b, level, depth, col, best).0 == if t.1 then t.0 else FindBest(t.2, level, depth, col + 1, t.0).0
  {
  }

  /** One step of the reference fold, unfolded: kept apart so that its callers' proofs stay small. */
  lemma ScanUnfold(b: Board, level: int, depth: int, col: int, best: Node)
    requires Playable(b) && 0 <= col < b.cols && !IsFull(b, col)
    ensures var ch := Choose(level, best, ChildValue(b, level, depth, col), col);
            Scan(Children(b, level, depth, col), level, best)
              == if ch.1 then ch.0 else Scan(Children(b, level, depth, col + 1), level, ch.0)
  {
    var cs := Children(b, level, depth, col);
    assert cs[0] == (col, ChildValue(b, level, depth, col));
    assert cs[1..] == Children(b, level, depth, col + 1);
  }

  /**
    One column of the scan: the child built on the shared board is worth the reference child's
    value, so the try makes the same choice as the reference step.
   */
  lemma {:induction false} TryAgrees(b': Board, b: Board, level: int, depth: int, col: int, best: Node)
    requires Playable(b) && Searchable(b') && Equivalent(b', b)
    requires !b'.won && !FullBoard(b') && 0 <= col < b.cols && !IsFull(b, col)
    ensures !IsFull(b', col)
    ensures var t := TryColumn(b', level, depth, col, best);
            var ch := Choose(level, best, ChildValue(b, level, depth, col), col);
            t.0 == ch.0 && t.1 == ch.1
    decreases Room(b), 0, 0, 0
  {
    SearchableEquivalent(b', b);
    EquivalentQueries(b', b);
    var p := ChildPiece(b);
    assert ChildPiece(b') == p;
    ChildReady(b, p, col);
    ChildReady(b', p, col);
    EquivalentPlace(b', b, p, col);
    SearchAgrees(Place(b', p, col).0, Place(b, p, col).0, level + 1, depth);
    assert MakeChild(b', level, depth, col).0.value == ChildValue(b, level, depth, col);
  }

  // ---------------------------------------------------------------------------
  // The children

  /** The columns from col onwards that are not full, in increasing order. */
  function Open(b: Board, col: int): seq<int>
    requires Shape(b) && 0 <= col <= b.cols
    decreases b.cols - col
  {
    if col == b.cols then []
    else if IsFull(b, col) then Open(b, col + 1)
    else [col] + Open(b, col + 1)
  }

  /** Open lists every column from col onwards that is not full, once each, in increasing order, and nothing else. */
  lemma {:induction false} OpenSpec(b: Board, col: int)
    requires Shape(b) && 0 <= col <= b.cols
    ensures forall i :: 0 <= i < |Open(b, col)| ==> col <= Open(b, col)[i] < b.cols && !IsFull(b, Open(b, col)[i])
    ensures forall i, j :: 0 <= i < j < |Open(b, col)| ==> Open(b, col)[i] < Open(b, col)[j]
    ensures forall c :: col <= c < b.cols && !IsFull(b, c) ==> c in Open(b, col)
    decreases b.cols - col
  {
    if col < b.cols {
      OpenSpec(b, col + 1);
    }
  }

  /** There are as many children as open columns. */
  lemma {:induction false} ChildrenLength(b: Board, level: int, depth: int, col: int)
    requires Playable(b) && 0 <= col <= b.cols
    ensures |Children(b, level, depth, col)| == |Open(b, col)|
    decreases b.cols - col
  {
    if col < b.cols {
      ChildrenLength(b, level, depth, col + 1);
      var rest := Children(b, level, depth, col + 1);
      if IsFull(b, col) {
        assert Children(b, level, depth, col) == rest && Open(b, col) == Open(b, col + 1);
      } else {
        assert |Children(b, level, depth, col)| == 1 + |rest| && |Open(b, col)| == 1 + |Open(b, col + 1)|;
      }
    }
  }

  /** The i-th child is for the i-th open column. */
  lemma {:induction false} ChildrenOpen(b: Board, level: int, depth: int, col: int, i: int)
    requires Playable(b) && 0 <= col <= b.cols && 0 <= i < |Children(b, level, depth, col)|
    ensures i < |Open(b, col)| && Children(b, level, depth, col)[i].0 == Open(b, col)[i]
    decreases b.cols - col
  {
    assert col < b.cols;
    if IsFull(b, col) {
      assert Children(b, level, depth, col) == Children(b, level, depth, col + 1);
      assert Open(b, col) == Open(b, col + 1);
      ChildrenOpen(b, level, depth, col + 1, i);
    } else {
      ChildrenCons(b, level, depth, col);
      if i > 0 {
        assert Children(b, level, depth, col)[i] == Children(b, level, depth, col + 1)[i - 1];
        ChildrenOpen(b, level, depth, col + 1, i - 1);
        assert Open(b, col)[i] == Open(b, col + 1)[i - 1];
      }
    }
  }

  /** The i-th child's column is on the board and not full, and its value is the reference value of that child. */
  lemma {:induction false} ChildrenValues(b: Board, level: int, depth: int, col: int, i: int)
    requires Playable(b) && 0 <= col <= b.cols && 0 <= i < |Children(b, level, depth, col)|
    ensures var c := Children(b, level, depth, col)[i].0;
            0 <= c < b.cols && !IsFull(b, c) && Children(b, level, depth, col)[i].1 == ChildValue(b, level, depth, c)
    decreases b.cols - col
  {
    assert col < b.cols;
    if IsFull(b, col) {
      assert Children(b, level, depth, col) == Children(b, level, depth, col + 1);
      ChildrenValues(b, level, depth, col + 1, i);
    } else {
      ChildrenCons(b, level, depth, col);
      if i > 0 {
        assert Children(b, level, depth, col)[i] == Children(b, level, depth, col + 1)[i - 1];
        ChildrenValues(b, level, depth, col + 1, i - 1);
      }
    }
  }

  /** At a column that is not full, the children and the open columns start with that column. */
  lemma ChildrenCons(b: Board, level: int, depth: int, col: int)
    requires Playable(b) && 0 <= col < b.cols && !IsFull(b, col)
    ensures Children(b, level, depth, col) == [(col, ChildValue(b, level, depth, col))] + Children(b, level, depth, col + 1)
    ensures Open(b, col) == [col] + Open(b, col + 1)
  {
  }

  // ---------------------------------------------------------------------------
  // The fold

  /** How many children the scan looks at when a value of w ends it: up to and including the first w. */
  function Explored(cs: seq<(int, int)>, w: int): (n: nat)
    ensures n <= |cs|
    ensures forall i :: 0 <= i < n - 1 ==> cs[i].1 != w
    ensures n < |cs| ==> n > 0 && cs[n - 1].1 == w
  {
    if |cs| == 0 then 0
    else if cs[0].1 == w then 1
    else 1 + Explored(cs[1..], w)
  }

  /** The scan's result is the start or one of the children. */
  lemma {:induction false} ScanPicks(cs: seq<(int, int)>, level: int, best: Node)
    ensures Scan(cs, level, best) == best
         || exists i :: 0 <= i < |cs| && Scan(cs, level, best) == Node(cs[i].1, cs[i].0)
  {
    if |cs| > 0 {
      var (next, stop) := Choose(level, best, cs[0].1, cs[0].0);
      if !stop {
        ScanPicks(cs[1..], level, next);
        if Scan(cs[1..], level, next) != next {
          var i :| 0 <= i < |cs[1..]| && Scan(cs[1..], level, next) == Node(cs[1..][i].1, cs[1..][i].0);
          assert cs[1..][i] == cs[i + 1];
        }
      }
    }
  }

  /** At an even level the scan's value is at most the start and at most every value it looks at. */
  lemma {:induction false} ScanMinBound(cs: seq<(int, int)>, level: int, best: Node)
    requires level % 2 == 0 && P2_WIN <= best.value
    requires forall i :: 0 <= i < |cs| ==> P2_WIN <= cs[i].1
    ensures Scan(cs, level, best).value <= best.value
    ensures forall i :: 0 <= i < Explored(cs, P2_WIN) ==> Scan(cs, level, best).value <= cs[i].1
  {
    if |cs| > 0 {
      var (next, stop) := Choose(level, best, cs[0].1, cs[0].0);
      if !stop {
        var rest := cs[1..];
        ScanMinBound(rest, level, next);
        forall i | 1 <= i < Explored(cs, P2_WIN) ensures Scan(cs, level, best).value <= cs[i].1 {
          assert cs[i] == rest[i - 1];
        }
      }
    }
  }

  /** At an even level, when every value the scan looks at is above the start, the start is the result. */
  lemma {:induction false} ScanMinKeeps(cs: seq<(int, int)>, level: int, best: Node)
    requires level % 2 == 0 && P2_WIN <= best.value
    requires forall i :: 0 <= i < Explored(cs, P2_WIN) ==> cs[i].1 > best.value
    ensures Scan(cs, level, best) == best
  {
    if |cs| > 0 {
      assert cs[0].1 > best.value;
      var rest := cs[1..];
      forall i | 0 <= i < Explored(rest, P2_WIN) ensures rest[i].1 > best.value {
        assert rest[i] == cs[i + 1];
      }
      ScanMinKeeps(rest, level, best);
    }
  }

  /**
    At an even level, when some value the scan looks at is at most the start, the result is
    a child it looks at, and every later child it looks at is worth strictly more: of the
    children with the least value the last one wins.
   */
  lemma {:induction false} ScanMinLast(cs: seq<(int, int)>, level: int, best: Node)
    requires level % 2 == 0 && P2_WIN <= best.value
    requires forall i :: 0 <= i < |cs| ==> P2_WIN <= cs[i].1
    requires exists i :: 0 <= i < Explored(cs, P2_WIN) && cs[i].1 <= best.value
    ensures exists j :: 0 <= j < Explored(cs, P2_WIN) && Scan(cs, level, best) == Node(cs[j].1, cs[j].0)
              && forall i :: j < i < Explored(cs, P2_WIN) ==> cs[i].1 > Scan(cs, level, best).value
  {
    var n := Explored(cs, P2_WIN);
    var r := Scan(cs, level, best);
    var (next, stop) := Choose(level, best, cs[0].1, cs[0].0);
    var rest := cs[1..];
    if stop {
      assert r == Node(cs[0].1, cs[0].0) && n == 1;
    } else {
      assert n == 1 + Explored(rest, P2_WIN) && r == Scan(rest, level, next);
      forall i | 0 <= i < |rest| ensures rest[i] == cs[i + 1] { }
      if best.value < cs[0].1 {
        assert next == best;
        var k :| 0 <= k < n && cs[k].1 <= best.value;
        assert k != 0 && rest[k - 1] == cs[k];
      }
      if exists i :: 0 <= i < n - 1 && rest[i].1 <= next.value {
        ScanMinLast(rest, level, next);
        var j :| 0 <= j < n - 1 && r == Node(rest[j].1, rest[j].0) && forall i :: j < i < n - 1 ==> rest[i].1 > r.value;
        assert r == Node(cs[j + 1].1, cs[j + 1].0);
        forall i | j + 1 < i < n ensures cs[i].1 > r.value {
          assert cs[i] == rest[i - 1];
        }
      } else {
        assert next == Node(cs[0].1, cs[0].0);
        ScanMinKeeps(rest, level, next);
        forall i | 0 < i < n ensures cs[i].1 > r.value {
          assert cs[i] == rest[i - 1];
        }
      }
    }
  }

  /** At an odd level the scan's value is at least the start and at least every value it looks at. */
  lemma {:induction false} ScanMaxBound(cs: seq<(int, int)>, level: int, best: Node)
    requires level % 2 != 0 && best.value <= P1_WIN
    requires forall i :: 0 <= i < |cs| ==> cs[i].1 <= P1_WIN
    ensures Scan(cs, level, best).value >= best.value
    ensures forall i :: 0 <= i < Explored(cs, P1_WIN) ==> Scan(cs, level, best).value >= cs[i].1
  {
    if |cs| > 0 {
      var (next, stop) := Choose(level, best, cs[0].1, cs[0].0);
      if !stop {
        var rest := cs[1..];
        ScanMaxBound(rest, level, next);
        forall i | 1 <= i < Explored(cs, P1_WIN) ensures Scan(cs, level, best).value >= cs[i].1 {
          assert cs[i] == rest[i - 1];
        }
      }
    }
  }

  /** At an odd level, when every value the scan looks at is below the start, the start is the result. */
  lemma {:induction false} ScanMaxKeeps(cs: seq<(int, int)>, level: int, best: Node)
    requires level % 2 != 0 && best.value <= P1_WIN
    requires forall i :: 0 <= i < Explored(cs, P1_WIN) ==> cs[i].1 < best.value
    ensures Scan(cs, level, best) == best
  {
    if |cs| > 0 {
      assert cs[0].1 < best.value;
      var rest := cs[1..];
      forall i | 0 <= i < Explored(rest, P1_WIN) ensures rest[i].1 < best.value {
        assert rest[i] == cs[i + 1];
      }
      ScanMaxKeeps(rest, level, best);
    }
  }

  /**
    At an odd level, when some value the scan looks at is at least the start, the result is
    a child it looks at, and every later child it looks at is worth strictly less: of the
    children with the greatest value the last one wins.
   */
  lemma {:induction false} ScanMaxLast(cs: seq<(int, int)>, level: int, best: Node)
    requires level % 2 != 0 && best.value <= P1_WIN
    requires forall i :: 0 <= i < |cs| ==> cs[i].1 <= P1_WIN
    requires exists i :: 0 <= i < Explored(cs, P1_WIN) && cs[i].1 >= best.value
    ensures exists j :: 0 <= j < Explored(cs, P1_WIN) && Scan(cs, level, best) == Node(cs[j].1, cs[j].0)
              && forall i :: j < i < Explored(cs, P1_WIN) ==> cs[i].1 < Scan(cs, level, best).value
  {
    var n := Explored(cs, P1_WIN);
    var r := Scan(cs, level, best);
    var (next, stop) := Choose(level, best, cs[0].1, cs[0].0);
    var rest := cs[1..];
    if stop {
      assert r == Node(cs[0].1, cs[0].0) && n == 1;
    } else {
      assert n == 1 + Explored(rest, P1_WIN) && r == Scan(rest, level, next);
      forall i | 0 <= i < |rest| ensures rest[i] == cs[i + 1] { }
      if best.value > cs[0].1 {
        assert next == best;
        var k :| 0 <= k < n && cs[k].1 >= best.value;
        assert k != 0 && rest[k - 1] == cs[k];
      }
      if exists i :: 0 <= i < n - 1 && rest[i].1 >= next.value {
        ScanMaxLast(rest, level, next);
        var j :| 0 <= j < n - 1 && r == Node(rest[j].1, rest[j].0) && forall i :: j < i < n - 1 ==> rest[i].1 < r.value;
        assert r == Node(cs[j + 1].1, cs[j + 1].0);
        forall i | j + 1 < i < n ensures cs[i].1 < r.value {
          assert cs[i] == rest[i - 1];
        }
      } else {
        assert next == Node(cs[0].1, cs[0].0);
        ScanMaxKeeps(rest, level, next);
        forall i | 0 < i < n ensures cs[i].1 < r.value {
          assert cs[i] == rest[i - 1];
        }
      }
    }
  }

  // ---------------------------------------------------------------------------
  // The search as a minimax

  /** An expanding node reports the scan of its children from its start value. */
  lemma SearchScans(b: Board, level: int, depth: int)
    requires Searchable(b) && !Terminal(b, level, depth)
    ensures Search(b, level, depth).0 == Scan(Children(b, level, depth, 0), level, Node(StartValue(b), -1))
  {
    EquivalentIsEquivalence(b, b, b);
    SearchAgrees(b, b, level, depth);
  }

  /** A child's value is what the search reports for the board with the next piece in that column. */
  lemma ChildSearch(b: Board, level: int, depth: int, c: int)
    requires Searchable(b) && 0 <= c < b.cols && !IsFull(b, c)
    ensures Searchable(Place(b, ChildPiece(b), c).0)
    ensures ChildValue(b, level, depth, c) == Search(Place(b, ChildPiece(b), c).0, level + 1, depth).0.value
  {
    var placed := Place(b, ChildPiece(b), c).0;
    ChildReady(b, ChildPiece(b), c);
    EquivalentIsEquivalence(placed, placed, placed);
    SearchAgrees(placed, placed, level + 1, depth);
  }

  /**
    On a grid with few enough lines for the heuristic, every node's value lies between the two
    sentinels.
   */
  lemma {:induction false} ValueRange(b: Board, level: int, depth: int)
    requires Searchable(b) && HeuristicFits(|AllLines(b.cols, b.rows)|)
    ensures P2_WIN <= Value(b, level, depth).value <= P1_WIN
    decreases Room(b), 1
  {
    if Terminal(b, level, depth) {
      if b.won {
        EvaluateWon(b);
      } else {
        EvaluateRange(b);
      }
    } else {
      ChildrenRange(b, level, depth);
      ScanPicks(Children(b, level, depth, 0), level, Node(StartValue(b), -1));
    }
  }

  /** Every child's value lies between the two sentinels. */
  lemma {:induction false} ChildrenRange(b: Board, level: int, depth: int)
    requires Searchable(b) && HeuristicFits(|AllLines(b.cols, b.rows)|)
    ensures forall i :: 0 <= i < |Children(b, level, depth, 0)| ==>
              P2_WIN <= Children(b, level, depth, 0)[i].1 <= P1_WIN
    decreases Room(b), 0
  {
    var cs := Children(b, level, depth, 0);
    forall i | 0 <= i < |cs| ensures P2_WIN <= cs[i].1 <= P1_WIN {
      ChildrenValues(b, level, depth, 0, i);
      var c := cs[i].0;
      ChildReady(b, ChildPiece(b), c);
      ValueRange(Place(b, ChildPiece(b), c).0, level + 1, depth);
    }
  }

  /**
    Called as the game calls it, at level 0 right after player one's move on a board that is
    neither won nor full and with some depth to search, the search names a column that is on
    the board and not full.
   */
  lemma RootMove(b: Board, depth: int)
    requires Searchable(b) && LastPiece(b).Player1? && !b.won && !FullBoard(b) && depth != 0
    requires HeuristicFits(|AllLines(b.cols, b.rows)|)
    ensures 0 <= Search(b, 0, depth).0.move < b.cols && !IsFull(b, Search(b, 0, depth).0.move)
  {
    EvaluateRange(b);
    assert !Terminal(b, 0, depth);
    SearchScans(b, 0, depth);
    var cs := Children(b, 0, depth, 0);
    OpenColumn(b);
    var c :| 0 <= c < b.cols && !IsFull(b, c);
    OpenSpec(b, 0);
    ChildrenLength(b, 0, depth, 0);
    assert |cs| > 0;
    ChildrenRange(b, 0, depth);
    ScanMinLast(cs, 0, Node(P1_WIN, -1));
    var j :| 0 <= j < Explored(cs, P2_WIN) && Search(b, 0, depth).0 == Node(cs[j].1, cs[j].0);
    ChildrenValues(b, 0, depth, 0, j);
  }
}
