/**
  The game tree: fixed-depth minimax without pruning over the one board, as the AI runs it.
  A node looks at the board; unless it is terminal it tries every column that is not full,
  placing the next player's piece, building the child node one level down on the same board
  and taking the piece back, and keeps the best child. Even levels minimise (player two
  moves), odd levels maximise (player one moves); ties go to the later column, and the scan
  stops at the first child that is a sure win for the side to move.

  The board is threaded through the calls: each function returns the board it leaves behind,
  and the contracts say that board is the one it was given (up to the positions that fresh
  Empty pieces remember).
 */
module GameTree {
  import opened Pieces
  import opened LineIndex
  import opened Boards
  import opened BoardProperties
  import opened BoardInvariant

  /** What a node reports: the value of its best move and the column of that move (-1 for none). */
  datatype Node = Node(value: int, move: int)

  /** Room left on the board: it shrinks with every level of the tree. */
  function Room(b: Board): int
  {
    b.rows * b.cols - b.count
  }

  /** The piece a child places: player two after player one, player one after anything else. */
  function ChildPiece(b: Board): (p: Piece)
    requires |b.turns| > 0
    ensures IsPlayer(p)
    ensures Tag(p) == "P2" <==> Tag(LastPiece(b)) == "P1"
  {
    if Tag(LastPiece(b)) == "P1" then NewPlayer2() else NewPlayer1()
  }

  /** The sentinel a node starts from: player one's win after a P1 move, player two's otherwise. */
  function StartValue(b: Board): (v: int)
    requires |b.turns| > 0
    ensures v == P1_WIN || v == P2_WIN
    ensures v == P1_WIN <==> Tag(LastPiece(b)) == "P1"
  {
    if Tag(LastPiece(b)) == "P1" then P1_WIN else P2_WIN
  }

  /** The last mover has won, as the node sees it: the evaluation is that mover's sentinel. */
  predicate GameOver(b: Board)
    requires |b.turns| > 0
  {
    Evaluate(b) == StartValue(b)
  }

  /** A node does not expand at the search depth, after a win by the last mover, or on a full board. */
  predicate Terminal(b: Board, level: int, depth: int)
    requires |b.turns| > 0
  {
    level == depth || GameOver(b) || FullBoard(b)
  }

  /** A board the search may start from: it keeps the invariant and its last piece is a player's. */
  predicate Searchable(b: Board)
  {
    Inv(b) && IsPlayer(LastPiece(b))
  }

  /**
    The node built for board b at the given level. A terminal node's value is the board's
    evaluation and it has no move; any other node scans the columns from its start value.
   */
  function Search(b: Board, level: int, depth: int): (r: (Node, Board))
    requires Searchable(b)
    ensures Searchable(r.1) && Equivalent(r.1, b)
    ensures Terminal(b, level, depth) ==> r == (Node(Evaluate(b), -1), b)
    ensures r.0.move == -1 || (0 <= r.0.move < b.cols && !IsFull(b, r.0.move))
    decreases Room(b), 2, 0
  {
    if Terminal(b, level, depth) then
      (Node(Evaluate(b), -1), b)
    else
      ExpandReady(b, level, depth);
      FindBest(b, level, depth, 0, Node(StartValue(b), -1))
  }

  /**
    One step of the scan at a level: a child worth v in column col replaces the best when v is
    at most (even level) or at least (odd level) the best value; the answer also says whether
    the scan stops, which it does when the new best is the sure win of the side to move.
   */
  function Choose(level: int, best: Node, v: int, col: int): (r: (Node, bool))
    ensures r.0 == best || r.0 == Node(v, col)
    ensures r.1 ==> r.0 == Node(v, col)
    ensures level % 2 == 0 ==> (r.0 == Node(v, col) <==> best.value >= v) && (r.1 <==> best.value >= v && v == P2_WIN)
    ensures level % 2 != 0 ==> (r.0 == Node(v, col) <==> best.value <= v) && (r.1 <==> best.value <= v && v == P1_WIN)
  {
    if level % 2 == 0 then
      if best.value >= v then (Node(v, col), v == P2_WIN) else (best, false)
    else
      if best.value <= v then (Node(v, col), v == P1_WIN) else (best, false)
  }

  /**
    The scan from column col onwards with best the best child so far: full columns are skipped,
    every other column is tried, and the scan goes on from the next column unless the try says stop.
   */
  function FindBest(b: Board, level: int, depth: int, col: int, best: Node): (r: (Node, Board))
    requires Searchable(b) && !b.won && !FullBoard(b) && 0 <= col <= b.cols
    ensures Searchable(r.1) && Equivalent(r.1, b)
    ensures r.0.move == best.move || (col <= r.0.move < b.cols && !IsFull(b, r.0.move))
    decreases Room(b), 1, b.cols - col
  {
    if col == b.cols then (best, b)
    else if IsFull(b, col) then FindBest(b, level, depth, col + 1, best)
    else
      var t := TryColumn(b, level, depth, col, best);
      if t.1 then (t.0, t.2)
      else
        var r := FindBest(t.2, level, depth, col + 1, t.0);
        EquivalentIsEquivalence(r.1, t.2, b);
        r
  }

  /**
    One column of the scan: builds the child for column col, takes its piece back and offers the
    child to Choose; the answer is the new best, whether to stop, and the board left behind.
   */
  function TryColumn(b: Board, level: int, depth: int, col: int, best: Node): (r: (Node, bool, Board))
    requires Searchable(b) && !b.won && !FullBoard(b) && 0 <= col < b.cols && !IsFull(b, col)
    ensures r.0 == best || r.0.move == col
    ensures Searchable(r.2) && Equivalent(r.2, b) && !r.2.won && !FullBoard(r.2)
    ensures Room(r.2) == Room(b) && r.2.cols == b.cols && r.2.rows == b.rows && r.2.heights == b.heights
    decreases Room(b), 1, 0
  {
    var (child, b1) := MakeChild(b, level, depth, col);
    UndoChild(b, ChildPiece(b), col, b1);
    var b2 := Undo(b1);
    StillSearchable(b, b2);
    var (next, stop) := Choose(level, best, child.value, col);
    (next, stop, b2)
  }

  /**
    Places the next player's piece in column col and builds the child node one level down;
    the board comes back with that piece still on it.
   */
  function MakeChild(b: Board, level: int, depth: int, col: int): (r: (Node, Board))
    requires Searchable(b) && !FullBoard(b) && 0 <= col < b.cols && !IsFull(b, col)
    ensures Equivalent(r.1, Place(b, ChildPiece(b), col).0)
    ensures Searchable(r.1)
    decreases Room(b), 0, 0
  {
    ChildReady(b, ChildPiece(b), col);
    Search(Place(b, ChildPiece(b), col).0, level + 1, depth)
  }

  // ---------------------------------------------------------------------------
  // Steps of the search

  /** A node that expands has room on the board and is not won. */
  lemma ExpandReady(b: Board, level: int, depth: int)
    requires Searchable(b) && !Terminal(b, level, depth)
    ensures !b.won && Room(b) > 0
  {
    CountBounds(b);
  }

  /** A child board is searchable and has less room than its parent. */
  lemma ChildReady(b: Board, p: Piece, col: int)
    requires Inv(b) && 0 <= col < b.cols && !IsFull(b, col) && IsPlayer(p)
    ensures Searchable(Place(b, p, col).0)
    ensures 0 <= Room(Place(b, p, col).0) == Room(b) - 1
  {
    PlaceInv(b, p, col);
    assert LastPiece(Place(b, p, col).0) == SetPosition(p, col, b.heights[col]);
    ChildRoom(b, p, col);
  }

  lemma ChildRoom(b: Board, p: Piece, col: int)
    requires Shape(b) && Stacked(b) && b.count == SumSeq(b.heights) && 0 <= col < b.cols && !IsFull(b, col)
    ensures 0 <= Room(Place(b, p, col).0) == Room(b) - 1
  {
    var placed := Place(b, p, col).0;
    assert placed.count == b.count + 1 && placed.rows == b.rows && placed.cols == b.cols;
    CountBounds(b);
    assert !FullBoard(b);
  }

  /** Taking back the child's piece from a board equivalent to the child gives back the parent. */
  lemma UndoChild(b: Board, p: Piece, col: int, b1: Board)
    requires Inv(b) && !b.won && 0 <= col < b.cols && !IsFull(b, col) && IsPlayer(p)
    requires Equivalent(b1, Place(b, p, col).0)
    ensures Shape(b1) && CanUndo(b1)
    ensures Equivalent(Undo(b1), b) && Inv(Undo(b1))
  {
    var placed := Place(b, p, col).0;
    PlaceInv(b, p, col);
    UndoAfterPlace(b, p, col);
    assert b.(won := false) == b;
    EquivalentIsEquivalence(b1, placed, b);
    EquivalentQueries(placed, b1);
    EquivalentUndo(placed, b1);
    EquivalentIsEquivalence(Undo(b1), Undo(placed), b);
    EquivalentIsEquivalence(b, Undo(b1), b);
    InvEquivalent(b, Undo(b1));
  }

  /**
    A board equivalent to an expanding node's board, and keeping the invariant, can carry on the
    scan. Kept apart so that TryColumn's contract is checked without the whole of Equivalent in view.
   */
  lemma StillSearchable(b: Board, b2: Board)
    requires Searchable(b) && !b.won && !FullBoard(b) && Equivalent(b2, b) && Inv(b2)
    ensures Searchable(b2) && !b2.won && !FullBoard(b2)
    ensures Room(b2) == Room(b) && b2.cols == b.cols && b2.rows == b.rows && b2.heights == b.heights
  {
  }
}
