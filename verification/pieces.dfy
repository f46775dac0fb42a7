/**
  The pieces of a Connect Four board.

  The two players and `Empty` remember the cell they were put in; `OutOfBounds`
  is the answer for a cell off the board and has the fixed position (-1, -1).
  All other code tells the variants apart only by their two-letter tag.
 */
module Pieces {

  datatype Piece =
    | Player1(col: int, row: int)
    | Player2(col: int, row: int)
    | Empty(col: int, row: int)
    | OutOfBounds

  /** Which side a piece is counted for by the lines: "P1", or anything else. */
  datatype Side = SideP1 | SideP2

  /** A freshly constructed piece has never been positioned: its coordinates are the default 0. */
  function NewPlayer1(): Piece { Player1(0, 0) }
  function NewPlayer2(): Piece { Player2(0, 0) }
  function NewEmpty(): Piece { Empty(0, 0) }

  /** The string tag, the only thing the rest of the engine looks at. */
  function Tag(p: Piece): string
  {
    match p
    case Player1(_, _) => "P1"
    case Player2(_, _) => "P2"
    case Empty(_, _) => "__"
    case OutOfBounds => "OB"
  }

  predicate IsPlayer(p: Piece)
  {
    p.Player1? || p.Player2?
  }

  /** A line counts a piece for player one when its tag is "P1", and for player two otherwise. */
  function SideOf(p: Piece): (s: Side)
    ensures s == SideP1 <==> Tag(p) == "P1"
  {
    if p.Player1? then SideP1 else SideP2
  }

  /** The piece that follows in turn order: a new opponent piece, or the piece itself. */
  function Next(p: Piece): (q: Piece)
    ensures Tag(p) == "P1" ==> Tag(q) == "P2" && q.col == 0 && q.row == 0
    ensures Tag(p) == "P2" ==> Tag(q) == "P1" && q.col == 0 && q.row == 0
    ensures !IsPlayer(p) ==> q == p
  {
    match p
    case Player1(_, _) => NewPlayer2()
    case Player2(_, _) => NewPlayer1()
    case Empty(_, _) => p
    case OutOfBounds => p
  }

  function SetPosition(p: Piece, c: int, r: int): (q: Piece)
    ensures Tag(q) == Tag(p)
    ensures p.OutOfBounds? ==> q == p
  {
    match p
    case Player1(_, _) => Player1(c, r)
    case Player2(_, _) => Player2(c, r)
    case Empty(_, _) => Empty(c, r)
    case OutOfBounds => p
  }

  function GetCol(p: Piece): int
  {
    if p.OutOfBounds? then -1 else p.col
  }

  function GetRow(p: Piece): int
  {
    if p.OutOfBounds? then -1 else p.row
  }

  /** The tag identifies the variant: two pieces share a tag exactly when they are the same kind. */
  lemma TagIdentifiesVariant(p: Piece, q: Piece)
    ensures Tag(p) == Tag(q) <==> (p.Player1? && q.Player1?) || (p.Player2? && q.Player2?)
                                  || (p.Empty? && q.Empty?) || (p.OutOfBounds? && q.OutOfBounds?)
  {
    assert "P1" != "P2" && "P1" != "__" && "P1" != "OB";
    assert "P2" != "__" && "P2" != "OB" && "__" != "OB";
  }

  /** Turn order alternates between the players and stands still on the other two kinds. */
  lemma NextAlternates(p: Piece)
    ensures IsPlayer(p) ==> IsPlayer(Next(p)) && Tag(Next(p)) != Tag(p) && Tag(Next(Next(p))) == Tag(p)
    ensures !IsPlayer(p) ==> Next(p) == p && Next(Next(p)) == p
  {
  }

  /** Reading back a position: every variant but OutOfBounds returns what was set; OutOfBounds stays at -1. */
  lemma PositionRoundTrip(p: Piece, c: int, r: int)
    ensures !p.OutOfBounds? ==> GetCol(SetPosition(p, c, r)) == c && GetRow(SetPosition(p, c, r)) == r
    ensures p.OutOfBounds? ==> GetCol(SetPosition(p, c, r)) == -1 && GetRow(SetPosition(p, c, r)) == -1
  {
  }

  /** Setting a position twice keeps only the second one, and never changes the kind of piece. */
  lemma SetPositionOverwrites(p: Piece, c1: int, r1: int, c2: int, r2: int)
    ensures SetPosition(SetPosition(p, c1, r1), c2, r2) == SetPosition(p, c2, r2)
    ensures IsPlayer(SetPosition(p, c1, r1)) == IsPlayer(p)
    ensures SideOf(SetPosition(p, c1, r1)) == SideOf(p)
  {
  }
}
