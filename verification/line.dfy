/**
  One potential four-in-a-row: how many pieces of each player it currently holds,
  and what that is worth to each player when the board is evaluated.
 */
module Lines {
  import opened Pieces

  datatype Line = Line(numP1: int, numP2: int)

  /** The four per-line numbers the line handler adds up over all lines. */
  datatype Score = Score(valueP1: int, valueP2: int, openP1: int, openP2: int)
  {
    function Plus(other: Score): Score
    {
      Score(valueP1 + other.valueP1, valueP2 + other.valueP2, openP1 + other.openP1, openP2 + other.openP2)
    }

    function Minus(other: Score): Score
    {
      Score(valueP1 - other.valueP1, valueP2 - other.valueP2, openP1 - other.openP1, openP2 - other.openP2)
    }
  }

  const Zero: Score := Score(0, 0, 0, 0)

  /** The number of pieces of one side in the line. */
  function Count(l: Line, s: Side): int
  {
    if s == SideP1 then l.numP1 else l.numP2
  }

  function NewLine(): (l: Line)
    ensures Count(l, SideP1) == 0 && Count(l, SideP2) == 0
    ensures ValueP1(l) == 0 && ValueP2(l) == 0 && OpenP1(l) == 1 && OpenP2(l) == 1
  {
    Line(0, 0)
  }

  /** Adds a piece; the flag is true when this piece makes four of its side in the line. */
  function Add(l: Line, p: Piece): (r: (Line, bool))
    ensures Count(r.0, SideOf(p)) == Count(l, SideOf(p)) + 1
    ensures forall s :: s != SideOf(p) ==> Count(r.0, s) == Count(l, s)
    ensures r.1 <==> Count(r.0, SideOf(p)) == 4
  {
    if SideOf(p) == SideP1 then
      (Line(l.numP1 + 1, l.numP2), l.numP1 + 1 == 4)
    else
      (Line(l.numP1, l.numP2 + 1), l.numP2 + 1 == 4)
  }

  function Remove(l: Line, p: Piece): (r: Line)
    ensures Count(r, SideOf(p)) == Count(l, SideOf(p)) - 1
    ensures forall s :: s != SideOf(p) ==> Count(r, s) == Count(l, s)
  {
    if SideOf(p) == SideP1 then
      Line(l.numP1 - 1, l.numP2)
    else
      Line(l.numP1, l.numP2 - 1)
  }

  /** Player one's pieces in the line, or 0 once player two has blocked it. */
  function ValueP1(l: Line): int
  {
    if l.numP2 > 0 then 0 else l.numP1
  }

  function ValueP2(l: Line): int
  {
    if l.numP1 > 0 then 0 else l.numP2
  }

  /** 1 while player one can still complete the line, 0 once player two has a piece in it. */
  function OpenP1(l: Line): int
  {
    if l.numP2 > 0 then 0 else 1
  }

  function OpenP2(l: Line): int
  {
    if l.numP1 > 0 then 0 else 1
  }

  function ScoreOf(l: Line): Score
  {
    Score(ValueP1(l), ValueP2(l), OpenP1(l), OpenP2(l))
  }

  /** Removing the piece just added gives back the line, and so does adding back a removed piece. */
  lemma AddRemoveRoundTrip(l: Line, p: Piece)
    ensures Remove(Add(l, p).0, p) == l
    ensures Add(Remove(l, p), p).0 == l
  {
  }

  /** Anything whose tag is not "P1" (Empty or OutOfBounds included) is counted as a player two piece. */
  lemma NonP1CountsAsP2(l: Line, p: Piece)
    requires Tag(p) != "P1"
    ensures Add(l, p) == Add(l, NewPlayer2())
    ensures Remove(l, p) == Remove(l, NewPlayer2())
  {
  }

  /** The relation between counts, values and open flags, for either player. */
  lemma ScoreFacts(l: Line)
    ensures OpenP1(l) in {0, 1} && (OpenP1(l) == 1 <==> Count(l, SideP2) <= 0)
    ensures OpenP2(l) in {0, 1} && (OpenP2(l) == 1 <==> Count(l, SideP1) <= 0)
    ensures ValueP1(l) == (if Count(l, SideP2) > 0 then 0 else Count(l, SideP1))
    ensures ValueP2(l) == (if Count(l, SideP1) > 0 then 0 else Count(l, SideP2))
    ensures ValueP1(l) > 0 ==> OpenP1(l) == 1
    ensures ValueP2(l) > 0 ==> OpenP2(l) == 1
  {
  }

  /**
    In a line holding between 0 and 4 pieces of each side, each value is between 0 and 4,
    and a line can be open for both players only while it is empty.
   */
  lemma ScoreBounds(l: Line)
    requires 0 <= l.numP1 <= 4 && 0 <= l.numP2 <= 4
    ensures 0 <= ValueP1(l) <= 4 && 0 <= ValueP2(l) <= 4
    ensures 0 <= OpenP1(l) <= 1 && 0 <= OpenP2(l) <= 1
    ensures OpenP1(l) + OpenP2(l) == 2 <==> l == NewLine()
  {
  }

  /**
    Adding a piece never helps the opponent: the adder's open flag is unchanged, the
    opponent's open flag and value can only fall, and the adder's value can only rise.
   */
  lemma AddShiftsScore(l: Line, p: Piece)
    requires 0 <= l.numP1 && 0 <= l.numP2
    ensures PlaceShift(ScoreOf(l), ScoreOf(Add(l, p).0), SideOf(p))
  {
  }

  /** How one player's placement may move a score (or a sum of scores). */
  predicate PlaceShift(before: Score, after: Score, s: Side)
  {
    if s == SideP1 then
      after.openP1 == before.openP1 && after.openP2 <= before.openP2
      && after.valueP2 <= before.valueP2 && after.valueP1 >= before.valueP1
    else
      after.openP2 == before.openP2 && after.openP1 <= before.openP1
      && after.valueP1 <= before.valueP1 && after.valueP2 >= before.valueP2
  }
}
