/**
  A licence-plate pattern: a string over 'A' (any letter), '#' (any digit) and '*' (any letter
  or digit), together with the number of distinct plates it yields. Patterns never change once
  built.
 */
module Patterns {
  /** How many plates a pattern yields, and the pattern itself. */
  datatype Pattern = Pattern(total: int, pattern: string)

  const LETTER: int := 26
  const NUMBER: int := 10
  const ALPHANUMERIC: int := 36

  /** The empty pattern: one blank plate. */
  function EmptyPattern(): (p: Pattern)
    ensures p.total == 1 && p.pattern == ""
  {
    Pattern(1, "")
  }

  /** The number of choices one pattern character stands for. */
  function CharWeight(c: char): int
  {
    match c
    case 'A' => LETTER
    case '#' => NUMBER
    case '*' => ALPHANUMERIC
    case _ => 1
  }

  /** The number of plates a pattern string yields: the product of its characters' weights. */
  function Weight(s: string): int
  {
    if |s| == 0 then 1 else CharWeight(s[0]) * Weight(s[1..])
  }

  /** A string of pattern characters; '*' only where alphanumerics are allowed. */
  predicate Allowed(s: string, allowAlphanumeric: bool)
  {
    forall i :: 0 <= i < |s| ==> s[i] == 'A' || s[i] == '#' || (allowAlphanumeric && s[i] == '*')
  }

  /** A pattern whose total is the number of plates its string yields. */
  predicate Consistent(p: Pattern)
  {
    p.total == Weight(p.pattern)
  }

  /** Every pattern string yields at least one plate. */
  lemma {:induction false} WeightPositive(s: string)
    ensures Weight(s) >= 1
  {
    if |s| > 0 {
      WeightPositive(s[1..]);
      var w := Weight(s[1..]);
      assert CharWeight(s[0]) >= 1;
      assert CharWeight(s[0]) * w >= w;
    }
  }

  /** Writing two pattern strings one after the other multiplies what they yield. */
  lemma {:induction false} WeightConcat(s: string, t: string)
    ensures Weight(s + t) == Weight(s) * Weight(t)
  {
    if |s| == 0 {
      assert s + t == t;
    } else {
      assert (s + t)[0] == s[0] && (s + t)[1..] == s[1..] + t;
      WeightConcat(s[1..], t);
      MulAssoc(CharWeight(s[0]), Weight(s[1..]), Weight(t));
    }
  }

  lemma MulAssoc(x: int, y: int, z: int)
    ensures x * (y * z) == (x * y) * z
  {
  }
}
