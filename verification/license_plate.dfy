/**
  The licence-plate pattern search. Given a target population, it looks for the pattern that
  yields the fewest plates that still number at least the target: an exhaustive search that
  grows the pattern one character at a time, stops a branch as soon as it reaches the target,
  and keeps the lesser of the branches (ties to the earlier one: letters, then digits, then
  alphanumerics).

  Java's long arithmetic is taken as unbounded integers here.
 */
module LicensePlates {
  import opened Patterns

  /** The lesser of two patterns by total; on a tie, the first. */
  function LesserOf(a: Pattern, b: Pattern): (r: Pattern)
    ensures a.total > b.total ==> r == b
    ensures a.total <= b.total ==> r == a
    ensures r.total <= a.total && r.total <= b.total
  {
    if a.total > b.total then b else a
  }

  /** The character a step of the search adds for a weight; the first call (weight 1) adds none. */
  function Symbol(kind: int): (s: string)
    ensures |s| <= 1
    ensures kind in {NUMBER, LETTER, ALPHANUMERIC} ==> |s| == 1 && CharWeight(s[0]) == kind
    ensures kind !in {NUMBER, LETTER, ALPHANUMERIC} ==> s == ""
  {
    if kind == NUMBER then "#"
    else if kind == LETTER then "A"
    else if kind == ALPHANUMERIC then "*"
    else ""
  }

  /** One step of the search: multiply the total by the weight and append its character. */
  function Extend(p: Pattern, kind: int): Pattern
  {
    Pattern(p.total * kind, p.pattern + Symbol(kind))
  }

  /**
    r grows q: r's string starts with q's, the rest is made of allowed characters, and r's
    total is q's total times what the rest yields.
   */
  predicate Grows(r: Pattern, q: Pattern, allowAlphanumeric: bool)
  {
    && |q.pattern| <= |r.pattern| && r.pattern[..|q.pattern|] == q.pattern
    && Allowed(r.pattern[|q.pattern|..], allowAlphanumeric)
    && r.total == q.total * Weight(r.pattern[|q.pattern|..])
  }

  /**
    The recursive search from pattern p with the weight kind of the character to add next.
    The result reaches the target and grows the extended pattern.
   */
  function AddToPattern(p: Pattern, target: int, kind: int, allowAlphanumeric: bool): (r: Pattern)
    requires p.total > 0 && kind > 0
    ensures r.total >= target
    ensures Grows(r, Extend(p, kind), allowAlphanumeric)
    decreases target - p.total * kind
  {
    var q := Extend(p, kind);
    Positive(p.total, kind);
    if q.total >= target then
      GrowsSelf(q, allowAlphanumeric);
      q
    else
      var l := AddToPattern(q, target, LETTER, allowAlphanumeric);
      var n := AddToPattern(q, target, NUMBER, allowAlphanumeric);
      GrowsStep(l, q, LETTER, allowAlphanumeric);
      GrowsStep(n, q, NUMBER, allowAlphanumeric);
      var min := LesserOf(l, n);
      if allowAlphanumeric then
        var a := AddToPattern(q, target, ALPHANUMERIC, allowAlphanumeric);
        GrowsStep(a, q, ALPHANUMERIC, allowAlphanumeric);
        LesserOf(min, a)
      else
        min
  }

  /** The best pattern for a target: "#" for targets up to ten, otherwise the search from the empty pattern. */
  function CreatePattern(target: int, allowAlphanumeric: bool): (r: Pattern)
    ensures r.total >= target
    ensures Consistent(r) && Allowed(r.pattern, allowAlphanumeric)
    ensures target <= NUMBER ==> r == Pattern(10, "#")
  {
    var p := EmptyPattern();
    if target <= NUMBER then
      AddToPattern(p, target, NUMBER, allowAlphanumeric)
    else
      var r := AddToPattern(p, target, 1, allowAlphanumeric);
      assert Extend(p, 1) == p;
      assert r.pattern[|p.pattern|..] == r.pattern;
      r
  }

  // ---------------------------------------------------------------------------
  // Steps of the search

  lemma Positive(x: int, y: int)
    requires x > 0 && y > 0
    ensures x * y >= x && x * y > 0
  {
  }

  lemma GrowsSelf(q: Pattern, allowAlphanumeric: bool)
    ensures Grows(q, q, allowAlphanumeric)
  {
    assert q.pattern[|q.pattern|..] == "";
  }

  /** A pattern that grows q extended by one character also grows q. */
  lemma GrowsStep(r: Pattern, q: Pattern, kind: int, allowAlphanumeric: bool)
    requires kind == LETTER || kind == NUMBER || (kind == ALPHANUMERIC && allowAlphanumeric)
    requires Grows(r, Extend(q, kind), allowAlphanumeric)
    ensures Grows(r, q, allowAlphanumeric)
  {
    var k := |q.pattern|;
    var rest := r.pattern[k + 1..];
    var sym := Symbol(kind);
    assert r.pattern[..k + 1] == q.pattern + sym;
    assert r.pattern[..k] == q.pattern;
    assert r.pattern[k] == sym[0];
    assert r.pattern[k..] == sym + rest;
    assert Weight(sym + rest) == kind * Weight(rest) by {
      assert (sym + rest)[0] == sym[0] && (sym + rest)[1..] == rest;
    }
    MulAssoc(q.total, kind, Weight(rest));
  }

  // ---------------------------------------------------------------------------
  // What the search finds

  /**
    The search is exhaustive: no string of allowed characters appended to the extended
    pattern reaches the target with fewer plates than the search's result.
   */
  lemma {:induction false} AddMinimal(p: Pattern, target: int, kind: int, allowAlphanumeric: bool, w: string)
    requires p.total > 0 && kind > 0 && Allowed(w, allowAlphanumeric)
    requires Extend(p, kind).total * Weight(w) >= target
    ensures AddToPattern(p, target, kind, allowAlphanumeric).total <= Extend(p, kind).total * Weight(w)
    decreases |w|
  {
    var q := Extend(p, kind);
    Positive(p.total, kind);
    WeightPositive(w);
    assert |w| == 0 ==> Weight(w) == 1;
    if q.total >= target {
      Positive(q.total, Weight(w));
    } else {
      var k := CharWeight(w[0]);
      var rest := w[1..];
      assert Allowed(rest, allowAlphanumeric) by {
        forall i | 0 <= i < |rest| ensures rest[i] == w[i + 1] {}
      }
      assert Weight(w) == k * Weight(rest);
      MulAssoc(q.total, k, Weight(rest));
      assert Extend(q, k).total == q.total * k;
      AddMinimal(q, target, k, allowAlphanumeric, rest);
    }
  }

  /** A search step that does not reach the target returns one of its branches. */
  lemma AddChoice(p: Pattern, target: int, kind: int, allowAlphanumeric: bool)
    requires p.total > 0 && kind > 0 && Extend(p, kind).total < target
    ensures Extend(p, kind).total > 0
    ensures var q := Extend(p, kind);
            var r := AddToPattern(p, target, kind, allowAlphanumeric);
            || r == AddToPattern(q, target, LETTER, allowAlphanumeric)
            || r == AddToPattern(q, target, NUMBER, allowAlphanumeric)
            || (allowAlphanumeric && r == AddToPattern(q, target, ALPHANUMERIC, allowAlphanumeric))
  {
    Positive(p.total, kind);
  }

  /**
    The search stops a branch as soon as it reaches the target: every prefix of the result that
    extends the extended pattern, short of the whole result, yields fewer plates than the target.
   */
  lemma {:induction false} AddPrefixes(p: Pattern, target: int, kind: int, allowAlphanumeric: bool)
    requires p.total > 0 && kind > 0
    ensures var q := Extend(p, kind);
            var r := AddToPattern(p, target, kind, allowAlphanumeric);
            forall k :: |q.pattern| <= k < |r.pattern| ==> q.total * Weight(r.pattern[|q.pattern|..k]) < target
    decreases target - p.total * kind
  {
    var q := Extend(p, kind);
    Positive(p.total, kind);
    if q.total < target {
      AddChoice(p, target, kind, allowAlphanumeric);
      var r := AddToPattern(p, target, kind, allowAlphanumeric);
      if r == AddToPattern(q, target, LETTER, allowAlphanumeric) {
        AddPrefixes(q, target, LETTER, allowAlphanumeric);
        ChildPrefixes(r, q, LETTER, target, allowAlphanumeric);
      } else if r == AddToPattern(q, target, NUMBER, allowAlphanumeric) {
        AddPrefixes(q, target, NUMBER, allowAlphanumeric);
        ChildPrefixes(r, q, NUMBER, target, allowAlphanumeric);
      } else {
        AddPrefixes(q, target, ALPHANUMERIC, allowAlphanumeric);
        ChildPrefixes(r, q, ALPHANUMERIC, target, allowAlphanumeric);
      }
    }
  }

  /** The prefix bound carries over from a child's branch to the pattern it grows. */
  lemma ChildPrefixes(c: Pattern, q: Pattern, kind: int, target: int, allowAlphanumeric: bool)
    requires kind == LETTER || kind == NUMBER || kind == ALPHANUMERIC
    requires q.total > 0 && q.total < target && Grows(c, Extend(q, kind), allowAlphanumeric)
    requires var e := Extend(q, kind);
             forall k :: |e.pattern| <= k < |c.pattern| ==> e.total * Weight(c.pattern[|e.pattern|..k]) < target
    ensures forall k :: |q.pattern| <= k < |c.pattern| ==> q.total * Weight(c.pattern[|q.pattern|..k]) < target
  {
    var m := |q.pattern|;
    var e := Extend(q, kind);
    assert |e.pattern| == m + 1;
    assert c.pattern[m] == Symbol(kind)[0] by {
      assert c.pattern[..m + 1] == q.pattern + Symbol(kind);
    }
    forall k | m <= k < |c.pattern|
      ensures q.total * Weight(c.pattern[m..k]) < target
    {
      if k > m {
        var s := c.pattern[m..k];
        assert s[0] == c.pattern[m] && s[1..] == c.pattern[m + 1..k];
        assert Weight(s) == kind * Weight(c.pattern[m + 1..k]);
        MulAssoc(q.total, kind, Weight(c.pattern[m + 1..k]));
      } else {
        assert c.pattern[m..k] == "";
      }
    }
  }

  // ---------------------------------------------------------------------------
  // The best pattern

  /** Every non-empty pattern string yields at least ten plates. */
  lemma NonEmptyWeight(w: string, allowAlphanumeric: bool)
    requires Allowed(w, allowAlphanumeric) && |w| > 0
    ensures Weight(w) >= NUMBER
  {
    WeightPositive(w[1..]);
    assert CharWeight(w[0]) >= NUMBER;
  }

  /**
    The created pattern is optimal: no non-empty pattern string of allowed characters that
    numbers at least the target yields fewer plates.
   */
  lemma CreatePatternOptimal(target: int, allowAlphanumeric: bool, w: string)
    requires Allowed(w, allowAlphanumeric) && |w| > 0 && Weight(w) >= target
    ensures CreatePattern(target, allowAlphanumeric).total <= Weight(w)
  {
    NonEmptyWeight(w, allowAlphanumeric);
    if target > NUMBER {
      var p := EmptyPattern();
      assert Extend(p, 1) == p;
      AddMinimal(p, target, 1, allowAlphanumeric, w);
    }
  }

  /** Above ten, every proper prefix of the created pattern yields fewer plates than the target. */
  lemma CreatePatternPrefixes(target: int, allowAlphanumeric: bool)
    requires target > NUMBER
    ensures var r := CreatePattern(target, allowAlphanumeric);
            forall k :: 0 <= k < |r.pattern| ==> Weight(r.pattern[..k]) < target
  {
    var p := EmptyPattern();
    assert Extend(p, 1) == p;
    AddPrefixes(p, target, 1, allowAlphanumeric);
    var r := CreatePattern(target, allowAlphanumeric);
    assert r == AddToPattern(p, target, 1, allowAlphanumeric);
    forall k | 0 <= k < |r.pattern| ensures Weight(r.pattern[..k]) < target {
      var q := Extend(p, 1);
      assert q.total * Weight(r.pattern[|q.pattern|..k]) < target;
      assert r.pattern[|q.pattern|..k] == r.pattern[..k];
    }
  }

  /** Allowing alphanumerics never yields more plates than disallowing them. */
  lemma AlphanumericNeverWorse(target: int)
    ensures CreatePattern(target, true).total <= CreatePattern(target, false).total
  {
    var r := CreatePattern(target, false);
    if target > NUMBER {
      assert |r.pattern| > 0 by {
        assert r.pattern == "" ==> Weight(r.pattern) == 1;
      }
      assert Allowed(r.pattern, true);
      CreatePatternOptimal(target, true, r.pattern);
    }
  }

  // ---------------------------------------------------------------------------
  // Formatting numbers with thousands separators

  function DigitChar(d: int): (c: char)
    requires 0 <= d < 10
    ensures '0' <= c <= '9' && c as int - '0' as int == d
  {
    ('0' as int + d) as char
  }

  /** The decimal digits of n, most significant first, without leading zeros ("0" for zero). */
  function Digits(n: nat): (ds: string)
    ensures |ds| >= 1
  {
    if n < 10 then [DigitChar(n)] else Digits(n / 10) + [DigitChar(n % 10)]
  }

  /** A string of decimal digits. */
  predicate IsDigits(ds: string)
  {
    forall i :: 0 <= i < |ds| ==> '0' <= ds[i] <= '9'
  }

  /** The number a string of decimal digits denotes. */
  function DigitsValue(ds: string): nat
    requires IsDigits(ds)
  {
    if |ds| == 0 then 0
    else 10 * DigitsValue(ds[..|ds| - 1]) + (ds[|ds| - 1] as int - '0' as int)
  }

  /**
    A digit string with a comma written before each digit that has a multiple of three digits
    after it: groups of three counted from the right, the leading group shorter.
   */
  function Group(ds: string): string
  {
    if |ds| == 0 then ""
    else [ds[0]] + (if |ds| > 1 && (|ds| - 1) % 3 == 0 then "," else "") + Group(ds[1..])
  }

  /** The string without its commas. */
  function Ungroup(s: string): string
  {
    if |s| == 0 then ""
    else (if s[0] == ',' then "" else [s[0]]) + Ungroup(s[1..])
  }

  /**
    Writes n with commas between groups of three digits (1000 as "1,000"): the digits are
    produced from the least significant, and a comma is put in front before every fourth.
   */
  method Format(n: int) returns (s: string)
    requires n >= 0
    ensures n == 0 ==> s == "0"
    ensures s == Group(Digits(n))
  {
    if n == 0 {
      return "0";
    }
    s := "";
    var i := 0;
    var m := n;
    ghost var ds := Digits(n);
    ghost var k := 0;
    while m != 0
      invariant 0 <= m && 0 <= k <= |ds|
      invariant m > 0 ==> k < |ds| && ds[..|ds| - k] == Digits(m)
      invariant m == 0 ==> k == |ds|
      invariant s == Group(ds[|ds| - k..])
      invariant i == if k == 0 then 0 else (k - 1) % 3 + 1
      decreases m
    {
      FormatStep(ds, k, m, s, i);
      if i == 3 {
        s := "," + s;
        i := 0;
      }
      s := [DigitChar(m % 10)] + s;
      i := i + 1;
      m := m / 10;
      k := k + 1;
    }
  }

  /** Taking the last digit off the digits of m leaves the digits of m / 10. */
  lemma DigitsPrefix(ds: string, k: int, m: nat)
    requires m > 0 && 0 <= k < |ds| && ds[..|ds| - k] == Digits(m)
    ensures ds[|ds| - (k + 1)] == DigitChar(m % 10)
    ensures m / 10 > 0 ==> k + 1 < |ds| && ds[..|ds| - (k + 1)] == Digits(m / 10)
    ensures m / 10 == 0 ==> k + 1 == |ds|
  {
    var d := ds[..|ds| - k];
    assert ds[|ds| - k - 1] == d[|d| - 1];
    if m / 10 > 0 {
      assert d == Digits(m / 10) + [DigitChar(m % 10)];
      assert ds[..|ds| - k - 1] == d[..|d| - 1];
    }
  }

  /** One turn of the formatting loop keeps its invariant. */
  lemma FormatStep(ds: string, k: int, m: nat, s: string, i: int)
    requires m > 0 && 0 <= k < |ds| && ds[..|ds| - k] == Digits(m)
    requires s == Group(ds[|ds| - k..]) && i == if k == 0 then 0 else (k - 1) % 3 + 1
    ensures i == 3 ==> [DigitChar(m % 10)] + ("," + s) == Group(ds[|ds| - (k + 1)..])
    ensures i != 3 ==> [DigitChar(m % 10)] + s == Group(ds[|ds| - (k + 1)..])
    ensures (if i == 3 then 0 else i) + 1 == k % 3 + 1
    ensures m / 10 > 0 ==> k + 1 < |ds| && ds[..|ds| - (k + 1)] == Digits(m / 10)
    ensures m / 10 == 0 ==> k + 1 == |ds|
  {
    DigitsPrefix(ds, k, m);
    GroupCounter(k, i);
    GroupStep(ds, k);
  }

  /** The digit counter of the loop is 3 exactly when a comma is due, and counts on modulo 3. */
  lemma GroupCounter(k: int, i: int)
    requires k >= 0 && i == if k == 0 then 0 else (k - 1) % 3 + 1
    ensures i == 3 <==> k > 0 && k % 3 == 0
    ensures (if i == 3 then 0 else i) + 1 == k % 3 + 1
  {
    if k > 0 {
      var q, r := (k - 1) / 3, (k - 1) % 3;
      assert k - 1 == 3 * q + r && 0 <= r < 3;
      if r == 2 {
        ThirdsOf(q + 1, 0);
      } else {
        ThirdsOf(q, r + 1);
      }
    }
  }

  lemma ThirdsOf(q: int, r: int)
    requires 0 <= r < 3
    ensures (3 * q + r) % 3 == r
  {
  }

  /** Putting one more digit in front of a grouped tail. */
  lemma GroupStep(ds: string, k: int)
    requires 0 <= k < |ds|
    ensures k > 0 && k % 3 == 0 ==> Group(ds[|ds| - (k + 1)..]) == [ds[|ds| - (k + 1)]] + ("," + Group(ds[|ds| - k..]))
    ensures !(k > 0 && k % 3 == 0) ==> Group(ds[|ds| - (k + 1)..]) == [ds[|ds| - (k + 1)]] + Group(ds[|ds| - k..])
  {
    assert ds[|ds| - (k + 1)..][1..] == ds[|ds| - k..];
  }

  // ---------------------------------------------------------------------------
  // What the formatted string means

  /** The decimal digits of n are digits, denote n, and start with a zero only for zero itself. */
  lemma {:induction false} DigitsRoundTrip(n: nat)
    ensures IsDigits(Digits(n)) && DigitsValue(Digits(n)) == n
    ensures Digits(n)[0] == '0' <==> n == 0
  {
    var ds := Digits(n);
    if n >= 10 {
      DigitsRoundTrip(n / 10);
      assert ds[..|ds| - 1] == Digits(n / 10);
      assert ds[0] == Digits(n / 10)[0];
    }
  }

  /** Up to three digits get no comma. */
  lemma {:induction false} GroupShort(ds: string)
    requires |ds| <= 3
    ensures Group(ds) == ds
  {
    if |ds| > 0 {
      GroupShort(ds[1..]);
    }
  }

  /** Past three digits, the last three are split off by a comma and the rest is grouped the same way. */
  lemma {:induction false} GroupRight(ds: string)
    requires |ds| > 3
    ensures Group(ds) == Group(ds[..|ds| - 3]) + "," + ds[|ds| - 3..]
  {
    var L := |ds|;
    if L == 4 {
      GroupFour(ds);
    } else {
      var t := ds[1..];
      var sep := if (L - 1) % 3 == 0 then "," else "";
      assert Group(ds) == [ds[0]] + sep + Group(t);
      GroupRight(t);
      var front := ds[..L - 3];
      assert t[..|t| - 3] == front[1..];
      assert t[|t| - 3..] == ds[L - 3..];
      assert Group(front) == [ds[0]] + sep + Group(front[1..]) by {
        assert front[0] == ds[0];
        assert (|front| - 1) % 3 == (L - 1) % 3;
      }
    }
  }

  lemma GroupFour(ds: string)
    requires |ds| == 4
    ensures Group(ds) == Group(ds[..1]) + "," + ds[1..]
  {
    GroupShort(ds[1..]);
    assert ds[..1][1..] == "";
    assert Group(ds[..1]) == [ds[0]];
  }

  /** A grouped string of n digits has one comma for every full group of three after the first digit. */
  lemma {:induction false} GroupLength(ds: string)
    requires |ds| >= 1
    ensures |Group(ds)| == |ds| + (|ds| - 1) / 3
  {
    if |ds| > 1 {
      GroupLength(ds[1..]);
    }
  }

  /** Removing commas distributes over concatenation. */
  lemma {:induction false} UngroupConcat(a: string, b: string)
    ensures Ungroup(a + b) == Ungroup(a) + Ungroup(b)
  {
    if |a| == 0 {
      assert a + b == b;
    } else {
      var h := if a[0] == ',' then "" else [a[0]];
      assert (a + b)[0] == a[0] && (a + b)[1..] == a[1..] + b;
      assert Ungroup(a + b) == h + Ungroup(a[1..] + b);
      UngroupConcat(a[1..], b);
      assert Ungroup(a) == h + Ungroup(a[1..]);
    }
  }

  /** Grouping only inserts commas: taking them out gives back a comma-free digit string. */
  lemma {:induction false} UngroupGroup(ds: string)
    requires forall i :: 0 <= i < |ds| ==> ds[i] != ','
    ensures Ungroup(Group(ds)) == ds
  {
    if |ds| > 0 {
      var sep := if |ds| > 1 && (|ds| - 1) % 3 == 0 then "," else "";
      UngroupGroup(ds[1..]);
      UngroupConcat([ds[0]] + sep, Group(ds[1..]));
      UngroupConcat([ds[0]], sep);
      assert Ungroup([ds[0]]) == [ds[0]];
      assert Ungroup(sep) == "" by {
        if sep == "," {
          assert sep[1..] == "";
        }
      }
      assert ds == [ds[0]] + ds[1..];
    }
  }

  /** The formatted string, with its commas taken out, is the decimal numeral of n. */
  lemma FormatRoundTrip(n: nat)
    ensures IsDigits(Ungroup(Group(Digits(n))))
    ensures DigitsValue(Ungroup(Group(Digits(n)))) == n
    ensures |Group(Digits(n))| == |Digits(n)| + (|Digits(n)| - 1) / 3
  {
    DigitsRoundTrip(n);
    UngroupGroup(Digits(n));
    GroupLength(Digits(n));
  }
}
