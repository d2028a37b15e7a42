/** The view counter's thousands-separator formatting (`formatNumber`).

    The script renders a count as `num.toString()` with a comma inserted at
    every position that the regular expression `\B(?=(\d{3})+(?!\d))`
    selects. On the decimal representation of a natural number that is every
    position strictly inside the digit string that is followed by a positive
    multiple of three digits. The model does not run a regular expression: it
    builds the result by a recursive grouping from the right (`Group`), and
    proves it equal to a digit-by-digit reference (`CommaRule`) that
    states the selection rule above, and proves its shape (`WellGrouped`). */
module NumberFormat {

  predicate IsDigit(c: char) {
    '0' <= c <= '9'
  }

  predicate AllDigits(s: string) {
    forall i :: 0 <= i < |s| ==> IsDigit(s[i])
  }

  function DigitChar(d: nat): (c: char)
    requires d < 10
    ensures IsDigit(c) && c as int - '0' as int == d
  {
    ('0' as int + d) as char
  }

  /** The decimal representation of `n`, as JavaScript's `Number.prototype.toString`
      gives it for a non-negative integer: no sign, no leading zero. */
  function Digits(n: nat): (s: string)
    ensures |s| >= 1 && AllDigits(s)
    ensures |s| > 1 ==> s[0] != '0'
    decreases n
  {
    if n < 10 then [DigitChar(n)] else Digits(n / 10) + [DigitChar(n % 10)]
  }

  /** The number a digit string denotes (most significant digit first). */
  function DigitsValue(s: string): nat
    requires AllDigits(s)
  {
    if s == [] then 0
    else 10 * DigitsValue(s[..|s| - 1]) + (s[|s| - 1] as int - '0' as int)
  }

  /** `Digits` is a representation: reading it back gives the number. */
  lemma {:induction false} DigitsRoundTrip(n: nat)
    ensures DigitsValue(Digits(n)) == n
    decreases n
  {
    var s := Digits(n);
    assert s[..|s| - 1] == if n < 10 then [] else Digits(n / 10);
    if n >= 10 {
      DigitsRoundTrip(n / 10);
    }
  }

  /** Numbers below 1000, and only they, have at most three digits. */
  lemma {:induction false} DigitsLength(n: nat)
    ensures |Digits(n)| <= 3 <==> n < 1000
    decreases n
  {
    if n >= 10 {
      DigitsLength(n / 10);
      if n / 10 < 10 {
        assert |Digits(n / 10)| == 1;
      }
    }
  }

  /** Comma grouping by threes from the right. */
  function Group(s: string): string
    decreases |s|
  {
    if |s| <= 3 then s else Group(s[..|s| - 3]) + [','] + s[|s| - 3..]
  }

  /** `formatNumber` on a natural number. */
  function FormatNumber(n: nat): string {
    Group(Digits(n))
  }

  /** Everything but the commas, in order. */
  function StripCommas(r: string): string {
    if r == [] then []
    else (if r[0] == ',' then [] else [r[0]]) + StripCommas(r[1..])
  }

  lemma {:induction false} StripCommasAppend(a: string, b: string)
    ensures StripCommas(a + b) == StripCommas(a) + StripCommas(b)
    decreases |a|
  {
    if a == [] {
      assert a + b == b;
    } else {
      assert (a + b)[0] == a[0];
      assert (a + b)[1..] == a[1..] + b;
      StripCommasAppend(a[1..], b);
    }
  }

  lemma {:induction false} StripCommasOfDigits(s: string)
    requires AllDigits(s)
    ensures StripCommas(s) == s
    decreases |s|
  {
    if s != [] {
      StripCommasOfDigits(s[1..]);
    }
  }

  /** The reference for the regular expression's choice of positions: the
      output for the digits `t` that end the string, where `atStart` says
      whether `t[0]` is the first digit. A comma goes in front of a digit
      exactly when it is not the first one (`\B`) and the number of digits
      from it to the end is a positive multiple of three
      (`(?=(\d{3})+(?!\d))`). */
  function CommaRule(t: string, atStart: bool): string
    decreases |t|
  {
    if t == [] then [] else Lead(t, atStart) + [t[0]] + CommaRule(t[1..], false)
  }

  /** What goes in front of `t[0]`. */
  function Lead(t: string, atStart: bool): string {
    if !atStart && MultipleOfThree(|t|) then [','] else []
  }

  /** `x` digits can be matched by `(\d{3})*`. */
  predicate MultipleOfThree(x: int)
    decreases if x < 0 then 0 else x
  {
    x == 0 || (x >= 3 && MultipleOfThree(x - 3))
  }

  /** Shape of a grouped number: no comma at either end, a first group of one
      to three characters and then groups of exactly three, each preceded by
      a comma. Positionally: counted from the right, every fourth character is
      a comma, and the length is not a multiple of four. */
  predicate WellGrouped(r: string) {
    && |r| % 4 != 0
    && forall i :: 0 <= i < |r| ==> (r[i] == ',' <==> (|r| - i) % 4 == 0)
  }

  // ---------------------------------------------------------------------
  // Properties of Group

  /** Grouping only adds commas. */
  lemma {:induction false} GroupStrip(s: string)
    ensures StripCommas(Group(s)) == StripCommas(s)
    decreases |s|
  {
    if |s| > 3 {
      var p, t := s[..|s| - 3], s[|s| - 3..];
      GroupStrip(p);
      assert StripCommas([',']) == [];
      StripCommasAppend(Group(p), [',']);
      StripCommasAppend(Group(p) + [','], t);
      assert s == p + t;
      StripCommasAppend(p, t);
    }
  }

  /** Appending a comma and three non-comma characters keeps the shape. */
  lemma WellGroupedStep(g: string, t: string)
    requires WellGrouped(g) && |t| == 3 && ',' !in t
    ensures WellGrouped(g + [','] + t)
  {
    var r := g + [','] + t;
    ShiftMod4(|g|);
    forall i | 0 <= i < |r|
      ensures r[i] == ',' <==> (|r| - i) % 4 == 0
    {
      if i < |g| {
        assert r[i] == g[i];
        ShiftMod4(|g| - i);
      } else if i > |g| {
        assert r[i] == t[i - |g| - 1];
      }
    }
  }

  lemma {:induction false} GroupShape(s: string)
    requires |s| >= 1 && ',' !in s
    ensures WellGrouped(Group(s))
    ensures |Group(s)| == |s| + (|s| - 1) / 3
    decreases |s|
  {
    if |s| > 3 {
      var p, t := s[..|s| - 3], s[|s| - 3..];
      assert ',' !in p && ',' !in t by {
        assert s == p + t;
      }
      GroupShape(p);
      WellGroupedStep(Group(p), t);
      GroupLengthStep(|p|);
    }
  }

  lemma ShiftMod4(x: nat)
    ensures (x + 4) % 4 == x % 4
  {
  }

  lemma GroupLengthStep(k: nat)
    requires k >= 1
    ensures (k + 2) / 3 == (k - 1) / 3 + 1
  {
  }

  lemma MultipleOfThreeShift(x: nat)
    ensures MultipleOfThree(x + 3) == MultipleOfThree(x)
  {
  }

  lemma SmallMultiplesOfThree()
    ensures !MultipleOfThree(1) && !MultipleOfThree(2) && MultipleOfThree(3) && !MultipleOfThree(4)
  {
    assert !MultipleOfThree(1);
  }

  /** Fewer than three digits after the first get no comma. */
  lemma {:induction false} CommaRuleShort(t: string, atStart: bool)
    requires |t| < 3 || (atStart && |t| == 3)
    ensures CommaRule(t, atStart) == t
    decreases |t|
  {
    if t != [] {
      SmallMultiplesOfThree();
      CommaRuleShort(t[1..], false);
      assert CommaRule(t, atStart) == [t[0]] + t[1..];
      assert [t[0]] + t[1..] == t;
    }
  }

  /** A digit followed by a group of three. */
  lemma CommaRuleDigitThenGroup(c: char, q: string, atStart: bool)
    requires |q| == 3
    ensures CommaRule([c] + q, atStart) == [c] + [','] + q
  {
    SmallMultiplesOfThree();
    var cq := [c] + q;
    assert cq[0] == c && cq[1..] == q && |cq| == 4;
    CommaRuleShort(q[1..], false);
    assert CommaRule(q, false) == [','] + ([q[0]] + q[1..]);
    assert [q[0]] + q[1..] == q;
  }

  /** Appending three digits puts a comma in front of them and changes
      nothing before. */
  lemma {:induction false} CommaRuleAppendGroup(p: string, q: string, atStart: bool)
    requires p != [] && |q| == 3
    ensures CommaRule(p + q, atStart) == CommaRule(p, atStart) + [','] + q
    decreases |p|
  {
    if |p| == 1 {
      assert p == [p[0]];
      CommaRuleDigitThenGroup(p[0], q, atStart);
      CommaRuleShort(p, atStart);
    } else {
      CommaRuleAppendGroup(p[1..], q, false);
      CommaRuleAppendStep(p, q, atStart);
    }
  }

  /** The inductive step of `CommaRuleAppendGroup`: the first digit of `p`
      gets the same lead in `p` and in `p + q`. */
  lemma CommaRuleAppendStep(p: string, q: string, atStart: bool)
    requires |p| > 1 && |q| == 3
    requires CommaRule(p[1..] + q, false) == CommaRule(p[1..], false) + [','] + q
    ensures CommaRule(p + q, atStart) == CommaRule(p, atStart) + [','] + q
  {
    CommaRuleLeadingDigit(p, q, atStart);
    CommaRuleUnfold(p, atStart);
    Combine(CommaRule(p + q, atStart), CommaRule(p[1..] + q, false), CommaRule(p, atStart),
            Lead(p, atStart) + [p[0]], CommaRule(p[1..], false), q);
  }

  /** Unfolding `CommaRule` once on `p + q`. */
  lemma CommaRuleLeadingDigit(p: string, q: string, atStart: bool)
    requires |p| > 1 && |q| == 3
    ensures CommaRule(p + q, atStart) == Lead(p, atStart) + [p[0]] + CommaRule(p[1..] + q, false)
  {
    var pq := p + q;
    assert pq[1..] == p[1..] + q;
    MultipleOfThreeShift(|p|);
    assert Lead(pq, atStart) == Lead(p, atStart);
    CommaRuleUnfold(pq, atStart);
  }

  lemma CommaRuleUnfold(t: string, atStart: bool)
    requires t != []
    ensures CommaRule(t, atStart) == Lead(t, atStart) + [t[0]] + CommaRule(t[1..], false)
  {
  }

  lemma Combine(whole: string, rest: string, part: string, head: string, tail: string, q: string)
    requires whole == head + rest && rest == tail + [','] + q && part == head + tail
    ensures whole == part + [','] + q
  {
    assert head + (tail + [','] + q) == (head + tail) + [','] + q;
  }

  /** The recursive grouping inserts commas exactly where the regular
      expression does. */
  lemma {:induction false} GroupMatchesCommaRule(s: string)
    ensures Group(s) == CommaRule(s, true)
    decreases |s|
  {
    if |s| <= 3 {
      CommaRuleShort(s, true);
    } else {
      var p, q := s[..|s| - 3], s[|s| - 3..];
      GroupMatchesCommaRule(p);
      assert s == p + q;
      CommaRuleAppendGroup(p, q, true);
    }
  }

  // ---------------------------------------------------------------------
  // Properties of FormatNumber

  /** Removing the commas gives the decimal representation back. */
  lemma FormatNumberDigits(n: nat)
    ensures StripCommas(FormatNumber(n)) == Digits(n)
    ensures DigitsValue(StripCommas(FormatNumber(n))) == n
  {
    GroupStrip(Digits(n));
    StripCommasOfDigits(Digits(n));
    DigitsRoundTrip(n);
  }

  /** Numbers below 1000 are shown unchanged; from 1000 on there is a comma. */
  lemma FormatNumberSmall(n: nat)
    ensures n < 1000 <==> FormatNumber(n) == Digits(n)
  {
    DigitsLength(n);
    var s := Digits(n);
    if n >= 1000 {
      DigitsHaveNoComma(n);
      GroupShape(s);
    }
  }

  lemma DigitsHaveNoComma(n: nat)
    ensures ',' !in Digits(n)
  {
    var s := Digits(n);
    forall i | 0 <= i < |s|
      ensures s[i] != ','
    {
      assert IsDigit(s[i]);
    }
  }

  /** Groups of three after a first group of one to three digits, no comma
      at either end, and (|digits| - 1) / 3 commas in all. */
  lemma FormatNumberShape(n: nat)
    ensures WellGrouped(FormatNumber(n))
    ensures FormatNumber(n)[0] != ',' && FormatNumber(n)[|FormatNumber(n)| - 1] != ','
    ensures |FormatNumber(n)| == |Digits(n)| + (|Digits(n)| - 1) / 3
  {
    DigitsHaveNoComma(n);
    GroupShape(Digits(n));
  }

  /** In a well-grouped string every comma has a non-comma on each side. */
  lemma WellGroupedCommaNeighbours(r: string, i: nat)
    requires WellGrouped(r) && i < |r| && r[i] == ','
    ensures 0 < i < |r| - 1 && r[i - 1] != ',' && r[i + 1] != ','
  {
    var x := |r| - i;
    assert x % 4 == 0;
    ModNeighbours(x);
  }

  lemma ModNeighbours(x: nat)
    requires x % 4 == 0
    ensures (x + 1) % 4 == 1 && (x > 0 ==> (x - 1) % 4 == 3)
  {
  }

  /** Every comma stands between two digits. */
  lemma FormatNumberCommasBetweenDigits(n: nat, i: nat)
    requires i < |FormatNumber(n)| && FormatNumber(n)[i] == ','
    ensures 0 < i < |FormatNumber(n)| - 1
    ensures IsDigit(FormatNumber(n)[i - 1]) && IsDigit(FormatNumber(n)[i + 1])
  {
    DigitsHaveNoComma(n);
    GroupShape(Digits(n));
    WellGroupedCommaNeighbours(FormatNumber(n), i);
    CharsOfGroup(Digits(n), i - 1);
    CharsOfGroup(Digits(n), i + 1);
  }

  lemma {:induction false} CharsOfGroup(s: string, j: nat)
    requires AllDigits(s) && j < |Group(s)|
    ensures Group(s)[j] == ',' || IsDigit(Group(s)[j])
    decreases |s|
  {
    if |s| > 3 {
      var p := s[..|s| - 3];
      if j < |Group(p)| {
        CharsOfGroup(p, j);
      }
    }
  }

  /** The formatted number is what the regular expression produces. */
  lemma FormatNumberMatchesRegex(n: nat)
    ensures FormatNumber(n) == CommaRule(Digits(n), true)
  {
    GroupMatchesCommaRule(Digits(n));
  }
}
