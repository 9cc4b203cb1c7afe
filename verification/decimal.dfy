/**
  Decimal text as Python writes it: `str` of an integer, and the fixed-point
  format `.2f` of a number of thirds (every mark in the calculator is a whole
  number of thirds).
 */
module Decimal {

  datatype Option<T> = None | Some(value: T)

  predicate IsDigit(c: char)
  {
    '0' <= c <= '9'
  }

  predicate AllDigits(s: string)
  {
    forall i | 0 <= i < |s| :: IsDigit(s[i])
  }

  /** A digit string without a superfluous leading zero, as `str` writes a
      non-negative integer. */
  predicate Canonical(s: string)
  {
    |s| >= 1 && AllDigits(s) && (s[0] == '0' ==> |s| == 1)
  }

  function DigitValue(c: char): nat
    requires IsDigit(c)
  {
    c as int - '0' as int
  }

  function DigitChar(d: nat): (c: char)
    requires d < 10
    ensures IsDigit(c) && DigitValue(c) == d
  {
    ('0' as int + d) as char
  }

  /** The number a digit string denotes, most significant digit first. */
  function DecimalValue(s: string): nat
    requires AllDigits(s)
  {
    if s == [] then 0 else 10 * DecimalValue(s[..|s| - 1]) + DigitValue(s[|s| - 1])
  }

  /** `str(n)` for `n >= 0`. */
  function NatToDecimal(n: nat): (r: string)
    ensures Canonical(r)
    ensures DecimalValue(r) == n
  {
    if n < 10 then [DigitChar(n)]
    else
      var prefix := NatToDecimal(n / 10);
      var r := prefix + [DigitChar(n % 10)];
      assert r[..|r| - 1] == prefix;
      r
  }

  /** A digit string that does not start with 0 denotes a positive number. */
  lemma {:induction false} LeadingDigitPositive(s: string)
    requires |s| >= 1 && AllDigits(s) && s[0] != '0'
    ensures DecimalValue(s) >= 1
  {
    if |s| > 1 {
      LeadingDigitPositive(s[..|s| - 1]);
    }
  }

  /** Every canonical digit string is what `str` writes for its value: with
      `NatToDecimal`'s own contract, the two are inverse bijections between
      naturals and canonical digit strings. */
  lemma {:induction false} CanonicalRoundTrip(s: string)
    requires Canonical(s)
    ensures NatToDecimal(DecimalValue(s)) == s
  {
    if |s| > 1 {
      var prefix, last := s[..|s| - 1], s[|s| - 1];
      assert Canonical(prefix);
      LeadingDigitPositive(prefix);
      CanonicalRoundTrip(prefix);
      var n := DecimalValue(s);
      assert n / 10 == DecimalValue(prefix) && n % 10 == DigitValue(last);
      assert s == prefix + [last];
    }
  }

  /** `str(i)` for any integer. */
  function IntToDecimal(i: int): (r: string)
    ensures |r| >= 1
    ensures r[0] == '-' <==> i < 0
  {
    if i < 0 then "-" + NatToDecimal(-i) else NatToDecimal(i)
  }

  /** Reads back what `str` writes for an integer; `None` for any other text. */
  function ParseInt(s: string): Option<int>
  {
    if |s| >= 1 && s[0] == '-' then
      if Canonical(s[1..]) && s[1..] != "0" then
        var magnitude: int := DecimalValue(s[1..]);
        Some(-magnitude)
      else None
    else if Canonical(s) then Some(DecimalValue(s))
    else None
  }

  /** `str` of an integer reads back as that integer. */
  lemma IntRoundTrip(i: int)
    ensures ParseInt(IntToDecimal(i)) == Some(i)
  {
    if i < 0 {
      assert IntToDecimal(i)[1..] == NatToDecimal(-i);
      assert DecimalValue("0") == 0;
    }
  }

  /** Only what `str` writes for an integer reads back as one. */
  lemma ParsedIntIsCanonical(s: string, i: int)
    requires ParseInt(s) == Some(i)
    ensures IntToDecimal(i) == s
  {
    if |s| >= 1 && s[0] == '-' {
      CanonicalRoundTrip(s[1..]);
      LeadingDigitPositive(s[1..]);
      assert s == "-" + s[1..];
    } else {
      CanonicalRoundTrip(s);
    }
  }

  /** A number shown to two decimal places: its sign and its magnitude in
      hundredths. */
  datatype Fixed = Fixed(negative: bool, hundredths: nat)

  /** The magnitude `thirds / 3`, in hundredths, rounded to the nearest:
      within a third of a hundredth of the exact value, so it is never a tie. */
  function Hundredths(thirds: nat): (h: nat)
    ensures -1 <= 3 * h - 100 * thirds <= 1
  {
    (100 * thirds + 1) / 3
  }

  /** The rounding is the only whole number of hundredths that close. */
  lemma HundredthsIsNearest(thirds: nat, h: nat)
    requires -1 <= 3 * h - 100 * thirds <= 1
    ensures h == Hundredths(thirds)
  {
  }

  /** The rounded hundredths still determine the exact number of thirds. */
  lemma HundredthsDetermineThirds(thirds: nat)
    ensures (3 * Hundredths(thirds) + 1) / 100 == thirds
  {
  }

  /** `format(x, ".2f")` for `x = thirds / 3` or `x = -(thirds / 3)`: an
      optional minus sign, the whole part, a point and exactly two digits. */
  function FormatFixed(negative: bool, thirds: nat): (r: string)
    ensures |r| >= 4 && r[|r| - 3] == '.'
    ensures r[0] == '-' <==> negative
  {
    var h := Hundredths(thirds);
    (if negative then "-" else "") + NatToDecimal(h / 100) + "."
      + [DigitChar(h / 10 % 10), DigitChar(h % 10)]
  }

  /** The two characters after the point are digits. */
  lemma FormatFixedDigits(negative: bool, thirds: nat)
    ensures var r := FormatFixed(negative, thirds);
      IsDigit(r[|r| - 2]) && IsDigit(r[|r| - 1])
  {
    var h := Hundredths(thirds);
    var r := FormatFixed(negative, thirds);
    var fraction := [DigitChar(h / 10 % 10), DigitChar(h % 10)];
    assert r == (if negative then "-" else "") + NatToDecimal(h / 100) + "." + fraction;
    assert r[|r| - 2] == fraction[0] && r[|r| - 1] == fraction[1];
  }

  /** Reads back a two-decimal number; `None` for any text not of that shape. */
  function ParseFixed(s: string): Option<Fixed>
  {
    var negative := |s| >= 1 && s[0] == '-';
    var body := if negative then s[1..] else s;
    if |body| < 4 || body[|body| - 3] != '.' then None
    else
      var whole, fraction := body[..|body| - 3], body[|body| - 2..];
      if Canonical(whole) && AllDigits(fraction) then
        Some(Fixed(negative, 100 * DecimalValue(whole) + DecimalValue(fraction)))
      else None
  }

  lemma TwoDigitValue(tens: nat, units: nat)
    requires tens < 10 && units < 10
    ensures DecimalValue([DigitChar(tens), DigitChar(units)]) == 10 * tens + units
  {
    var fraction := [DigitChar(tens), DigitChar(units)];
    assert fraction[..1] == [DigitChar(tens)];
    assert [DigitChar(tens)][..0] == [];
    assert DecimalValue([DigitChar(tens)]) == tens;
    assert DecimalValue(fraction) == 10 * DecimalValue(fraction[..1]) + units;
  }

  lemma SplitHundredths(h: nat)
    ensures 100 * (h / 100) + 10 * (h / 10 % 10) + h % 10 == h
  {
  }

  /** The formatted text reads back as the sign and the rounded magnitude. */
  lemma FormatFixedParses(negative: bool, thirds: nat)
    ensures ParseFixed(FormatFixed(negative, thirds)) == Some(Fixed(negative, Hundredths(thirds)))
  {
    var h := Hundredths(thirds);
    var whole := NatToDecimal(h / 100);
    var fraction := [DigitChar(h / 10 % 10), DigitChar(h % 10)];
    var body := whole + "." + fraction;
    var s := FormatFixed(negative, thirds);
    assert s == (if negative then "-" else "") + body;
    if negative {
      assert s[0] == '-' && s[1..] == body;
    } else {
      assert s == body;
    }
    assert body[..|body| - 3] == whole;
    assert body[|body| - 2..] == fraction;
    TwoDigitValue(h / 10 % 10, h % 10);
    SplitHundredths(h);
  }

  /** Different signs or magnitudes always give different texts: the two-decimal
      display loses no information about a number of thirds. */
  lemma FormatFixedInjective(n1: bool, t1: nat, n2: bool, t2: nat)
    ensures FormatFixed(n1, t1) == FormatFixed(n2, t2) <==> n1 == n2 && t1 == t2
  {
    FormatFixedParses(n1, t1);
    FormatFixedParses(n2, t2);
    HundredthsDetermineThirds(t1);
    HundredthsDetermineThirds(t2);
  }
}
