/** Decimal rendering of integers (JavaScript `String(n)` / `n.toString()`
    and template interpolation of a number) and the `parseInt` reading of
    a header value. */
module Numerals {
  import opened Wrappers

  predicate IsDigit(c: char)
  {
    '0' <= c <= '9'
  }

  function DigitChar(d: nat): (c: char)
    requires d < 10
    ensures IsDigit(c)
  {
    ('0' as int + d) as char
  }

  function DigitValue(c: char): (d: nat)
    requires IsDigit(c)
    ensures d < 10
  {
    c as int - '0' as int
  }

  predicate AllDigits(s: string)
  {
    forall i :: 0 <= i < |s| ==> IsDigit(s[i])
  }

  /** Decimal digits of `n`, most significant first, no leading zero. */
  function NatToString(n: nat): (s: string)
    ensures |s| > 0 && AllDigits(s)
    ensures |s| > 1 ==> s[0] != '0'
  {
    if n < 10 then [DigitChar(n)] else NatToString(n / 10) + [DigitChar(n % 10)]
  }

  /** Decimal rendering of an integer, with a leading `-` when negative. */
  function IntToString(i: int): (s: string)
    ensures i >= 0 ==> s == NatToString(i)
    ensures i < 0 ==> |s| > 1 && s[0] == '-' && s[1..] == NatToString(-i)
  {
    if i >= 0 then NatToString(i) else "-" + NatToString(-i)
  }

  /** The value of a non-empty run of decimal digits. */
  function DigitsValue(s: string): nat
    requires |s| > 0 && AllDigits(s)
  {
    if |s| == 1 then DigitValue(s[0])
    else DigitsValue(s[..|s| - 1]) * 10 + DigitValue(s[|s| - 1])
  }

  /** The longest prefix of `s` made of decimal digits. */
  function LeadingDigits(s: string): (r: string)
    ensures |r| <= |s| && r == s[..|r|] && AllDigits(r)
    ensures |r| < |s| ==> !IsDigit(s[|r|])
  {
    if |s| == 0 || !IsDigit(s[0]) then "" else [s[0]] + LeadingDigits(s[1..])
  }

  /** `s` without one leading sign character. */
  function Unsigned(s: string): (r: string)
    ensures |s| > 0 && (s[0] == '-' || s[0] == '+') ==> r == s[1..]
    ensures !(|s| > 0 && (s[0] == '-' || s[0] == '+')) ==> r == s
  {
    if |s| > 0 && (s[0] == '-' || s[0] == '+') then s[1..] else s
  }

  /** JavaScript `parseInt(s)` for inputs without leading white space: an
      optional sign followed by the longest run of digits; `None` stands
      for `NaN` (no digit after the sign). */
  function ParseIntPrefix(s: string): (r: Option<int>)
    ensures r.None? <==> LeadingDigits(Unsigned(s)) == ""
    ensures r.Some? ==> (if r.value < 0 then -r.value else r.value) == DigitsValue(LeadingDigits(Unsigned(s)))
    ensures r.Some? && r.value < 0 ==> s[0] == '-'
    ensures r.Some? && |s| > 0 && s[0] == '-' ==> r.value <= 0
  {
    var negative := |s| > 0 && s[0] == '-';
    var digits := LeadingDigits(Unsigned(s));
    if |digits| == 0 then None
    else
      var magnitude: int := DigitsValue(digits);
      Some(if negative then -magnitude else magnitude)
  }

  /** Reading back the decimal rendering of a natural number gives it back. */
  lemma {:induction false} DigitsValueOfNatToString(n: nat)
    ensures DigitsValue(NatToString(n)) == n
  {
    if n >= 10 {
      var s := NatToString(n);
      assert s[..|s| - 1] == NatToString(n / 10);
      DigitsValueOfNatToString(n / 10);
    }
  }

  /** `parseInt` inverts the decimal rendering of every integer. */
  lemma ParseIntOfIntToString(i: int)
    ensures ParseIntPrefix(IntToString(i)) == Some(i)
  {
    var s := IntToString(i);
    var body := if i >= 0 then s else s[1..];
    var n: nat := if i >= 0 then i else -i;
    assert body == NatToString(n);
    LeadingDigitsOfDigits(body);
    DigitsValueOfNatToString(n);
  }

  /** `parseInt` reads the number at the front and ignores whatever
      follows from the first non-digit on. */
  lemma ParseIntStopsAtNonDigit(i: int, rest: string)
    requires |rest| > 0 ==> !IsDigit(rest[0])
    ensures ParseIntPrefix(IntToString(i) + rest) == Some(i)
  {
    var s := IntToString(i);
    var n: nat := if i >= 0 then i else -i;
    var body := if i >= 0 then s else s[1..];
    assert body == NatToString(n);
    assert Unsigned(s + rest) == body + rest by {
      if i < 0 {
        assert (s + rest)[1..] == s[1..] + rest;
      } else {
        assert s[0] != '-' && s[0] != '+';
      }
    }
    LeadingDigitsThen(body, rest);
    DigitsValueOfNatToString(n);
  }

  /** The longest digit prefix of digits followed by a non-digit. */
  lemma {:induction false} LeadingDigitsThen(d: string, rest: string)
    requires AllDigits(d)
    requires |rest| > 0 ==> !IsDigit(rest[0])
    ensures LeadingDigits(d + rest) == d
  {
    if |d| == 0 {
      assert d + rest == rest;
    } else {
      assert (d + rest)[1..] == d[1..] + rest;
      LeadingDigitsThen(d[1..], rest);
    }
  }

  /** A string of digits is its own longest digit prefix. */
  lemma {:induction false} LeadingDigitsOfDigits(s: string)
    requires AllDigits(s)
    ensures LeadingDigits(s) == s
  {
    if |s| > 0 {
      LeadingDigitsOfDigits(s[1..]);
    }
  }

  /** Distinct integers render differently. */
  lemma IntToStringInjective(a: int, b: int)
    requires IntToString(a) == IntToString(b)
    ensures a == b
  {
    ParseIntOfIntToString(a);
    ParseIntOfIntToString(b);
  }
}
