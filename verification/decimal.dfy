/** Decimal text of integers: Rust's `Display` for the integer types (no
    leading zeros, a '-' before a negative value) and their `FromStr` (an
    optional sign, then one or more ASCII digits, failing when the value
    does not fit; an unsigned type accepts only '+'). */
module Decimal {
  import opened Wrappers

  predicate IsDigit(c: char) {
    '0' <= c <= '9'
  }

  function DigitValue(c: char): (d: nat)
    requires IsDigit(c)
    ensures d < 10
  {
    (c as int - '0' as int) as nat
  }

  function DigitChar(d: nat): (c: char)
    requires d < 10
    ensures IsDigit(c) && DigitValue(c) == d
  {
    ('0' as int + d) as char
  }

  /** The value of a string of digits, most significant first. */
  function Value(s: string): nat
    requires forall i | 0 <= i < |s| :: IsDigit(s[i])
    decreases |s|
  {
    if s == [] then 0 else Value(s[..|s| - 1]) * 10 + DigitValue(s[|s| - 1])
  }

  /** `format!("{}", n)`. */
  function Format(n: nat): (s: string)
    ensures |s| > 0 && forall i | 0 <= i < |s| :: IsDigit(s[i])
    ensures |s| > 1 ==> s[0] != '0'
    ensures Value(s) == n
    decreases n
  {
    if n < 10 then [DigitChar(n)]
    else
      var init := Format(n / 10);
      var s := init + [DigitChar(n % 10)];
      assert s[..|s| - 1] == init;
      s
  }

  /** `str::parse` for an unsigned type whose largest value is `max`. */
  function Parse(s: string, max: nat): (r: Option<nat>)
    ensures r.Some? ==> r.value <= max
    ensures r.Some? <==>
              var digits := if |s| > 0 && s[0] == '+' then s[1..] else s;
              |digits| > 0 && (forall i | 0 <= i < |digits| :: IsDigit(digits[i])) && Value(digits) <= max
  {
    var digits := if |s| > 0 && s[0] == '+' then s[1..] else s;
    if |digits| > 0 && (forall i | 0 <= i < |digits| :: IsDigit(digits[i])) && Value(digits) <= max
    then Some(Value(digits))
    else None
  }

  const U16Max: nat := 0xFFFF
  const U64Max: nat := 0xFFFF_FFFF_FFFF_FFFF
  const I32Min: int := -0x8000_0000
  const I32Max: nat := 0x7FFF_FFFF

  /** `format!("{}", n)` for a signed type: the magnitude, after a '-' when
      the value is negative. */
  function FormatInt(n: int): (s: string)
    ensures |s| > 0 && (s[0] == '-' <==> n < 0)
    ensures n < 0 ==> s[1..] == Format(-n)
    ensures n >= 0 ==> IsDigit(s[0]) && s == Format(n)
  {
    if n < 0 then "-" + Format(-n) else Format(n)
  }

  /** `str::parse` for a signed type ranging over `min..=max`: an optional
      '+' or '-', then one or more digits, whose value must lie in range. */
  function ParseInt(s: string, min: int, max: int): (r: Option<int>)
    ensures r.Some? ==> min <= r.value <= max
    ensures r.Some? ==> |s| > 0 && (r.value < 0 ==> s[0] == '-')
    ensures r.Some? <==>
              var digits := if |s| > 0 && (s[0] == '+' || s[0] == '-') then s[1..] else s;
              |digits| > 0 && (forall i | 0 <= i < |digits| :: IsDigit(digits[i]))
              && min <= (if |s| > 0 && s[0] == '-' then 0 - Value(digits) as int else Value(digits) as int) <= max
  {
    var digits := if |s| > 0 && (s[0] == '+' || s[0] == '-') then s[1..] else s;
    if |digits| > 0 && (forall i | 0 <= i < |digits| :: IsDigit(digits[i])) then
      var v: int := if |s| > 0 && s[0] == '-' then 0 - Value(digits) as int else Value(digits) as int;
      if min <= v <= max then Some(v) else None
    else None
  }

  /** Parsing undoes formatting, for every value in range. */
  lemma ParseFormat(n: nat, max: nat)
    requires n <= max
    ensures Parse(Format(n), max) == Some(n)
  {
    var s := Format(n);
    assert s[0] != '+' by { assert IsDigit(s[0]); }
  }

  /** Parsing undoes formatting for signed values too. */
  lemma ParseFormatInt(n: int, min: int, max: int)
    requires min <= n <= max
    ensures ParseInt(FormatInt(n), min, max) == Some(n)
  {
    var s := FormatInt(n);
    if n < 0 {
      assert s[1..] == Format(-n);
    } else {
      assert s == Format(n);
      assert s[0] != '+' && s[0] != '-' by { assert IsDigit(s[0]); }
    }
  }

  /** Formatting undoes parsing on canonical text: digits without a
      redundant leading zero. */
  lemma {:induction false} FormatValue(s: string)
    requires |s| > 0 && forall i | 0 <= i < |s| :: IsDigit(s[i])
    requires |s| > 1 ==> s[0] != '0'
    ensures Format(Value(s)) == s
    decreases |s|
  {
    var init := s[..|s| - 1];
    var last := s[|s| - 1];
    if |s| == 1 {
      assert Value(s) == DigitValue(last);
    } else {
      assert init[0] == s[0];
      FormatValue(init);
      NonZeroLead(init);
      var n := Value(s);
      assert n / 10 == Value(init) && n % 10 == DigitValue(last);
      assert DigitChar(DigitValue(last)) == last;
    }
  }

  lemma {:induction false} NonZeroLead(s: string)
    requires |s| > 0 && forall i | 0 <= i < |s| :: IsDigit(s[i])
    requires s[0] != '0'
    ensures Value(s) >= 1
    decreases |s|
  {
    if |s| > 1 {
      assert s[..|s| - 1][0] == s[0];
      NonZeroLead(s[..|s| - 1]);
    }
  }
}
