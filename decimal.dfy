/**
 * Decimal text of numbers as Python's f-strings render them: an integer
 * (`f"{x}"`) and the true quotient of an integer by two (`f"{width/2}"`),
 * together with the parsers that read them back.
 */
module Decimal {
  import opened Wrappers

  predicate IsDigit(c: char) {
    '0' <= c <= '9'
  }

  predicate AllDigits(s: string) {
    forall i :: 0 <= i < |s| ==> IsDigit(s[i])
  }

  /** True when a number written in front of `rest` cannot run on into it. */
  predicate Delimits(rest: string) {
    rest == [] || !IsDigit(rest[0])
  }

  function DigitChar(d: nat): (c: char)
    requires d < 10
    ensures IsDigit(c) && DigitValue(c) == d
  {
    ('0' as int + d) as char
  }

  function DigitValue(c: char): nat
    requires IsDigit(c)
  {
    c as int - '0' as int
  }

  /** The value of a string of digits, most significant first. */
  function DigitsValue(s: string): nat
    requires AllDigits(s)
  {
    if s == [] then 0 else DigitsValue(s[..|s| - 1]) * 10 + DigitValue(s[|s| - 1])
  }

  /** `str(n)` for a natural number: digits only, no leading zero, and it denotes `n`. */
  function NatToString(n: nat): (s: string)
    ensures |s| >= 1 && AllDigits(s)
    ensures s[0] == '0' ==> s == "0"
    ensures DigitsValue(s) == n
    decreases n
  {
    if n < 10 then [DigitChar(n)]
    else
      var prefix := NatToString(n / 10);
      assert (prefix + [DigitChar(n % 10)])[..|prefix|] == prefix;
      prefix + [DigitChar(n % 10)]
  }

  /** `str(n)` for any integer: a minus sign before the magnitude when negative. */
  function IntToString(n: int): (s: string)
    ensures |s| >= 1
    ensures s[0] == '-' <==> n < 0
    ensures n >= 0 ==> AllDigits(s)
  {
    if n < 0 then "-" + NatToString(-n) else NatToString(n)
  }

  /**
   * `str(n / 2)` in Python 3, where `/` is true division: the quotient is a
   * float printed with one decimal, `.0` or `.5`, and a sign only when negative.
   */
  function HalfToString(n: int): (s: string)
    ensures |s| >= 3
    ensures s[0] == '-' <==> n < 0
    ensures s[|s| - 2] == '.' && (s[|s| - 1] == '0' || s[|s| - 1] == '5')
  {
    if n < 0 then "-" + HalfMagnitude(-n) else HalfMagnitude(n)
  }

  /** The unsigned text of `m / 2`: its whole part, then `.0` or `.5`. */
  function HalfMagnitude(m: nat): (s: string)
    ensures |s| >= 3 && IsDigit(s[0])
  {
    NatToString(m / 2) + (if m % 2 == 0 then ".0" else ".5")
  }

  /** The number of digits that `s` starts with. */
  function LeadingDigits(s: string): (k: nat)
    ensures k <= |s| && AllDigits(s[..k])
    ensures Delimits(s[k..])
  {
    if s != [] && IsDigit(s[0]) then
      var k := 1 + LeadingDigits(s[1..]);
      assert s[..k] == [s[0]] + s[1..][..k - 1];
      k
    else 0
  }

  /** Reads a non-empty run of digits off the front of `s`. */
  function ParseNat(s: string): (r: Option<(nat, string)>)
    ensures r.Some? ==> |r.value.1| < |s| && Delimits(r.value.1)
  {
    var k := LeadingDigits(s);
    if k == 0 then None else Some((DigitsValue(s[..k]), s[k..]))
  }

  /** Reads an optionally negative integer off the front of `s`. */
  function ParseInt(s: string): (r: Option<(int, string)>)
    ensures r.Some? ==> |r.value.1| < |s| && Delimits(r.value.1)
  {
    if s != [] && s[0] == '-' then
      match ParseNat(s[1..])
      case Some((n, rest)) => Some((-(n as int), rest))
      case None => None
    else
      match ParseNat(s)
      case Some((n, rest)) => Some((n as int, rest))
      case None => None
  }

  /**
   * Reads a number written as by HalfToString and gives back TWICE its value,
   * which is the integer that was halved.
   */
  function ParseHalf(s: string): (r: Option<(int, string)>)
    ensures r.Some? ==> |r.value.1| < |s|
  {
    if s != [] && s[0] == '-' then ParseHalfBody(true, s[1..]) else ParseHalfBody(false, s)
  }

  /** The unsigned part of ParseHalf, negated when a minus sign came before it. */
  function ParseHalfBody(negative: bool, body: string): (r: Option<(int, string)>)
    ensures r.Some? ==> |r.value.1| < |body|
  {
    match ParseNat(body)
    case None => None
    case Some((q, rest)) =>
      if |rest| >= 2 && rest[0] == '.' && (rest[1] == '0' || rest[1] == '5') then
        var twice := 2 * q + (if rest[1] == '5' then 1 else 0);
        Some((if negative then -twice else twice, rest[2..]))
      else None
  }

  lemma {:induction false} LeadingDigitsOf(digits: string, rest: string)
    requires AllDigits(digits) && Delimits(rest)
    ensures LeadingDigits(digits + rest) == |digits|
    decreases |digits|
  {
    if digits == [] {
      assert digits + rest == rest;
    } else {
      assert (digits + rest)[1..] == digits[1..] + rest;
      LeadingDigitsOf(digits[1..], rest);
    }
  }

  /** Reading back what NatToString wrote yields the number and leaves the rest untouched. */
  lemma NatRoundTrip(n: nat, rest: string)
    requires Delimits(rest)
    ensures ParseNat(NatToString(n) + rest) == Some((n, rest))
  {
    var s := NatToString(n);
    LeadingDigitsOf(s, rest);
    assert (s + rest)[..|s|] == s;
    assert (s + rest)[|s|..] == rest;
  }

  /** Reading back what IntToString wrote yields the integer, sign included. */
  lemma IntRoundTrip(n: int, rest: string)
    requires Delimits(rest)
    ensures ParseInt(IntToString(n) + rest) == Some((n, rest))
  {
    if n < 0 {
      var s := NatToString(-n);
      assert (("-" + s) + rest)[1..] == s + rest;
      NatRoundTrip(-n, rest);
    } else {
      NatRoundTrip(n, rest);
    }
  }

  /** Reading back what HalfToString wrote recovers the integer that was halved. */
  lemma HalfMagnitudeRoundTrip(negative: bool, m: nat, rest: string)
    ensures ParseHalfBody(negative, HalfMagnitude(m) + rest) == Some((if negative then -(m as int) else m as int, rest))
  {
    var fraction := if m % 2 == 0 then ".0" else ".5";
    var tail := fraction + rest;
    assert HalfMagnitude(m) + rest == NatToString(m / 2) + tail;
    NatRoundTrip(m / 2, tail);
    assert tail[0] == '.' && tail[1] == fraction[1] && tail[2..] == rest;
  }

  /** Reading back what HalfToString wrote recovers the integer that was halved. */
  lemma HalfRoundTrip(n: int, rest: string)
    ensures ParseHalf(HalfToString(n) + rest) == Some((n, rest))
  {
    if n < 0 {
      var body := HalfMagnitude(-n) + rest;
      assert HalfToString(n) + rest == "-" + body;
      assert ("-" + body)[1..] == body;
      HalfMagnitudeRoundTrip(true, -n, rest);
    } else {
      var written := HalfMagnitude(n) + rest;
      assert IsDigit(written[0]);
      HalfMagnitudeRoundTrip(false, n, rest);
    }
  }
}
