/**
 * The few java.lang.String / Integer operations the roster code relies on:
 * `trim`, `Integer.toString`, `Integer.parseInt` and `equalsIgnoreCase`.
 * Strings are sequences of Unicode scalar values.
 */
module JavaText {
  import opened Wrappers

  const MinInt: int := -0x8000_0000
  const MaxInt: int := 0x7fff_ffff

  // ---------------------------------------------------------------- trim

  /** `String.trim` drops every character whose code point is at most U+0020. */
  predicate IsBlank(c: char) {
    c <= ' '
  }

  /** Number of blank characters at the start of `s`. */
  function LeadingBlanks(s: string): (n: nat)
    ensures n <= |s|
    ensures forall k :: 0 <= k < n ==> IsBlank(s[k])
    ensures n < |s| ==> !IsBlank(s[n])
  {
    if s == [] || !IsBlank(s[0]) then 0
    else
      var m := LeadingBlanks(s[1..]);
      assert forall k :: 1 <= k < m + 1 ==> s[k] == s[1..][k - 1];
      1 + m
  }

  /** Number of blank characters at the end of `s`. */
  function TrailingBlanks(s: string): (n: nat)
    ensures n <= |s|
    ensures forall k :: |s| - n <= k < |s| ==> IsBlank(s[k])
    ensures n < |s| ==> !IsBlank(s[|s| - 1 - n])
  {
    if s == [] || !IsBlank(s[|s| - 1]) then 0
    else
      var m := TrailingBlanks(s[..|s| - 1]);
      assert forall k :: |s| - 1 - m <= k < |s| - 1 ==> s[k] == s[..|s| - 1][k];
      1 + m
  }

  /**
   * `String.trim`: the longest infix of `s` that neither starts nor ends
   * with a blank; everything cut off on either side is blank.
   */
  function Trim(s: string): (r: string)
    ensures r == [] || (!IsBlank(r[0]) && !IsBlank(r[|r| - 1]))
    ensures LeadingBlanks(s) + |r| <= |s|
    ensures r == s[LeadingBlanks(s)..LeadingBlanks(s) + |r|]
    ensures forall k :: LeadingBlanks(s) + |r| <= k < |s| ==> IsBlank(s[k])
  {
    var lo := LeadingBlanks(s);
    if lo == |s| then []
    else
      var t := TrailingBlanks(s);
      assert lo < |s| - t;
      s[lo..|s| - t]
  }

  /** A string without blank ends is its own trim. */
  lemma TrimOfTrimmed(s: string)
    requires s == [] || (!IsBlank(s[0]) && !IsBlank(s[|s| - 1]))
    ensures Trim(s) == s
  {
  }

  /** Trimming twice is trimming once. */
  lemma TrimIdempotent(s: string)
    ensures Trim(Trim(s)) == Trim(s)
  {
    TrimOfTrimmed(Trim(s));
  }

  // ------------------------------------------------------------- digits

  predicate IsDigit(c: char) {
    '0' <= c <= '9'
  }

  predicate AllDigits(s: string) {
    forall k :: 0 <= k < |s| ==> IsDigit(s[k])
  }

  function DigitChar(d: nat): (c: char)
    requires d < 10
    ensures IsDigit(c)
  {
    ('0' as int + d) as char
  }

  function DigitValue(c: char): (d: nat)
    requires IsDigit(c)
    ensures d < 10 && DigitChar(d) == c
  {
    c as int - '0' as int
  }

  /** The value of a string of decimal digits, most significant first. */
  function DigitsValue(s: string): nat
    requires AllDigits(s)
  {
    if s == [] then 0 else DigitsValue(s[..|s| - 1]) * 10 + DigitValue(s[|s| - 1])
  }

  /** `Integer.toString` of a non-negative value: at least one digit, nothing else. */
  function NatToText(n: nat): (r: string)
    ensures |r| > 0 && AllDigits(r)
    ensures |r| > 1 ==> r[0] != '0'
  {
    if n < 10 then [DigitChar(n)]
    else
      var head := NatToText(n / 10);
      assert (head + [DigitChar(n % 10)])[0] == head[0];
      head + [DigitChar(n % 10)]
  }

  /** `Integer.toString` / `String.valueOf(int)`: a minus sign for negative values. */
  function IntToText(i: int): (r: string)
    ensures |r| > 0
    ensures i < 0 <==> r[0] == '-'
    ensures i >= 0 ==> AllDigits(r)
    ensures i >= 0 && |r| > 1 ==> r[0] != '0'
    ensures i < 0 ==> |r| > 1 && AllDigits(r[1..]) && r[1] != '0'
  {
    if i < 0 then
      var t := NatToText(-i);
      assert ("-" + t)[1..] == t;
      "-" + t
    else NatToText(i)
  }

  /** Reading the digits back gives the number that was written. */
  lemma {:induction false} NatToTextRoundTrip(n: nat)
    ensures DigitsValue(NatToText(n)) == n
  {
    if n >= 10 {
      var t := NatToText(n);
      assert t[..|t| - 1] == NatToText(n / 10);
      NatToTextRoundTrip(n / 10);
    }
  }

  /**
   * `Integer.parseInt` (radix 10): an optional `-` or `+`, then at least one
   * digit, and the value must fit a 32-bit int; anything else is the
   * NumberFormatException, here `None`.
   */
  function ParseInt(s: string): (r: Option<int>)
    ensures r.Some? ==> MinInt <= r.value <= MaxInt
    ensures r.Some? ==> |s| > 0
  {
    if |s| > 0 && (s[0] == '-' || s[0] == '+') then
      var body := s[1..];
      if body == [] || !AllDigits(body) then None
      else
        var v: int := if s[0] == '-' then -(DigitsValue(body) as int) else DigitsValue(body);
        if MinInt <= v <= MaxInt then Some(v) else None
    else if s == [] || !AllDigits(s) then None
    else
      var v := DigitsValue(s);
      if v <= MaxInt then Some(v) else None
  }

  /** Every 32-bit int survives `toString` followed by `parseInt`. */
  lemma ParseIntRoundTrip(i: int)
    requires MinInt <= i <= MaxInt
    ensures ParseInt(IntToText(i)) == Some(i)
  {
    var t := IntToText(i);
    if i < 0 {
      assert t == "-" + NatToText(-i);
      assert t[0] == '-' && t[1..] == NatToText(-i);
      NatToTextRoundTrip(-i);
    } else {
      assert t == NatToText(i);
      assert IsDigit(t[0]);
      NatToTextRoundTrip(i);
    }
  }

  /** `z` zero digits. */
  function Zeros(z: nat): (r: string)
    ensures |r| == z && AllDigits(r)
    ensures forall k :: 0 <= k < z ==> r[k] == '0'
  {
    seq(z, _ => '0')
  }

  /** A run of zeros is worth nothing. */
  lemma {:induction false} ZerosValue(z: nat)
    ensures DigitsValue(Zeros(z)) == 0
  {
    if z > 0 {
      assert Zeros(z)[..z - 1] == Zeros(z - 1);
      ZerosValue(z - 1);
    }
  }

  /** Zeros in front of a digit string do not change its value. */
  lemma {:induction false} LeadingZerosIgnored(z: nat, t: string)
    requires AllDigits(t)
    ensures AllDigits(Zeros(z) + t)
    ensures DigitsValue(Zeros(z) + t) == DigitsValue(t)
    decreases |t|
  {
    var u := Zeros(z) + t;
    assert forall k :: 0 <= k < |u| ==> IsDigit(u[k]) by {
      forall k | 0 <= k < |u| ensures IsDigit(u[k]) {
        if k >= z { assert u[k] == t[k - z]; }
      }
    }
    if t == [] {
      assert u == Zeros(z);
      ZerosValue(z);
    } else {
      assert u[..|u| - 1] == Zeros(z) + t[..|t| - 1];
      assert u[|u| - 1] == t[|t| - 1];
      LeadingZerosIgnored(z, t[..|t| - 1]);
    }
  }

  /**
   * `parseInt` also reads texts `toString` never writes: zeros in front of
   * the digits, a `+` sign, and "-0".
   */
  lemma ParseIntReadsPadded(z: nat, n: nat)
    ensures n <= MaxInt ==> ParseInt(Zeros(z) + NatToText(n)) == Some(n)
    ensures n <= MaxInt ==> ParseInt("+" + Zeros(z) + NatToText(n)) == Some(n)
    ensures n <= -MinInt ==> ParseInt("-" + Zeros(z) + NatToText(n)) == Some(-(n as int))
  {
    var t := NatToText(n);
    var u := Zeros(z) + t;
    NatToTextRoundTrip(n);
    LeadingZerosIgnored(z, t);
    assert IsDigit(u[0]) by {
      if z == 0 { assert u[0] == t[0]; }
    }
    assert ("+" + u)[0] == '+' && ("+" + u)[1..] == u;
    assert ("-" + u)[0] == '-' && ("-" + u)[1..] == u;
    assert "+" + Zeros(z) + t == "+" + u;
    assert "-" + Zeros(z) + t == "-" + u;
  }

  /** A numeral beyond the 32-bit range is rejected, whatever its zeros and sign: `parseInt` never wraps around. */
  lemma ParseIntRejectsOverflow(z: nat, n: nat)
    ensures n > MaxInt ==> ParseInt(Zeros(z) + NatToText(n)) == None
    ensures n > MaxInt ==> ParseInt("+" + Zeros(z) + NatToText(n)) == None
    ensures n > -MinInt ==> ParseInt("-" + Zeros(z) + NatToText(n)) == None
  {
    var t := NatToText(n);
    var u := Zeros(z) + t;
    NatToTextRoundTrip(n);
    LeadingZerosIgnored(z, t);
    assert IsDigit(u[0]) by {
      if z == 0 { assert u[0] == t[0]; }
    }
    assert ("+" + u)[0] == '+' && ("+" + u)[1..] == u;
    assert ("-" + u)[0] == '-' && ("-" + u)[1..] == u;
    assert "+" + Zeros(z) + t == "+" + u;
    assert "-" + Zeros(z) + t == "-" + u;
  }

  /** What `parseInt` accepts: a digit or a sign first, at least one digit, nothing but digits after the first character. */
  lemma ParseIntShape(s: string)
    requires ParseInt(s).Some?
    ensures IsDigit(s[0]) || s[0] == '-' || s[0] == '+'
    ensures |s| > 1 || IsDigit(s[0])
    ensures AllDigits(s[1..])
  {
    if !(s[0] == '-' || s[0] == '+') {
      assert forall k :: 0 <= k < |s[1..]| ==> s[1..][k] == s[k + 1];
    }
  }

  /** A string that parses contains no blank character, so trimming keeps it. */
  lemma ParsedIsTrimmed(s: string)
    requires ParseInt(s).Some?
    ensures Trim(s) == s
  {
    assert !IsBlank(s[|s| - 1]);
    assert !IsBlank(s[0]);
    TrimOfTrimmed(s);
  }

  // --------------------------------------------------------- ignore case

  /**
   * Upper-case mapping for the Latin letters a-z, the Cyrillic letters а-я
   * and ѐ-џ, and the historic Cyrillic forms U+1C80..U+1C88 (Unicode 9 and
   * later): rounded ve, long-legged de, narrow o, wide es, tall te,
   * three-legged te, tall hard sign, tall yat and unblended uk. Every other
   * character maps to itself.
   */
  function UpperCase(c: char): char {
    if 'a' <= c <= 'z' then (c as int - 32) as char
    else if 'а' <= c <= 'я' then (c as int - 32) as char
    else if 'ѐ' <= c <= 'џ' then (c as int - 80) as char
    else if c == '\U{1C80}' then 'В'
    else if c == '\U{1C81}' then 'Д'
    else if c == '\U{1C82}' then 'О'
    else if c == '\U{1C83}' then 'С'
    else if c == '\U{1C84}' || c == '\U{1C85}' then 'Т'
    else if c == '\U{1C86}' then 'Ъ'
    else if c == '\U{1C87}' then '\U{0462}'
    else if c == '\U{1C88}' then '\U{A64A}'
    else c
  }

  /** `String.equalsIgnoreCase`: same length, and position by position equal once upper-cased. */
  predicate EqualsIgnoreCase(a: string, b: string): (r: bool)
    ensures a == b ==> r
    ensures r ==> |a| == |b|
  {
    |a| == |b| && forall k :: 0 <= k < |a| ==> UpperCase(a[k]) == UpperCase(b[k])
  }
}
