/**
  Decimal text of integers: what `format("%u")` / `format("%d")` produce
  for the text format's integer writes, and a decimal parser that undoes
  it (the decimal case of the number parser the text format reads with).
*/
module Decimal {
  import opened Bytes
  import opened Optional

  /** '0' to '9'. */
  predicate IsDigit(c: byte)
  {
    c == 0x30 || c == 0x31 || c == 0x32 || c == 0x33 || c == 0x34 ||
    c == 0x35 || c == 0x36 || c == 0x37 || c == 0x38 || c == 0x39
  }

  predicate AllDigits(s: seq<byte>)
  {
    forall i :: 0 <= i < |s| ==> IsDigit(s[i])
  }

  /** The character of decimal digit `d`. */
  function DigitChar(d: nat): (c: byte)
    requires d < 10
    ensures IsDigit(c)
  {
    match d
    case 0 => 0x30
    case 1 => 0x31
    case 2 => 0x32
    case 3 => 0x33
    case 4 => 0x34
    case 5 => 0x35
    case 6 => 0x36
    case 7 => 0x37
    case 8 => 0x38
    case _ => 0x39
  }

  /** The value of a digit character. */
  function DigitValue(c: byte): (d: nat)
    requires IsDigit(c)
    ensures d < 10
  {
    if c == 0x30 then 0
    else if c == 0x31 then 1
    else if c == 0x32 then 2
    else if c == 0x33 then 3
    else if c == 0x34 then 4
    else if c == 0x35 then 5
    else if c == 0x36 then 6
    else if c == 0x37 then 7
    else if c == 0x38 then 8
    else 9
  }

  /** `%u`: the digits of `v`, most significant first, no leading zeros. */
  function FormatUnsigned(v: nat): (s: seq<byte>)
    ensures 1 <= |s| && AllDigits(s)
    decreases v
  {
    if v < 10 then [DigitChar(v)] else FormatUnsigned(v / 10) + [DigitChar(v % 10)]
  }

  /** `%d`: a minus sign before the digits of a negative value. */
  function FormatSigned(v: int): (s: seq<byte>)
    ensures 1 <= |s|
  {
    if v < 0 then [MINUS] + FormatUnsigned(-v) else FormatUnsigned(v)
  }

  /** The number a string of digits denotes. */
  function DigitsValue(s: seq<byte>): nat
    requires AllDigits(s)
  {
    if s == [] then 0 else 10 * DigitsValue(s[..|s| - 1]) + DigitValue(s[|s| - 1])
  }

  /** Decimal parser: an optional minus sign and at least one digit; anything else fails. */
  function ParseDecimal(s: seq<byte>): Option<int>
  {
    if s != [] && s[0] == MINUS then
      if |s| > 1 && AllDigits(s[1..]) then Some(0 - DigitsValue(s[1..])) else None
    else if s != [] && AllDigits(s) then Some(DigitsValue(s))
    else None
  }

  lemma DigitRoundTrip(d: nat)
    requires d < 10
    ensures DigitValue(DigitChar(d)) == d
  {
  }

  /** The digits of `v` denote `v`. */
  lemma {:induction false} FormatUnsignedValue(v: nat)
    ensures DigitsValue(FormatUnsigned(v)) == v
    decreases v
  {
    var s := FormatUnsigned(v);
    DigitRoundTrip(v % 10);
    if v >= 10 {
      FormatUnsignedValue(v / 10);
      assert s[..|s| - 1] == FormatUnsigned(v / 10);
    } else {
      assert s[..|s| - 1] == [];
    }
  }

  /** The parser accepts any non-empty run of digits as the number it denotes. */
  lemma ParseDigits(u: seq<byte>)
    requires |u| >= 1 && AllDigits(u)
    ensures ParseDecimal(u) == Some(DigitsValue(u))
  {
    assert IsDigit(u[0]);
  }

  /** The parser accepts a minus sign and a non-empty run of digits as the negated number. */
  lemma ParseNegated(u: seq<byte>)
    requires |u| >= 1 && AllDigits(u)
    ensures ParseDecimal([MINUS] + u) == Some(0 - DigitsValue(u))
  {
    var s := [MINUS] + u;
    assert s[1..] == u;
  }

  /** Parsing what `%d` / `%u` printed gives the value back. */
  lemma ParseFormatted(v: int)
    ensures ParseDecimal(FormatSigned(v)) == Some(v)
  {
    if v < 0 {
      FormatUnsignedValue(-v);
      ParseNegated(FormatUnsigned(-v));
    } else {
      FormatUnsignedValue(v);
      ParseDigits(FormatUnsigned(v));
    }
  }

  function Pow10(k: nat): (p: nat)
    ensures p >= 1
  {
    if k == 0 then 1 else 10 * Pow10(k - 1)
  }

  lemma Pow10Twenty()
    ensures Pow10(19) == 10_000_000_000_000_000_000
    ensures Pow10(20) == 100_000_000_000_000_000_000
  {
    assert Pow10(1) == 10;
    assert Pow10(2) == 100;
    assert Pow10(3) == 1000;
    assert Pow10(4) == 10000;
    assert Pow10(5) == 100000;
    assert Pow10(6) == 1000000;
    assert Pow10(7) == 10000000;
    assert Pow10(8) == 100000000;
    assert Pow10(9) == 1000000000;
    assert Pow10(10) == 10000000000;
    assert Pow10(11) == 100000000000;
    assert Pow10(12) == 1000000000000;
    assert Pow10(13) == 10000000000000;
    assert Pow10(14) == 100000000000000;
    assert Pow10(15) == 1000000000000000;
    assert Pow10(16) == 10000000000000000;
    assert Pow10(17) == 100000000000000000;
    assert Pow10(18) == 1000000000000000000;
    assert Pow10(19) == 10000000000000000000;
    assert Pow10(20) == 100000000000000000000;
  }

  /** A value below `10^k` has at most `k` digits. */
  lemma {:induction false} FormatUnsignedLength(v: nat, k: nat)
    requires 1 <= k && v < Pow10(k)
    ensures |FormatUnsigned(v)| <= k
    decreases v
  {
    if v >= 10 {
      assert k >= 2;
      FormatUnsignedLength(v / 10, k - 1);
    }
  }

  /** The decimal text of any 64-bit integer, signed or not, has at most 20 characters. */
  lemma FormatSigned64Length(v: int)
    requires -0x8000_0000_0000_0000 <= v < 0x1_0000_0000_0000_0000
    ensures |FormatSigned(v)| <= 20
  {
    Pow10Twenty();
    if v < 0 {
      FormatUnsignedLength(-v, 19);
    } else {
      FormatUnsignedLength(v, 20);
    }
  }
}
