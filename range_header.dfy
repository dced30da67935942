/** The value of the Range header a worker sends, `bytes=<start>-<end>` with
    both bounds written by Python's `str` (decimal, a leading '-' for a
    negative end).  This is the byte-range-spec of section 2.1 of RFC 7233
    whenever end >= start; the empty span [start, start - 1] of a plan with
    fewer bytes than workers is written out as it is (`bytes=0--1`).
    The parser is the inverse of the builder. */
module RangeHeader {
  import opened Options

  const Unit := "bytes="

  predicate IsDigit(c: char)
  {
    '0' <= c <= '9'
  }

  predicate AllDigits(s: string)
  {
    forall k :: 0 <= k < |s| ==> IsDigit(s[k])
  }

  function DigitChar(d: nat): (c: char)
    requires d < 10
    ensures IsDigit(c)
  {
    (('0' as int) + d) as char
  }

  function DigitValue(c: char): nat
    requires IsDigit(c)
  {
    (c as int) - ('0' as int)
  }

  /** Python's str() of a non-negative integer: its decimal digits, no sign. */
  function NatToString(x: nat): (s: string)
    ensures |s| >= 1 && AllDigits(s)
    decreases x
  {
    if x < 10 then [DigitChar(x)] else NatToString(x / 10) + [DigitChar(x % 10)]
  }

  /** Python's str() of an integer. */
  function IntToString(x: int): string
  {
    if x < 0 then "-" + NatToString(-x) else NatToString(x)
  }

  /** The header value built for the span [start, end]. */
  function RangeSpec(start: nat, end: int): string
  {
    Unit + NatToString(start) + "-" + IntToString(end)
  }

  /** The value of a string of decimal digits. */
  function DigitsValue(s: string): nat
    requires AllDigits(s)
  {
    if s == [] then 0 else DigitsValue(s[..|s| - 1]) * 10 + DigitValue(s[|s| - 1])
  }

  function ParseNat(s: string): Option<nat>
  {
    if s != [] && AllDigits(s) then Some(DigitsValue(s)) else None
  }

  function ParseInt(s: string): Option<int>
  {
    if s != [] && s[0] == '-' then
      match ParseNat(s[1..])
      case Some(v) => Some(-(v as int))
      case None => None
    else
      match ParseNat(s)
      case Some(v) => Some(v)
      case None => None
  }

  /** The first position of c in s, if any. */
  function FirstIndexOf(s: string, c: char): (r: Option<nat>)
    ensures r.None? <==> c !in s
    ensures r.Some? ==> r.value < |s| && s[r.value] == c && c !in s[..r.value]
  {
    if s == [] then None
    else if s[0] == c then Some(0)
    else
      match FirstIndexOf(s[1..], c)
      case None => None
      case Some(k) =>
        assert s[1..][..k] == s[1..k + 1];
        assert s[..k + 1] == [s[0]] + s[1..k + 1];
        Some(k + 1)
  }

  /** Reads a Range header value back into the span it asks for. */
  function ParseRangeSpec(h: string): Option<(nat, int)>
  {
    if |h| < |Unit| || h[..|Unit|] != Unit then None
    else
      var spec := h[|Unit|..];
      match FirstIndexOf(spec, '-')
      case None => None
      case Some(k) =>
        match (ParseNat(spec[..k]), ParseInt(spec[k + 1..]))
        case (Some(a), Some(b)) => Some((a, b))
        case _ => None
  }

  /** Reading back the decimal digits of x gives x. */
  lemma {:induction false} DigitsRoundTrip(x: nat)
    ensures DigitsValue(NatToString(x)) == x
    decreases x
  {
    var s := NatToString(x);
    if x >= 10 {
      DigitsRoundTrip(x / 10);
      assert s[..|s| - 1] == NatToString(x / 10);
    }
  }

  lemma IntRoundTrip(x: int)
    ensures ParseInt(IntToString(x)) == Some(x)
  {
    DigitsRoundTrip(if x < 0 then -x else x);
    if x < 0 {
      assert IntToString(x)[1..] == NatToString(-x);
    } else {
      assert NatToString(x)[0] != '-';
    }
  }

  /** The first '-' of a string that starts with decimal digits and then '-'
      is the one right after the digits. */
  lemma FirstDashAfterDigits(digits: string, rest: string)
    requires AllDigits(digits)
    ensures FirstIndexOf(digits + "-" + rest, '-') == Some(|digits|)
  {
    var s := digits + "-" + rest;
    assert s[|digits|] == '-';
    assert s[..|digits|] == digits;
  }

  /** Parsing the header built for [start, end] yields start and end again. */
  lemma RangeSpecRoundTrip(start: nat, end: int)
    ensures ParseRangeSpec(RangeSpec(start, end)) == Some((start, end))
  {
    var h := RangeSpec(start, end);
    var digits := NatToString(start);
    var rest := IntToString(end);
    assert h == Unit + (digits + "-" + rest);
    assert h[..|Unit|] == Unit;
    var spec := h[|Unit|..];
    assert spec == digits + "-" + rest;
    FirstDashAfterDigits(digits, rest);
    assert spec[..|digits|] == digits;
    assert spec[|digits| + 1..] == rest;
    DigitsRoundTrip(start);
    IntRoundTrip(end);
  }

  /** A Range header value in the byte-range-spec form of section 2.1 of
      RFC 7233: `bytes=first-last` with last >= first. */
  predicate IsByteRangeSpec(h: string)
  {
    match ParseRangeSpec(h)
    case Some((first, last)) => last >= first
    case None => false
  }

  /** The header built for [start, end] is a valid byte-range-spec exactly
      when end >= start. */
  lemma ByteRangeSpecIff(start: nat, end: int)
    ensures IsByteRangeSpec(RangeSpec(start, end)) <==> end >= start
  {
    RangeSpecRoundTrip(start, end);
  }

  /** Different spans are requested with different headers. */
  lemma RangeSpecInjective(s1: nat, e1: int, s2: nat, e2: int)
    requires RangeSpec(s1, e1) == RangeSpec(s2, e2)
    ensures s1 == s2 && e1 == e2
  {
    RangeSpecRoundTrip(s1, e1);
    RangeSpecRoundTrip(s2, e2);
  }
}
