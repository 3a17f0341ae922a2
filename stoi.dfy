/** `std::stoi(str)` with its default base 10, which calls `strtol` (section
    7.22.1.4 of ISO C11): skip leading white space, accept one optional sign,
    take the longest run of decimal digits and ignore what follows. It fails
    (throws) when there is no digit, or when the value does not fit a 32-bit
    `int`; here a failure is None. */
module StoI {
  import opened IniText

  const IntMin: int := -0x8000_0000
  const IntMax: int := 0x7FFF_FFFF

  /** `isspace` in the "C" locale. */
  predicate IsSpace(c: char)
  {
    c == ' ' || c == '\t' || c == '\n' || c == '\U{B}' || c == '\U{C}' || c == '\r'
  }

  predicate IsDigit(c: char)
  {
    '0' <= c <= '9'
  }

  predicate AllDigits(s: string)
  {
    forall i :: 0 <= i < |s| ==> IsDigit(s[i])
  }

  /** How many white-space characters `s` starts with. */
  function SpaceRun(s: string): (n: nat)
    ensures n <= |s|
    ensures forall i :: 0 <= i < n ==> IsSpace(s[i])
    ensures n < |s| ==> !IsSpace(s[n])
  {
    if s != [] && IsSpace(s[0]) then 1 + SpaceRun(s[1..]) else 0
  }

  /** How many decimal digits `s` starts with. */
  function DigitRun(s: string): (n: nat)
    ensures n <= |s|
    ensures AllDigits(s[..n])
    ensures n < |s| ==> !IsDigit(s[n])
  {
    if s != [] && IsDigit(s[0]) then
      var n := 1 + DigitRun(s[1..]);
      assert s[..n] == [s[0]] + s[1..][..n - 1];
      n
    else 0
  }

  function DigitValue(c: char): (d: nat)
    requires IsDigit(c)
    ensures d < 10
  {
    c as int - '0' as int
  }

  function DigitChar(d: nat): (c: char)
    requires d < 10
    ensures IsDigit(c) && DigitValue(c) == d
  {
    ('0' as int + d) as char
  }

  /** The number a run of decimal digits denotes, most significant first. */
  function DecimalValue(ds: string): nat
    requires AllDigits(ds)
  {
    if ds == [] then 0 else DecimalValue(ds[..|ds| - 1]) * 10 + DigitValue(ds[|ds| - 1])
  }

  /** The shortest decimal digits of `n`, as `std::to_string` writes them. */
  function DecimalText(n: nat): (ds: string)
    ensures ds != [] && AllDigits(ds)
    ensures DecimalValue(ds) == n
  {
    if n < 10 then [DigitChar(n)]
    else
      var ds := DecimalText(n / 10) + [DigitChar(n % 10)];
      assert ds[..|ds| - 1] == DecimalText(n / 10);
      ds
  }

  /** `std::to_string(n)` for an integer: a '-' for a negative value, then
      the digits of the magnitude. */
  function IntText(n: int): string
  {
    if n < 0 then "-" + DecimalText(-n) else DecimalText(n)
  }

  /** `std::stoi(s)`: Some(value), or None where it throws
      `std::invalid_argument` (no digits) or `std::out_of_range`. */
  function ParseInt(s: string): (r: Option<int>)
    ensures r.Some? ==> IntMin <= r.value <= IntMax
  {
    ParseSigned(s[SpaceRun(s)..])
  }

  /** What strtol reads once the white space is skipped: an optional sign
      and the longest run of digits after it. */
  function ParseSigned(t: string): (r: Option<int>)
    ensures r.Some? ==> IntMin <= r.value <= IntMax
  {
    if t != [] && t[0] == '-' then WithSign(true, ParseMagnitude(t[1..]))
    else if t != [] && t[0] == '+' then WithSign(false, ParseMagnitude(t[1..]))
    else WithSign(false, ParseMagnitude(t))
  }

  /** The magnitude read, negated after a '-', when it fits an `int`. */
  function WithSign(negative: bool, magnitude: Option<nat>): (r: Option<int>)
    ensures r.Some? ==> IntMin <= r.value <= IntMax
    ensures magnitude.None? ==> r.None?
  {
    match magnitude
    case None => None
    case Some(m) => InRange(if negative then -(m as int) else m)
  }

  /** The value of the longest run of digits `digits` starts with, or None
      when it does not start with a digit. */
  function ParseMagnitude(digits: string): (r: Option<nat>)
    ensures r.None? <==> digits == [] || !IsDigit(digits[0])
  {
    var n := DigitRun(digits);
    if n == 0 then None
    else
      assert IsDigit(digits[..n][0]);
      Some(DecimalValue(digits[..n]))
  }

  /** The value `n` when it fits an `int`; stoi's out_of_range otherwise. */
  function InRange(n: int): (r: Option<int>)
    ensures r.Some? ==> IntMin <= r.value <= IntMax
  {
    if IntMin <= n <= IntMax then Some(n) else None
  }

  lemma {:induction false} DigitRunOfDigits(ds: string, rest: string)
    requires AllDigits(ds)
    requires rest == [] || !IsDigit(rest[0])
    ensures DigitRun(ds + rest) == |ds|
  {
    if ds != [] {
      assert (ds + rest)[1..] == ds[1..] + rest;
      DigitRunOfDigits(ds[1..], rest);
    } else {
      assert ds + rest == rest;
    }
  }

  lemma {:induction false} SpaceRunOfSpaces(space: string, s: string)
    requires forall i :: 0 <= i < |space| ==> IsSpace(space[i])
    requires s == [] || !IsSpace(s[0])
    ensures SpaceRun(space + s) == |space|
  {
    if space != [] {
      assert (space + s)[1..] == space[1..] + s;
      SpaceRunOfSpaces(space[1..], s);
    } else {
      assert space + s == s;
    }
  }

  /** Leading white space never changes what stoi reads. */
  lemma ParseIntSkipsSpace(space: string, s: string)
    requires forall i :: 0 <= i < |space| ==> IsSpace(space[i])
    requires s == [] || !IsSpace(s[0])
    ensures ParseInt(space + s) == ParseInt(s)
  {
    SpaceRunOfSpaces(space, s);
    assert (space + s)[|space|..] == s;
    assert s[0..] == s;
  }

  /** A run of digits followed by a non-digit reads as its value. */
  lemma MagnitudeOfDigits(ds: string, rest: string)
    requires ds != [] && AllDigits(ds) && (rest == [] || !IsDigit(rest[0]))
    ensures ParseMagnitude(ds + rest) == Some(DecimalValue(ds))
  {
    DigitRunOfDigits(ds, rest);
    assert (ds + rest)[..|ds|] == ds;
  }

  /** After a '-', stoi reads the magnitude that follows and negates it. */
  lemma ParseMinus(digits: string)
    ensures ParseSigned("-" + digits) == WithSign(true, ParseMagnitude(digits))
  {
    var t := "-" + digits;
    assert t[0] == '-' && t[1..] == digits;
  }

  /** Text that does not start with white space is read as it is. */
  lemma ParseIntNoSpace(s: string)
    requires s != [] && !IsSpace(s[0])
    ensures ParseInt(s) == ParseSigned(s)
  {
    assert s[0..] == s;
  }

  /** The digits of `m`, then a non-digit. */
  lemma {:induction false} ParseNaturalText(m: nat, rest: string)
    requires rest == [] || !IsDigit(rest[0])
    ensures ParseInt(DecimalText(m) + rest) == InRange(m)
  {
    var ds := DecimalText(m);
    assert (ds + rest)[0] == ds[0];
    ParseIntNoSpace(ds + rest);
    MagnitudeOfDigits(ds, rest);
  }

  /** '-', the digits of `m`, then a non-digit. */
  lemma {:induction false} ParseNegativeText(m: nat, rest: string)
    requires rest == [] || !IsDigit(rest[0])
    ensures ParseInt("-" + DecimalText(m) + rest) == InRange(-(m as int))
  {
    var ds := DecimalText(m);
    var digits := ds + rest;
    var s := "-" + digits;
    assert "-" + ds + rest == s;
    assert s[0] == '-';
    ParseIntNoSpace(s);
    ParseMinus(digits);
    MagnitudeOfDigits(ds, rest);
  }

  /** stoi reads back what `std::to_string` writes, whatever non-digit text
      follows it, and fails exactly when the value does not fit an `int`. */
  lemma {:induction false} ParseIntText(n: int, rest: string)
    requires rest == [] || !IsDigit(rest[0])
    ensures ParseInt(IntText(n) + rest) == if IntMin <= n <= IntMax then Some(n) else None
  {
    if n < 0 {
      ParseNegativeText(-n, rest);
    } else {
      ParseNaturalText(n, rest);
    }
  }

  /** After a '+', stoi reads the magnitude that follows as it is. */
  lemma ParsePlus(digits: string)
    ensures ParseSigned("+" + digits) == WithSign(false, ParseMagnitude(digits))
  {
    var t := "+" + digits;
    assert t[0] == '+' && t[1..] == digits;
  }

  /** An optional sign, then text starting with a digit: the sign is taken
      and the digits that follow are read. */
  lemma ParseSignedDigits(sign: string, digits: string)
    requires sign == "" || sign == "+" || sign == "-"
    requires digits != [] && IsDigit(digits[0])
    ensures ParseSigned(sign + digits) == WithSign(sign == "-", ParseMagnitude(digits))
  {
    if sign == "-" {
      ParseMinus(digits);
    } else if sign == "+" {
      ParsePlus(digits);
    } else {
      assert sign + digits == digits;
    }
  }

  /** White space, an optional sign, a run of digits, then a non-digit:
      stoi reads the digits' value, negated after '-', and fails exactly
      when that does not fit an `int`. */
  lemma {:induction false} ParseIntSignedDigits(space: string, sign: string, ds: string, rest: string)
    requires forall i :: 0 <= i < |space| ==> IsSpace(space[i])
    requires sign == "" || sign == "+" || sign == "-"
    requires ds != [] && AllDigits(ds)
    requires rest == [] || !IsDigit(rest[0])
    ensures ParseInt(space + sign + ds + rest) ==
      InRange(if sign == "-" then -(DecimalValue(ds) as int) else DecimalValue(ds))
  {
    var t := sign + (ds + rest);
    var negative, m := sign == "-", DecimalValue(ds);
    assert t[0] == if sign == "" then ds[0] else sign[0];
    assert (ds + rest)[0] == ds[0];
    calc {
      ParseInt(space + sign + ds + rest);
      { Regroup(space, sign, ds, rest); }
      ParseInt(space + t);
      { ParseIntSkipsSpace(space, t); }
      ParseInt(t);
      { ParseIntNoSpace(t); }
      ParseSigned(t);
      { ParseSignedDigits(sign, ds + rest); }
      WithSign(negative, ParseMagnitude(ds + rest));
      { MagnitudeOfDigits(ds, rest); }
      WithSign(negative, Some(m));
      InRange(if negative then -(m as int) else m);
    }
  }

  /** When no digit follows the white space and the optional sign, stoi
      throws `std::invalid_argument`, whatever comes later. */
  lemma ParseIntNoLeadingDigit(s: string)
    requires var t := s[SpaceRun(s)..];
      var digits := if t != [] && (t[0] == '-' || t[0] == '+') then t[1..] else t;
      digits == [] || !IsDigit(digits[0])
    ensures ParseInt(s) == None
  {
  }

  /** Text without any digit is an `std::invalid_argument`. */
  lemma ParseIntNoDigits(s: string)
    requires forall i :: 0 <= i < |s| ==> !IsDigit(s[i])
    ensures ParseInt(s) == None
  {
    var t := s[SpaceRun(s)..];
    assert forall i :: 0 <= i < |t| ==> t[i] == s[SpaceRun(s) + i];
    if |t| > 1 {
      assert !IsDigit(t[1..][0]);
    }
    ParseIntNoLeadingDigit(s);
  }
}
