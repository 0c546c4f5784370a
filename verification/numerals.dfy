/** Decimal numerals as the gateway reads and writes them: `atoi` on the
    value of a `Content-Length:` header, and the `%zu` conversion that
    `snprintf` uses to write one. */
module Numerals {
  import opened CStrings

  const IntMin: int := -0x8000_0000
  const IntMax: int := 0x7fff_ffff
  const LongMin: int := -0x8000_0000_0000_0000
  const LongMax: int := 0x7fff_ffff_ffff_ffff

  predicate IsDigit(c: Byte) {
    '0' <= c <= '9'
  }

  predicate AllDigits(s: seq<Byte>) {
    forall i :: 0 <= i < |s| ==> IsDigit(s[i])
  }

  /** `isspace` in the C locale: space, and tab through carriage return. */
  predicate IsCSpace(c: Byte) {
    c == ' ' || 9 <= c as int <= 13
  }

  function DigitValue(c: Byte): (d: nat)
    requires IsDigit(c)
    ensures d < 10
  {
    c as int - '0' as int
  }

  function DigitChar(d: nat): (c: Byte)
    requires d < 10
    ensures IsDigit(c) && DigitValue(c) == d
  {
    ('0' as int + d) as char
  }

  /** The number a run of decimal digits denotes, most significant first. */
  function DigitsValue(s: seq<Byte>): nat
    requires AllDigits(s)
  {
    if s == [] then 0
    else DigitsValue(s[..|s| - 1]) * 10 + DigitValue(s[|s| - 1])
  }

  /** The shortest decimal numeral of n, as `%zu` writes it. */
  function Decimal(n: nat): (s: seq<Byte>)
    ensures 1 <= |s| && AllDigits(s)
    ensures |s| > 1 ==> s[0] != '0'
  {
    if n < 10 then [DigitChar(n)]
    else Decimal(n / 10) + [DigitChar(n % 10)]
  }

  /** Reading back what `%zu` wrote gives the number that was written. */
  lemma {:induction false} DecimalRoundTrip(n: nat)
    ensures DigitsValue(Decimal(n)) == n
  {
    var s := Decimal(n);
    if n >= 10 {
      DecimalRoundTrip(n / 10);
      assert s[..|s| - 1] == Decimal(n / 10);
    }
  }

  /** The longest run of digits at the start of s. */
  function LeadingDigits(s: seq<Byte>): (ds: seq<Byte>)
    ensures |ds| <= |s| && ds == s[..|ds|] && AllDigits(ds)
    ensures |ds| < |s| ==> !IsDigit(s[|ds|])
  {
    if s == [] || !IsDigit(s[0]) then []
    else
      var rest := LeadingDigits(s[1..]);
      assert s[1..][..|rest|] == s[1..|rest| + 1];
      [s[0]] + rest
  }

  /** The number of leading `isspace` bytes. */
  function SpaceRun(s: seq<Byte>): (k: nat)
    ensures k <= |s|
    ensures forall i :: 0 <= i < k ==> IsCSpace(s[i])
    ensures k < |s| ==> !IsCSpace(s[k])
  {
    if s == [] || !IsCSpace(s[0]) then 0 else 1 + SpaceRun(s[1..])
  }

  /** `strtol(s, NULL, 10)` on glibc before its range check: leading
      `isspace`, an optional sign, then the longest run of digits; the
      exact mathematical value. */
  function StrtolValue(s: seq<Byte>): int {
    var t := s[SpaceRun(s)..];
    if t != [] && t[0] == '-' then 0 - DigitsValue(LeadingDigits(t[1..]))
    else if t != [] && t[0] == '+' then DigitsValue(LeadingDigits(t[1..]))
    else DigitsValue(LeadingDigits(t))
  }

  /** strtol saturates at the bounds of a 64-bit `long`. */
  function ClampLong(v: int): (r: int)
    ensures LongMin <= r <= LongMax
    ensures LongMin <= v <= LongMax ==> r == v
    ensures v > LongMax ==> r == LongMax
    ensures v < LongMin ==> r == LongMin
  {
    if v < LongMin then LongMin else if v > LongMax then LongMax else v
  }

  /** The conversion of a `long` to a 32-bit `int`: two's-complement
      truncation. */
  function ToInt32(v: int): (r: int)
    ensures IntMin <= r <= IntMax
    ensures (r - v) % 0x1_0000_0000 == 0
  {
    (v - IntMin) % 0x1_0000_0000 + IntMin
  }

  /** `atoi` as glibc defines it, `(int) strtol(s, NULL, 10)`. The C
      standard leaves a value outside the range of `int` undefined. */
  function Atoi(s: seq<Byte>): (r: int)
    ensures IntMin <= r <= IntMax
  {
    ToInt32(ClampLong(StrtolValue(s)))
  }

  /** Where the value fits in an `int`, every C library agrees with this
      model: `atoi` is the value of the numeral. */
  lemma AtoiExact(s: seq<Byte>)
    requires IntMin <= StrtolValue(s) <= IntMax
    ensures Atoi(s) == StrtolValue(s)
  {
  }

  /** A numeral written by `%zu` and followed by a non-digit reads back as
      the number written, whenever it fits in an `int`. */
  lemma {:induction false} AtoiReadsDecimal(n: nat, rest: seq<Byte>)
    requires n <= IntMax
    requires rest == [] || !IsDigit(rest[0])
    ensures Atoi(Decimal(n) + rest) == n
  {
    var s := Decimal(n) + rest;
    assert SpaceRun(s) == 0 by {
      assert IsDigit(s[0]);
    }
    assert s[SpaceRun(s)..] == s;
    LeadingDigitsOfNumeral(Decimal(n), rest);
    DecimalRoundTrip(n);
  }

  lemma {:induction false} LeadingDigitsOfNumeral(ds: seq<Byte>, rest: seq<Byte>)
    requires AllDigits(ds)
    requires rest == [] || !IsDigit(rest[0])
    ensures LeadingDigits(ds + rest) == ds
  {
    if ds != [] {
      assert (ds + rest)[1..] == ds[1..] + rest;
      LeadingDigitsOfNumeral(ds[1..], rest);
    } else {
      assert ds + rest == rest;
    }
  }

  /** `%zu` of a number below 10^k takes at most k digits. */
  lemma {:induction false} DecimalWidth(n: nat, k: nat)
    requires 1 <= k && n < Pow10(k)
    ensures |Decimal(n)| <= k
  {
    if n >= 10 {
      assert k >= 2;
      var p := Pow10(k - 1);
      assert n / 10 < p by {
        assert n < 10 * p;
      }
      DecimalWidth(n / 10, k - 1);
    }
  }

  function Pow10(k: nat): (p: nat)
    ensures p >= 1
  {
    if k == 0 then 1 else 10 * Pow10(k - 1)
  }
}
