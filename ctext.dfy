// The parts of the C library that protein.c leans on, stated over `string`:
// NUL-terminated buffers, `strtol` in base 10, the long-to-int conversion at a
// call, and the decimal numerals `printf("%10d")` writes.

module CText {

  const LONG_MAX: int := 0x7FFF_FFFF_FFFF_FFFF
  const LONG_MIN: int := -0x8000_0000_0000_0000
  const INT_MAX: int := 0x7FFF_FFFF
  const INT_MIN: int := -0x8000_0000
  const TWO_TO_THE_32: int := 0x1_0000_0000

  predicate IsDigit(c: char) { '0' <= c <= '9' }

  /** The characters `isspace` accepts in the C locale. */
  predicate IsSpace(c: char) {
    c == ' ' || c == '\t' || c == '\n' || c == '\U{000B}' || c == '\U{000C}' || c == '\r'
  }

  predicate AllDigits(s: string) { forall i :: 0 <= i < |s| ==> IsDigit(s[i]) }

  function DigitValue(c: char): nat
    requires IsDigit(c)
  {
    (c as int) - ('0' as int)
  }

  function DigitChar(d: nat): (c: char)
    requires d < 10
    ensures IsDigit(c) && DigitValue(c) == d
  {
    (('0' as int) + d) as char
  }

  function Pow10(k: nat): nat
  {
    if k == 0 then 1 else 10 * Pow10(k - 1)
  }

  // ---------------------------------------------------------------------------
  // Decimal numerals

  /** The numeral `printf("%d")` writes for a non-negative value. */
  function Decimal(n: nat): (r: string)
    ensures |r| >= 1 && AllDigits(r)
    ensures n > 0 ==> r[0] != '0'
    decreases n
  {
    if n < 10 then [DigitChar(n)] else Decimal(n / 10) + [DigitChar(n % 10)]
  }

  /** The value of a string of decimal digits. */
  function DigitsValue(s: string): nat
    requires AllDigits(s)
    decreases |s|
  {
    if s == [] then 0 else 10 * DigitsValue(s[..|s| - 1]) + DigitValue(s[|s| - 1])
  }

  /** Reading back a numeral gives the number printed. */
  lemma {:induction false} DecimalRoundTrip(n: nat)
    ensures DigitsValue(Decimal(n)) == n
    decreases n
  {
    if n >= 10 {
      DecimalRoundTrip(n / 10);
      var d := Decimal(n / 10) + [DigitChar(n % 10)];
      assert d[..|d| - 1] == Decimal(n / 10);
    }
  }

  lemma {:induction false} NoLeadingZeroPositive(s: string)
    requires AllDigits(s) && s != [] && s[0] != '0'
    ensures DigitsValue(s) >= 1
    decreases |s|
  {
    if |s| > 1 {
      NoLeadingZeroPositive(s[..|s| - 1]);
    }
  }

  /** A numeral without a leading zero is the one `Decimal` prints for its value. */
  lemma {:induction false} DigitsRoundTrip(s: string)
    requires AllDigits(s) && s != [] && (|s| > 1 ==> s[0] != '0')
    ensures Decimal(DigitsValue(s)) == s
    decreases |s|
  {
    var init := s[..|s| - 1];
    var last := s[|s| - 1];
    if |s| == 1 {
      assert DigitChar(DigitValue(last)) == last;
    } else {
      DigitsRoundTrip(init);
      NoLeadingZeroPositive(init);
      var n := DigitsValue(s);
      assert n / 10 == DigitsValue(init) && n % 10 == DigitValue(last);
      assert DigitChar(DigitValue(last)) == last;
      assert s == init + [last];
    }
  }

  /** A value below 10^k takes at most k digits, so `%10d` pads it to exactly ten. */
  lemma {:induction false} DecimalLength(n: nat, k: nat)
    requires k >= 1 && n < Pow10(k)
    ensures |Decimal(n)| <= k
    decreases n
  {
    if n >= 10 {
      DecimalLength(n / 10, k - 1);
    }
  }

  // ---------------------------------------------------------------------------
  // NUL-terminated buffers

  /** Index of the terminator of the C string held in `b`. */
  function NulIndex(b: seq<char>): (n: nat)
    requires '\0' in b
    ensures n < |b| && b[n] == '\0'
    ensures forall i :: 0 <= i < n ==> b[i] != '\0'
    decreases |b|
  {
    if b[0] == '\0' then 0
    else
      assert '\0' in b[1..] by {
        var j :| 0 <= j < |b| && b[j] == '\0';
        assert b[1..][j - 1] == '\0';
      }
      1 + NulIndex(b[1..])
  }

  /** The string a `char *` pointing at `b[0]` denotes. */
  function CString(b: seq<char>): (r: string)
    requires '\0' in b
    ensures '\0' !in r
    ensures |r| < |b| && b[..|r|] == r && b[|r|] == '\0'
  {
    b[..NulIndex(b)]
  }

  /** Reading the buffer at or before the terminator reads the C string, then its terminator. */
  lemma CStringAt(b: seq<char>, i: nat)
    requires '\0' in b && i <= |CString(b)|
    ensures i < |b| && b[i] == if i < |CString(b)| then CString(b)[i] else '\0'
  {
  }

  /** A string copied into a buffer with its terminator reads back unchanged. */
  lemma CStringOfCopy(s: string, tail: seq<char>)
    requires '\0' !in s
    ensures '\0' in s + ['\0'] + tail && CString(s + ['\0'] + tail) == s
  {
    var b := s + ['\0'] + tail;
    assert b[|s|] == '\0';
    assert b[..|s|] == s;
  }

  // ---------------------------------------------------------------------------
  // strtol(s, &end, 10)

  /** Result of `strtol`: the value and the offset `end` points at. */
  datatype Conversion = Conversion(value: int, end: nat)

  /** Length of the run of white space at the start of `s`. */
  function SpaceRun(s: string): (n: nat)
    ensures n <= |s|
    decreases |s|
  {
    if s == [] || !IsSpace(s[0]) then 0 else 1 + SpaceRun(s[1..])
  }

  /** SpaceRun is the longest all-space prefix: spaces up to it, then a non-space or the end. */
  lemma {:induction false} SpaceRunIsLongest(s: string)
    ensures forall i :: 0 <= i < SpaceRun(s) ==> IsSpace(s[i])
    ensures SpaceRun(s) < |s| ==> !IsSpace(s[SpaceRun(s)])
    decreases |s|
  {
    if s != [] && IsSpace(s[0]) {
      SpaceRunIsLongest(s[1..]);
    }
  }

  /** Length of the run of digits at the start of `s`. */
  function DigitRun(s: string): (n: nat)
    ensures n <= |s|
    decreases |s|
  {
    if s == [] || !IsDigit(s[0]) then 0 else 1 + DigitRun(s[1..])
  }

  /** DigitRun is the longest all-digit prefix: digits up to it, then a non-digit or the end. */
  lemma {:induction false} DigitRunIsLongest(s: string)
    ensures AllDigits(s[..DigitRun(s)])
    ensures DigitRun(s) < |s| ==> !IsDigit(s[DigitRun(s)])
    decreases |s|
  {
    if s != [] && IsDigit(s[0]) {
      DigitRunIsLongest(s[1..]);
      var n := DigitRun(s);
      assert s[..n] == [s[0]] + s[1..][..n - 1];
    }
  }

  function ClampLong(v: int): int
  {
    if v > LONG_MAX then LONG_MAX else if v < LONG_MIN then LONG_MIN else v
  }

  /**
   * `strtol(s, &end, 10)` with a 64-bit `long`: leading white space, an
   * optional sign, then the longest run of digits; a value out of range is
   * clamped; without digits the result is 0 and `end` is `s` itself.
   */
  function StrToLong(s: string): (r: Conversion)
    ensures r.end <= |s|
    ensures LONG_MIN <= r.value <= LONG_MAX
  {
    var w := SpaceRun(s);
    var signed := w < |s| && (s[w] == '+' || s[w] == '-');
    var start := if signed then w + 1 else w;
    var n := DigitRun(s[start..]);
    DigitRunIsLongest(s[start..]);
    if n == 0 then Conversion(0, 0)
    else
      var digits := s[start..][..n];
      var magnitude: int := DigitsValue(digits);
      Conversion(ClampLong(if signed && s[w] == '-' then -magnitude else magnitude), start + n)
  }

  /** A run of digits ended by a non-digit is read up to that non-digit. */
  lemma {:induction false} DigitRunOf(ds: string, tail: string)
    requires AllDigits(ds)
    requires tail == [] || !IsDigit(tail[0])
    ensures DigitRun(ds + tail) == |ds|
    decreases |ds|
  {
    if ds != [] {
      assert (ds + tail)[1..] == ds[1..] + tail;
      DigitRunOf(ds[1..], tail);
    } else {
      assert ds + tail == tail;
    }
  }

  /** `strtol` on digits followed by a non-digit returns their value and stops at the non-digit. */
  lemma StrToLongOfDigits(ds: string, tail: string)
    requires AllDigits(ds) && ds != []
    requires tail == [] || !IsDigit(tail[0])
    ensures StrToLong(ds + tail) == Conversion(if DigitsValue(ds) > LONG_MAX then LONG_MAX else DigitsValue(ds), |ds|)
  {
    var s := ds + tail;
    assert IsDigit(s[0]);
    assert SpaceRun(s) == 0;
    DigitRunOf(ds, tail);
    assert s[0..] == s;
    assert s[..|ds|] == ds;
  }

  // ---------------------------------------------------------------------------
  // Passing a `long` where an `int` is expected

  /**
   * The conversion of a `long` to a 32-bit `int` parameter: the value is
   * brought into [INT_MIN, INT_MAX] by steps of 2^32 (ToCIntCongruent shows
   * this is reduction modulo 2^32).
   */
  function ToCInt(v: int): (r: int)
    ensures INT_MIN <= r <= INT_MAX
    ensures INT_MIN <= v <= INT_MAX ==> r == v
    decreases if v > INT_MAX then v else if v < INT_MIN then -v else 0
  {
    if v > INT_MAX then ToCInt(v - TWO_TO_THE_32)
    else if v < INT_MIN then ToCInt(v + TWO_TO_THE_32)
    else v
  }

  /** ToCInt keeps the value's residue modulo 2^32. */
  lemma {:induction false} ToCIntCongruent(v: int)
    ensures ToCInt(v) % TWO_TO_THE_32 == v % TWO_TO_THE_32
    decreases if v > INT_MAX then v else if v < INT_MIN then -v else 0
  {
    var q, r := v / TWO_TO_THE_32, v % TWO_TO_THE_32;
    if v > INT_MAX {
      ToCIntCongruent(v - TWO_TO_THE_32);
      assert v - TWO_TO_THE_32 == TWO_TO_THE_32 * (q - 1) + r;
      Residue(q - 1, r);
    } else if v < INT_MIN {
      ToCIntCongruent(v + TWO_TO_THE_32);
      assert v + TWO_TO_THE_32 == TWO_TO_THE_32 * (q + 1) + r;
      Residue(q + 1, r);
    }
  }

  /** A number given by its quotient and remainder modulo 2^32. */
  lemma Residue(q: int, r: int)
    requires 0 <= r < TWO_TO_THE_32
    ensures (TWO_TO_THE_32 * q + r) % TWO_TO_THE_32 == r
  {
  }
}
