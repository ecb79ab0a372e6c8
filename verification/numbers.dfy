/**
 * Swift's fixed-width integers and their conversions from and to decimal
 * text: `UInt64(String)`, `Int(String)` (64-bit), string interpolation
 * `"\(n)"` and the `%02d` format.
 */
module Numbers {
  import opened Wrappers

  const TWO_TO_THE_31: int := 0x8000_0000
  const TWO_TO_THE_32: int := 0x1_0000_0000
  const TWO_TO_THE_63: int := 0x8000_0000_0000_0000
  const TWO_TO_THE_64: int := 0x1_0000_0000_0000_0000

  type UInt64 = x: int | 0 <= x < TWO_TO_THE_64
  type Int64 = x: int | -TWO_TO_THE_63 <= x < TWO_TO_THE_63
  type Int32 = x: int | -TWO_TO_THE_31 <= x < TWO_TO_THE_31

  predicate IsDigit(c: char) {
    '0' <= c <= '9'
  }

  predicate AllDigits(s: string) {
    forall i :: 0 <= i < |s| ==> IsDigit(s[i])
  }

  function DigitValue(c: char): (d: nat)
    requires IsDigit(c)
    ensures d < 10
  {
    (c as int) - ('0' as int)
  }

  function DigitChar(d: nat): (c: char)
    requires d < 10
    ensures IsDigit(c) && DigitValue(c) == d
  {
    (('0' as int) + d) as char
  }

  /** The value of a string of decimal digits, most significant first. */
  function DecimalValue(s: string): nat
    requires AllDigits(s)
  {
    if s == [] then 0 else DecimalValue(s[..|s| - 1]) * 10 + DigitValue(s[|s| - 1])
  }

  /**
   * `UInt64(s)` on a non-empty run of digits: the value, or nothing when it
   * does not fit in 64 bits.
   */
  function ParseUInt64(s: string): (r: Option<UInt64>)
    requires s != [] && AllDigits(s)
    ensures r.Some? <==> DecimalValue(s) < TWO_TO_THE_64
    ensures r.Some? ==> r.value == DecimalValue(s)
  {
    var v := DecimalValue(s);
    if v < TWO_TO_THE_64 then Some(v) else None
  }

  /**
   * `Int(s)`: an optional `+` or `-` sign followed by at least one digit and
   * nothing else, whose value fits in a signed 64-bit integer; anything else
   * gives nothing.
   */
  function ParseInt(s: string): Option<Int64> {
    var negative := s != [] && s[0] == '-';
    var digits := if s != [] && (s[0] == '+' || s[0] == '-') then s[1..] else s;
    if digits == [] || !AllDigits(digits) then None
    else
      var v: int := if negative then 0 - (DecimalValue(digits) as int) else DecimalValue(digits);
      if -TWO_TO_THE_63 <= v < TWO_TO_THE_63 then Some(v) else None
  }

  /** `"\(n)"` for a non-negative integer: its decimal digits, without leading zeros. */
  function DecimalString(n: nat): (s: string)
    ensures s != [] && AllDigits(s)
    ensures (s[0] == '0') <==> n == 0
  {
    if n < 10 then [DigitChar(n)] else DecimalString(n / 10) + [DigitChar(n % 10)]
  }

  /** `String(format: "%02d", n)` for a non-negative `n`: at least two digits, zero padded. */
  function ZeroPad2(n: nat): (s: string)
    ensures AllDigits(s) && |s| >= 2
    ensures |s| == 2 || s[0] != '0'
  {
    var d := DecimalString(n);
    if n < 10 then "0" + d else d
  }

  /**
   * The low 32 bits of `n` read as a C `int`: what a `%d` conversion takes
   * from a 64-bit `Int` argument. It is the one 32-bit value congruent to
   * `n` modulo 2^32.
   */
  function LowInt32(n: int): (v: Int32)
    ensures (n - v) % TWO_TO_THE_32 == 0
  {
    var low := n % TWO_TO_THE_32;
    if low < TWO_TO_THE_31 then low else low - TWO_TO_THE_32
  }

  /** A value that already fits in 32 bits is read unchanged. */
  lemma LowInt32Small(n: int)
    requires -TWO_TO_THE_31 <= n < TWO_TO_THE_31
    ensures LowInt32(n) == n
  {
    var v := LowInt32(n);
    assert (n - v) % TWO_TO_THE_32 == 0;
    assert -TWO_TO_THE_32 < n - v < TWO_TO_THE_32;
  }

  /**
   * `String(format: "%02d", v)` for a 32-bit `v`: at least two characters,
   * zero padded when non-negative; a negative value is its minus sign and
   * its digits, already two characters or more.
   */
  function FormatD02(v: Int32): (s: string)
    ensures |s| >= 2
    ensures v >= 0 ==> AllDigits(s)
    ensures v < 0 ==> s[0] == '-' && AllDigits(s[1..])
    ensures v >= 0 ==> |s| == 2 || s[0] != '0'
    ensures v < 0 ==> s[1] != '0'
  {
    if v >= 0 then ZeroPad2(v) else "-" + DecimalString(-(v as int))
  }

  /** Printing a number and reading its digits back gives the number. */
  lemma {:induction false} DecimalRoundTrip(n: nat)
    ensures DecimalValue(DecimalString(n)) == n
  {
    var s := DecimalString(n);
    if n >= 10 {
      DecimalRoundTrip(n / 10);
      assert s[..|s| - 1] == DecimalString(n / 10);
    }
  }

  /** A leading zero does not change the value of a digit string. */
  lemma {:induction false} LeadingZero(s: string)
    requires AllDigits(s)
    ensures AllDigits("0" + s) && DecimalValue("0" + s) == DecimalValue(s)
  {
    if s != [] {
      assert ("0" + s)[..|"0" + s| - 1] == "0" + s[..|s| - 1];
      LeadingZero(s[..|s| - 1]);
    }
  }

  /** The `%02d` text of a number still reads back as that number. */
  lemma ZeroPad2RoundTrip(n: nat)
    ensures DecimalValue(ZeroPad2(n)) == n
  {
    DecimalRoundTrip(n);
    if n < 10 {
      LeadingZero(DecimalString(n));
    }
  }

  /** `Int` reads back what interpolation prints, for both signs. */
  lemma ParseIntRoundTrip(n: int)
    requires -TWO_TO_THE_63 <= n < TWO_TO_THE_63
    ensures n >= 0 ==> ParseInt(DecimalString(n)) == Some(n)
    ensures n < 0 ==> ParseInt("-" + DecimalString(-n)) == Some(n)
  {
    if n >= 0 {
      DecimalRoundTrip(n);
    } else {
      DecimalRoundTrip(-n);
      assert ("-" + DecimalString(-n))[1..] == DecimalString(-n);
    }
  }

  /** `Int` reads back what `%02d` prints, for both signs. */
  lemma FormatD02RoundTrip(v: Int32)
    ensures ParseInt(FormatD02(v)) == Some(v)
  {
    if v >= 0 {
      ZeroPad2RoundTrip(v);
      assert FormatD02(v)[0] != '-' && FormatD02(v)[0] != '+';
    } else {
      ParseIntRoundTrip(v);
    }
  }
}
