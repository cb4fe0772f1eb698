/**
 * Signed 64-bit integers and the text-to-integer conversion the parser uses
 * for integer literals (Rust's `str::parse::<i64>`), together with the
 * decimal rendering that it inverts.
 */
module IntegerText {
  import opened Wrappers

  const I64_MIN: int := -0x8000_0000_0000_0000
  const I64_MAX: int := 0x7FFF_FFFF_FFFF_FFFF

  newtype i64 = x: int | -0x8000_0000_0000_0000 <= x <= 0x7FFF_FFFF_FFFF_FFFF

  predicate IsDigit(c: char) {
    '0' <= c <= '9'
  }

  predicate AllDigits(s: string) {
    forall i :: 0 <= i < |s| ==> IsDigit(s[i])
  }

  function DigitValue(c: char): (d: nat)
    requires IsDigit(c)
    ensures d < 10
  {
    c as int - '0' as int
  }

  /** The number a string of decimal digits denotes (leading zeros allowed). */
  function DecimalValue(s: string): nat
    requires AllDigits(s)
    decreases |s|
  {
    if |s| == 0 then 0
    else DecimalValue(s[..|s| - 1]) * 10 + DigitValue(s[|s| - 1])
  }

  /**
   * `s.parse::<i64>()`: an optional leading `+` or `-`, then at least one
   * decimal digit and nothing else; the value must fit in 64 bits.
   * For the digit-only text the lexer produces, it fails exactly when the
   * value exceeds I64_MAX.
   */
  function ParseI64(s: string): (r: Option<i64>)
    ensures AllDigits(s) && |s| > 0 ==>
      (r.Some? <==> DecimalValue(s) <= I64_MAX) &&
      (r.Some? ==> r.value as int == DecimalValue(s))
    ensures r.Some? ==> |s| > 0
  {
    if |s| == 0 then None
    else if (s[0] == '+' || s[0] == '-') && |s| == 1 then None
    else
      var negative := s[0] == '-';
      var digits := if s[0] == '+' || s[0] == '-' then s[1..] else s;
      if !AllDigits(digits) then None
      else
        var n: int := DecimalValue(digits);
        var v := if negative then -n else n;
        if I64_MIN <= v <= I64_MAX then Some(v as i64) else None
  }

  function DigitChar(d: nat): (c: char)
    requires d < 10
    ensures IsDigit(c) && DigitValue(c) == d
  {
    ('0' as int + d) as char
  }

  /** The shortest decimal text of n. */
  function DecimalText(n: nat): (s: string)
    ensures AllDigits(s) && |s| > 0
    decreases n
  {
    if n < 10 then [DigitChar(n)] else DecimalText(n / 10) + [DigitChar(n % 10)]
  }

  /** The text of a 64-bit value, with a leading `-` when it is negative. */
  function I64Text(v: i64): string {
    if v < 0 then "-" + DecimalText(-(v as int)) else DecimalText(v as int)
  }

  lemma {:induction false} DecimalRoundTrip(n: nat)
    ensures DecimalValue(DecimalText(n)) == n
    decreases n
  {
    if n >= 10 {
      var s := DecimalText(n);
      assert s[..|s| - 1] == DecimalText(n / 10);
      DecimalRoundTrip(n / 10);
    }
  }

  /** Parsing the text of any 64-bit value gives that value back. */
  lemma I64RoundTrip(v: i64)
    ensures ParseI64(I64Text(v)) == Some(v)
  {
    if v < 0 {
      var d := DecimalText(-(v as int));
      DecimalRoundTrip(-(v as int));
      assert I64Text(v)[1..] == d;
    } else {
      DecimalRoundTrip(v as int);
    }
  }
}
