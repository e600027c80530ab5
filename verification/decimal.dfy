/**
 * The text handling of the same-month birthday query: Python's `str()` of a
 * non-negative integer, the left zero-padding to two characters, and the
 * numeric reading the database applies when it compares `date_part(...)`,
 * a number, with those strings.
 */
module Decimal {

  predicate IsDigit(ch: char) {
    '0' <= ch <= '9'
  }

  function DigitChar(d: nat): (ch: char)
    requires d < 10
    ensures IsDigit(ch)
  {
    "0123456789"[d]
  }

  function DigitValue(ch: char): int {
    ch as int - '0' as int
  }

  /** `str(n)` for a non-negative integer: its base-ten digits, no leading zero. */
  function DecimalString(n: nat): (s: string)
    ensures 1 <= |s|
    ensures forall i :: 0 <= i < |s| ==> IsDigit(s[i])
    ensures |s| == 1 <==> n < 10
  {
    if n < 10 then [DigitChar(n)] else DecimalString(n / 10) + [DigitChar(n % 10)]
  }

  /** The number a string of digits denotes, leading zeros allowed. */
  function DecimalValue(s: string): int {
    if s == [] then 0 else DecimalValue(s[..|s| - 1]) * 10 + DigitValue(s[|s| - 1])
  }

  /**
   * Left-pads a text shorter than two characters with one zero and leaves a
   * longer one alone: a non-empty text ends up at least two long, and the
   * number it denotes is kept.
   */
  function ZeroPad2(s: string): (r: string)
    ensures |s| < 2 ==> |r| == |s| + 1 && r[0] == '0' && r[1..] == s
    ensures 2 <= |s| ==> r == s
    ensures 1 <= |s| ==> 2 <= |r|
    ensures DecimalValue(r) == DecimalValue(s)
  {
    if |s| < 2 then LeadingZero(s); "0" + s else s
  }

  /** Reading back the digits `str()` writes gives the number again. */
  lemma {:induction false} DecimalRoundTrip(n: nat)
    ensures DecimalValue(DecimalString(n)) == n
  {
    if n >= 10 {
      DecimalRoundTrip(n / 10);
      var s := DecimalString(n);
      assert s[..|s| - 1] == DecimalString(n / 10);
    }
  }

  /** A leading zero does not change the number a digit string denotes. */
  lemma {:induction false} LeadingZero(s: string)
    ensures DecimalValue("0" + s) == DecimalValue(s)
    decreases |s|
  {
    if s != [] {
      var t := "0" + s;
      assert t[..|t| - 1] == "0" + s[..|s| - 1];
      LeadingZero(s[..|s| - 1]);
    }
  }

  /**
   * For every number below 100 the padded text is exactly two characters
   * and still denotes that number.
   */
  lemma ZeroPad2Value(n: nat)
    requires n < 100
    ensures |ZeroPad2(DecimalString(n))| == 2
    ensures DecimalValue(ZeroPad2(DecimalString(n))) == n
  {
    var s := DecimalString(n);
    DecimalRoundTrip(n);
    if n < 10 {
      LeadingZero(s);
    } else {
      assert |DecimalString(n / 10)| == 1;
    }
  }
}
