/** Row numbers: plain base-10 numerals over the ASCII digits. */
module Decimal {

  predicate IsDigit(ch: char) {
    '0' <= ch <= '9'
  }

  predicate AllDigits(s: string) {
    forall i :: 0 <= i < |s| ==> IsDigit(s[i])
  }

  function DigitValue(ch: char): (v: nat)
    requires IsDigit(ch)
    ensures v <= 9
  {
    ch as int - '0' as int
  }

  function Digit(v: nat): (ch: char)
    requires v <= 9
    ensures IsDigit(ch) && DigitValue(ch) == v
  {
    ('0' as int + v) as char
  }

  /** The value of a digit string, read most significant digit first;
      leading zeros are allowed, as integer conversion allows them. */
  function Parse(s: string): nat
    requires AllDigits(s)
  {
    if |s| == 0 then 0 else Parse(s[..|s| - 1]) * 10 + DigitValue(s[|s| - 1])
  }

  /** The shortest digit string of `n` (no leading zeros). */
  function Show(n: nat): (s: string)
    ensures |s| >= 1
    ensures AllDigits(s)
    decreases n
  {
    if n < 10 then [Digit(n)] else Show(n / 10) + [Digit(n % 10)]
  }

  /** Printing a number and reading it back gives the number. */
  lemma {:induction false} ParseShow(n: nat)
    ensures Parse(Show(n)) == n
    decreases n
  {
    var s := Show(n);
    if n >= 10 {
      ParseShow(n / 10);
      assert s[..|s| - 1] == Show(n / 10);
    }
  }

  /** A numeral is zero exactly when all its digits are zero. */
  lemma {:induction false} ParseZero(s: string)
    requires AllDigits(s)
    ensures Parse(s) == 0 <==> forall i :: 0 <= i < |s| ==> s[i] == '0'
  {
    if |s| > 0 {
      var p := s[..|s| - 1];
      ParseZero(p);
      assert forall i :: 0 <= i < |p| ==> p[i] == s[i];
    }
  }
}
