/**
 * Fixed-width and free-width decimal numerals over ASCII digits: the reading
 * side of `strptime`'s numeric fields and the writing side of `%d`, `%02d`,
 * `%04d` and `%06d`.
 */
module Decimal {

  predicate IsDigit(c: char) {
    '0' <= c <= '9'
  }

  predicate AllDigits(s: string) {
    forall i :: 0 <= i < |s| ==> IsDigit(s[i])
  }

  function DigitValue(c: char): (d: nat)
    requires IsDigit(c)
    ensures d < 10
  {
    (c as int - '0' as int) as nat
  }

  function DigitChar(d: nat): (c: char)
    requires d < 10
    ensures IsDigit(c) && DigitValue(c) == d
  {
    ('0' as int + d) as char
  }

  function Pow10(n: nat): (p: nat)
    ensures p >= 1
  {
    if n == 0 then 1 else 10 * Pow10(n - 1)
  }

  /** The number a string of digits denotes, most significant digit first. */
  function Value(s: string): (v: nat)
    requires AllDigits(s)
    ensures v < Pow10(|s|)
  {
    if |s| == 0 then 0
    else
      var front := s[..|s| - 1];
      assert AllDigits(front);
      10 * Value(front) + DigitValue(s[|s| - 1])
  }

  /** `n` written with exactly `w` digits, zero-padded on the left (`%0wd`). */
  function Pad(n: nat, w: nat): (s: string)
    requires n < Pow10(w)
    ensures |s| == w && AllDigits(s)
    ensures Value(s) == n
  {
    if w == 0 then ""
    else
      var front := Pad(n / 10, w - 1);
      var s := front + [DigitChar(n % 10)];
      assert s[..|s| - 1] == front;
      s
  }

  /** Reading a digit string and writing it back at the same width gives the string again. */
  lemma {:induction false} PadValue(s: string)
    requires AllDigits(s)
    ensures Pad(Value(s), |s|) == s
  {
    if |s| > 0 {
      var front := s[..|s| - 1];
      assert AllDigits(front);
      PadValue(front);
      var c := s[|s| - 1];
      var v := Value(s);
      assert v / 10 == Value(front) && v % 10 == DigitValue(c);
      assert DigitChar(DigitValue(c)) == c;
      assert front + [c] == s;
    }
  }

  /** `n` written in decimal without leading zeros (`%d` of a non-negative integer). */
  function NatToString(n: nat): (s: string)
    ensures 1 <= |s| && AllDigits(s)
    ensures Value(s) == n
    ensures |s| > 1 ==> s[0] != '0'
    decreases n
  {
    if n < 10 then [DigitChar(n)]
    else
      var front := NatToString(n / 10);
      var s := front + [DigitChar(n % 10)];
      assert s[..|s| - 1] == front;
      s
  }

  /** `i` written in decimal with a leading minus sign when negative (`%d`). */
  function IntToString(i: int): (s: string)
    ensures 1 <= |s|
    ensures i >= 0 ==> AllDigits(s) && Value(s) == i
    ensures i < 0 ==> s[0] == '-' && AllDigits(s[1..]) && Value(s[1..]) == -i
  {
    if i >= 0 then NatToString(i)
    else
      var s := "-" + NatToString(-i);
      assert s[1..] == NatToString(-i);
      s
  }
}
