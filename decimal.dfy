/** Decimal text of integers, as Ruby's Integer#to_s writes it, and the two-decimal
    rendering of a count of hundredths, as Kernel#format("%.2f") writes it. Each
    rendering has a reading function beside it, and the lemmas prove that reading the
    text back gives the number. */
module Decimal {

  predicate IsDigit(c: char) { '0' <= c <= '9' }

  predicate AllDigits(s: string) { forall i :: 0 <= i < |s| ==> IsDigit(s[i]) }

  function DigitValue(c: char): (d: nat)
    requires IsDigit(c)
    ensures d < 10
  {
    c as int - '0' as int
  }

  function DigitChar(d: nat): (c: char)
    requires d < 10
    ensures IsDigit(c) && DigitValue(c) == d
  {
    ('0' as int + d) as char
  }

  /** The number a string of digits denotes, read most significant digit first. */
  function DigitsValue(s: string): nat
    requires AllDigits(s)
  {
    if s == [] then 0 else 10 * DigitsValue(s[..|s| - 1]) + DigitValue(s[|s| - 1])
  }

  /** Decimal digits of n without leading zeros ("0" for zero). */
  function NatToString(n: nat): (s: string)
    ensures |s| >= 1 && AllDigits(s)
    ensures s[0] == '0' ==> n == 0 && |s| == 1
    decreases n
  {
    if n < 10 then [DigitChar(n)] else NatToString(n / 10) + [DigitChar(n % 10)]
  }

  /** Integer#to_s: a leading '-' for negative numbers, then the digits of the magnitude. */
  function IntToString(i: int): string
  {
    if i < 0 then "-" + NatToString(-i) else NatToString(i)
  }

  /** The strings Integer#to_s can produce: an optional '-' and at least one digit. */
  predicate IsIntText(s: string)
  {
    if |s| > 0 && s[0] == '-' then |s| >= 2 && AllDigits(s[1..]) else |s| >= 1 && AllDigits(s)
  }

  function IntValue(s: string): int
    requires IsIntText(s)
  {
    if s[0] == '-' then -(DigitsValue(s[1..]) as int) else DigitsValue(s)
  }

  lemma DigitsValueSnoc(s: string, c: char)
    requires AllDigits(s) && IsDigit(c)
    ensures AllDigits(s + [c])
    ensures DigitsValue(s + [c]) == 10 * DigitsValue(s) + DigitValue(c)
  {
    assert (s + [c])[..|s|] == s;
  }

  /** Reading the digits of n back gives n. */
  lemma {:induction false} NatToStringRoundTrip(n: nat)
    ensures DigitsValue(NatToString(n)) == n
  {
    if n < 10 {
      DigitsValueSnoc([], DigitChar(n));
      assert [] + [DigitChar(n)] == [DigitChar(n)];
    } else {
      NatToStringRoundTrip(n / 10);
      DigitsValueSnoc(NatToString(n / 10), DigitChar(n % 10));
    }
  }

  /** A '-' followed by digits is an integer text denoting minus their value. */
  lemma NegativeText(t: string)
    requires |t| >= 1 && AllDigits(t)
    ensures IsIntText("-" + t) && ("-" + t)[0] == '-'
    ensures IntValue("-" + t) == -(DigitsValue(t) as int)
  {
    var s := "-" + t;
    assert s[1..] == t;
  }

  /** A text of digits is an integer text denoting their value. */
  lemma DigitsText(t: string)
    requires |t| >= 1 && AllDigits(t)
    ensures IsIntText(t) && t[0] != '-' && IntValue(t) == DigitsValue(t)
  {
    assert IsDigit(t[0]);
  }

  /** Integer#to_s is read back exactly, sign included. */
  lemma IntToStringRoundTrip(i: int)
    ensures IsIntText(IntToString(i))
    ensures IntValue(IntToString(i)) == i
    ensures IntToString(i)[0] == '-' <==> i < 0
  {
    if i < 0 {
      NatToStringRoundTrip(-i);
      NegativeText(NatToString(-i));
    } else {
      NatToStringRoundTrip(i);
      DigitsText(NatToString(i));
    }
  }

  /** "%.2f" % (h / 100.0) for a non-negative count h of hundredths: the integer part,
      a point, and exactly two decimals. */
  function FixedTwo(h: nat): string
  {
    NatToString(h / 100) + "." + [DigitChar(h / 10 % 10), DigitChar(h % 10)]
  }

  /** Two digit characters read back as the two-digit number they spell. */
  lemma TwoDigitsValue(a: nat, b: nat)
    requires a < 10 && b < 10
    ensures AllDigits([DigitChar(a), DigitChar(b)])
    ensures DigitsValue([DigitChar(a), DigitChar(b)]) == 10 * a + b
  {
    var ta, tb := DigitChar(a), DigitChar(b);
    DigitsValueSnoc([], ta);
    assert [] + [ta] == [ta];
    DigitsValueSnoc([ta], tb);
    assert [ta] + [tb] == [ta, tb];
  }

  /** A count of hundredths is its whole part, its tenths digit and its hundredths digit. */
  lemma HundredthsSplit(h: nat)
    ensures 100 * (h / 100) + 10 * (h / 10 % 10) + h % 10 == h
  {
    var q := h / 10;
    assert h == 10 * q + h % 10;
    assert q == 10 * (q / 10) + q % 10;
    assert h / 100 == q / 10;
  }

  /** The text has exactly two digits after its point; the digits before it read back as
      h / 100 and the two after it as h % 100, so together they denote h hundredths. */
  lemma FixedTwoRoundTrip(h: nat)
    ensures var s := FixedTwo(h);
      && |s| >= 4 && s[|s| - 3] == '.'
      && AllDigits(s[..|s| - 3]) && AllDigits(s[|s| - 2..])
      && 100 * DigitsValue(s[..|s| - 3]) + DigitsValue(s[|s| - 2..]) == h
  {
    var s := FixedTwo(h);
    var whole := NatToString(h / 100);
    var tens, ones := DigitChar(h / 10 % 10), DigitChar(h % 10);
    assert s == whole + ['.', tens, ones];
    assert s[..|s| - 3] == whole;
    assert s[|s| - 2..] == [tens, ones];
    NatToStringRoundTrip(h / 100);
    TwoDigitsValue(h / 10 % 10, h % 10);
    HundredthsSplit(h);
  }
}
