/** The command-token helpers: the digit-string test and the decimal
    conversion used on tokens that pass it. */
module Utility {

  /** The largest value of a 32-bit int. */
  const IntMax: int := 2147483647

  /** std::isdigit in the "C" locale. */
  predicate IsDigit(c: char) {
    '0' <= c <= '9'
  }

  /** The scan of isNumber from position i on: it stops with false at the
      first character that is not a digit. */
  function DigitsFrom(s: string, i: nat): (b: bool)
    requires i <= |s|
    ensures b <==> forall j :: i <= j < |s| ==> IsDigit(s[j])
    decreases |s| - i
  {
    if i == |s| then true
    else if !IsDigit(s[i]) then false
    else DigitsFrom(s, i + 1)
  }

  /** isNumber: the scan rejects any non-digit (a sign included), and a
      string that passed the scan is a number only when it is not empty. */
  function IsNumber(s: string): (b: bool)
    ensures b <==> |s| > 0 && forall i :: 0 <= i < |s| ==> IsDigit(s[i])
  {
    if !DigitsFrom(s, 0) then false else |s| > 0
  }

  function DigitValue(c: char): (d: nat)
    requires IsDigit(c)
    ensures d < 10
  {
    (c - '0') as nat
  }

  function Pow10(n: nat): (p: nat)
    ensures p >= 1
  {
    if n == 0 then 1 else 10 * Pow10(n - 1)
  }

  /** The base-10 value of a digit string: each digit weighted by the power
      of ten of its position. */
  function Positional(s: string): nat
    requires forall i :: 0 <= i < |s| ==> IsDigit(s[i])
  {
    if s == [] then 0 else DigitValue(s[0]) * Pow10(|s| - 1) + Positional(s[1..])
  }

  /** What `istringstream >> int` does with a digit string: read the digits
      left to right, multiplying the value so far by ten and adding the
      next digit. */
  function Accumulate(s: string): nat
    requires forall i :: 0 <= i < |s| ==> IsDigit(s[i])
  {
    if s == [] then 0 else 10 * Accumulate(s[..|s| - 1]) + DigitValue(s[|s| - 1])
  }

  /** string_to_int on a digit string whose value fits in an int: the
      result is its base-10 value, so it lies in 0..IntMax. */
  function StringToInt(s: string): (n: int)
    requires IsNumber(s) && Positional(s) <= IntMax
    ensures n == Positional(s) && 0 <= n <= IntMax
  {
    AccumulateIsPositional(s);
    Accumulate(s)
  }

  /** Reading left to right gives the positional value. */
  lemma {:induction false} AccumulateIsPositional(s: string)
    requires forall i :: 0 <= i < |s| ==> IsDigit(s[i])
    ensures Accumulate(s) == Positional(s)
    decreases |s|
  {
    if |s| > 0 {
      var init := s[..|s| - 1];
      AccumulateIsPositional(init);
      PositionalSnoc(init, s[|s| - 1]);
      assert init + [s[|s| - 1]] == s;
    }
  }

  /** Appending a digit multiplies the value by ten and adds the digit. */
  lemma {:induction false} PositionalSnoc(s: string, c: char)
    requires forall i :: 0 <= i < |s| ==> IsDigit(s[i])
    requires IsDigit(c)
    ensures Positional(s + [c]) == 10 * Positional(s) + DigitValue(c)
    decreases |s|
  {
    if s == [] {
      assert [c][1..] == [];
    } else {
      var d, p := DigitValue(s[0]), Pow10(|s| - 1);
      assert (s + [c])[1..] == s[1..] + [c];
      PositionalSnoc(s[1..], c);
      assert Pow10(|s + [c]| - 1) == 10 * p;
      assert d * (10 * p) == 10 * (d * p);
      assert Positional(s + [c]) == d * (10 * p) + Positional(s[1..] + [c]);
    }
  }

  /** Leading zeros contribute nothing. */
  lemma LeadingZero(s: string)
    requires forall i :: 0 <= i < |s| ==> IsDigit(s[i])
    ensures Positional(['0'] + s) == Positional(s)
  {
    assert (['0'] + s)[1..] == s;
  }

  /** A string of n digits has a value below 10^n. */
  lemma {:induction false} PositionalBound(s: string)
    requires forall i :: 0 <= i < |s| ==> IsDigit(s[i])
    ensures Positional(s) < Pow10(|s|)
    decreases |s|
  {
    if s != [] {
      var d, p := DigitValue(s[0]), Pow10(|s| - 1);
      PositionalBound(s[1..]);
      assert d * p <= 9 * p by { MulMonotone(d, 9, p); }
    }
  }

  /** Every digit string of at most nine digits fits in an int, so
      string_to_int is defined on it. */
  lemma NineDigitsFit(s: string)
    requires IsNumber(s) && |s| <= 9
    ensures Positional(s) <= IntMax
  {
    PositionalBound(s);
    Pow10Monotone(|s|, 9);
  }

  lemma {:induction false} Pow10Monotone(m: nat, n: nat)
    requires m <= n
    ensures Pow10(m) <= Pow10(n)
    decreases n
  {
    if m < n {
      Pow10Monotone(m, n - 1);
    }
  }

  lemma MulMonotone(a: nat, b: nat, p: nat)
    requires a <= b
    ensures a * p <= b * p
  {
    assert b * p == a * p + (b - a) * p;
  }
}
