/** Decimal digit strings and the numbers they denote. */
module DigitStrings {

  predicate IsDigit(c: char) {
    '0' <= c <= '9'
  }

  predicate AllDigits(s: string) {
    forall i :: 0 <= i < |s| ==> IsDigit(s[i])
  }

  /** Every character of `s` is the digit zero. */
  predicate AllZeroDigits(s: string) {
    forall i :: 0 <= i < |s| ==> s[i] == '0'
  }

  function DigitValue(c: char): (d: nat)
    requires IsDigit(c)
    ensures d < 10
  {
    (c as int) - ('0' as int)
  }

  function DigitChar(d: nat): (c: char)
    requires d < 10
    ensures IsDigit(c) && DigitValue(c) == d
  {
    (('0' as int) + d) as char
  }

  function Pow10(k: nat): (p: nat)
    ensures p >= 1
  {
    if k == 0 then 1 else 10 * Pow10(k - 1)
  }

  /** The number a digit string denotes, most significant digit first
      (what `parseInt(s, 10)` yields for a string of digits). */
  function Value(s: string): (v: nat)
    requires AllDigits(s)
    ensures v < Pow10(|s|)
    decreases |s|
  {
    if |s| == 0 then 0 else Value(s[..|s| - 1]) * 10 + DigitValue(s[|s| - 1])
  }

  /** `k` zero characters. */
  function Zeros(k: nat): (z: string)
    ensures |z| == k && AllDigits(z) && AllZeroDigits(z)
  {
    seq(k, _ => '0')
  }

  /** A digit string denotes zero exactly when all its digits are '0'. */
  lemma {:induction false} ValueZeroIff(s: string)
    requires AllDigits(s)
    ensures Value(s) == 0 <==> AllZeroDigits(s)
  {
    if |s| > 0 {
      var init := s[..|s| - 1];
      ValueZeroIff(init);
      if AllZeroDigits(s) {
        assert AllZeroDigits(init);
      } else if AllZeroDigits(init) {
        assert s[|s| - 1] != '0';
      }
    }
  }

  /** Appending digits shifts the value of the prefix by a power of ten. */
  lemma {:induction false} ValueAppend(a: string, b: string)
    requires AllDigits(a) && AllDigits(b)
    ensures AllDigits(a + b)
    ensures Value(a + b) == Value(a) * Pow10(|b|) + Value(b)
  {
    var ab := a + b;
    assert AllDigits(ab);
    if |b| > 0 {
      var init := b[..|b| - 1];
      assert ab[..|ab| - 1] == a + init;
      assert ab[|ab| - 1] == b[|b| - 1];
      ValueAppend(a, init);
      var x: int, y: int, p: int, d: int := Value(a), Value(init), Pow10(|init|), DigitValue(b[|b| - 1]);
      assert Value(ab) == (x * p + y) * 10 + d;
      assert Pow10(|b|) == p * 10;
      assert Value(b) == y * 10 + d;
      ShiftByTen(x, y, p, d);
    } else {
      assert ab == a;
    }
  }

  /** Distributes the shift by ten; kept as a lemma of its own so that the
      non-linear step is proved apart from the sequence reasoning around it. */
  lemma ShiftByTen(x: int, y: int, p: int, d: int)
    ensures (x * p + y) * 10 + d == x * (p * 10) + (y * 10 + d)
  {
  }

  /** Leading zeros do not change the value of a digit string. */
  lemma LeadingZerosValue(k: nat, s: string)
    requires AllDigits(s)
    ensures AllDigits(Zeros(k) + s)
    ensures Value(Zeros(k) + s) == Value(s)
  {
    ValueZeroIff(Zeros(k));
    ValueAppend(Zeros(k), s);
  }

  /** The value of a three-digit string, digit by digit. */
  lemma ValueOfThree(g: string)
    requires |g| == 3 && AllDigits(g)
    ensures Value(g) == 100 * DigitValue(g[0]) + 10 * DigitValue(g[1]) + DigitValue(g[2])
  {
    assert g[..2][..1] == g[..1];
    assert g[..1][..0] == [];
    assert Value(g[..1]) == DigitValue(g[0]);
    assert Value(g[..2]) == 10 * DigitValue(g[0]) + DigitValue(g[1]);
  }
}
