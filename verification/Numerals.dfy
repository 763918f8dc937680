/** Decimal numerals: the value `int(...)` gives a digit string and the string
    `str(...)` gives an integer. */
module Numerals {
  import opened Text

  /** Largest number of digits CPython's `int()` converts from a string before
      raising `ValueError` (the default `sys.get_int_max_str_digits()` since
      CPython 3.11). */
  const IntMaxStrDigits: nat := 4300

  function DigitValue(c: char): (v: nat)
    requires IsDigit(c)
    ensures v < 10
  {
    c as int - '0' as int
  }

  function DigitChar(v: nat): (c: char)
    requires v < 10
    ensures IsDigit(c) && DigitValue(c) == v
  {
    ('0' as int + v) as char
  }

  function Pow10(n: nat): (p: nat)
    ensures p >= 1
  {
    if n == 0 then 1 else 10 * Pow10(n - 1)
  }

  predicate AllDigits(s: string) {
    forall k :: 0 <= k < |s| ==> IsDigit(s[k])
  }

  /** The integer a string of decimal digits spells, most significant first
      (`int(s)`, leading zeros allowed). */
  function NumeralValue(s: string): (v: nat)
    requires AllDigits(s)
    ensures v < Pow10(|s|)
  {
    if |s| == 0 then 0
    else 10 * NumeralValue(s[..|s| - 1]) + DigitValue(s[|s| - 1])
  }

  /** `str(n)` for a natural number: its decimal digits, without leading zeros. */
  function NatToDecimal(n: nat): (s: string)
    ensures |s| >= 1 && AllDigits(s)
    ensures |s| > 1 ==> s[0] != '0'
  {
    if n < 10 then [DigitChar(n)] else NatToDecimal(n / 10) + [DigitChar(n % 10)]
  }

  /** `str(i)` for any integer: a minus sign before the digits of a negative one. */
  function IntToString(i: int): (s: string)
    ensures |s| >= 1
    ensures i >= 0 <==> IsDigit(s[0])
    ensures forall k :: 1 <= k < |s| ==> IsDigit(s[k])
  {
    if i < 0 then "-" + NatToDecimal(-i) else NatToDecimal(i)
  }

  /** Reading back the digits written for `n` gives `n`. */
  lemma {:induction false} NumeralOfDecimal(n: nat)
    ensures NumeralValue(NatToDecimal(n)) == n
    decreases n
  {
    if n >= 10 {
      NumeralOfDecimal(n / 10);
      var s := NatToDecimal(n);
      assert s[..|s| - 1] == NatToDecimal(n / 10);
    }
  }

  /** The arithmetic step of `NumeralAppend`: appending digit `d` shifts the
      left part by one more place. */
  lemma ShiftByTen(v: int, x: int, y: int, d: int, p: int, pb: int, vb: int)
    requires v == 10 * (x * p + y) + d && pb == 10 * p && vb == 10 * y + d
    ensures v == x * pb + vb
  {
    assert x * (10 * p) == 10 * (x * p);
  }

  /** The value of a concatenation of digit strings: the left part shifted by
      the length of the right part. */
  lemma {:induction false} NumeralAppend(a: string, b: string)
    requires AllDigits(a) && AllDigits(b)
    ensures AllDigits(a + b)
    ensures NumeralValue(a + b) == NumeralValue(a) * Pow10(|b|) + NumeralValue(b)
    decreases |b|
  {
    if |b| == 0 {
      assert a + b == a;
    } else {
      var b' := b[..|b| - 1];
      var ab := a + b;
      assert ab[..|ab| - 1] == a + b' && ab[|ab| - 1] == b[|b| - 1];
      NumeralAppend(a, b');
      ShiftByTen(NumeralValue(ab), NumeralValue(a), NumeralValue(b'), DigitValue(b[|b| - 1]),
                 Pow10(|b'|), Pow10(|b|), NumeralValue(b));
    }
  }
}
