/**
 * Decimal digit strings: the zero-padded and the minimal rendering of a natural
 * number, and the value of a digit string. The date and fixed-point decimal
 * renderings of the data model are built from these.
 */
module Digits {
  predicate IsDigit(c: char) {
    '0' <= c <= '9'
  }

  predicate AllDigits(s: string) {
    forall i :: 0 <= i < |s| ==> IsDigit(s[i])
  }

  function DigitChar(d: nat): (c: char)
    requires d < 10
    ensures IsDigit(c)
  {
    (('0' as int) + d) as char
  }

  function DigitValue(c: char): (d: nat)
    requires IsDigit(c)
    ensures d < 10
  {
    (c as int) - ('0' as int)
  }

  function Pow10(n: nat): (p: nat)
    ensures p >= 1
  {
    if n == 0 then 1 else 10 * Pow10(n - 1)
  }

  /** The number a non-empty or empty string of decimal digits denotes (most significant first). */
  function Value(s: string): nat
    requires AllDigits(s)
  {
    if |s| == 0 then 0 else 10 * Value(s[..|s| - 1]) + DigitValue(s[|s| - 1])
  }

  /** `n` written with exactly `w` digits, zero-padded on the left (Python's `%0wd`). */
  function Padded(n: nat, w: nat): (s: string)
    requires n < Pow10(w)
    ensures |s| == w && AllDigits(s)
  {
    if w == 0 then ""
    else
      assert n / 10 < Pow10(w - 1);
      Padded(n / 10, w - 1) + [DigitChar(n % 10)]
  }

  /** `n` written with the fewest digits (Python's `str(n)` for `n >= 0`). */
  function Shown(n: nat): (s: string)
    ensures 1 <= |s| && AllDigits(s)
    ensures |s| > 1 ==> s[0] != '0'
  {
    if n < 10 then [DigitChar(n)] else Shown(n / 10) + [DigitChar(n % 10)]
  }

  lemma DigitRoundTrip(d: nat)
    requires d < 10
    ensures DigitValue(DigitChar(d)) == d
  {
  }

  lemma {:induction false} PaddedValue(n: nat, w: nat)
    requires n < Pow10(w)
    ensures Value(Padded(n, w)) == n
  {
    if w > 0 {
      var s := Padded(n, w);
      assert n / 10 < Pow10(w - 1);
      PaddedValue(n / 10, w - 1);
      assert s[..|s| - 1] == Padded(n / 10, w - 1);
      DigitRoundTrip(n % 10);
    } else {
      assert n == 0;
    }
  }

  lemma {:induction false} ShownValue(n: nat)
    ensures Value(Shown(n)) == n
  {
    var s := Shown(n);
    if n < 10 {
      assert s[..0] == "";
      DigitRoundTrip(n);
    } else {
      ShownValue(n / 10);
      assert s[..|s| - 1] == Shown(n / 10);
      DigitRoundTrip(n % 10);
    }
  }
}
