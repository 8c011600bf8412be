/**
 * Decimal renderings of integers: Python's `str(n)` and the zero-padded `f"{n:06d}"`
 * used in chunk ids.
 */
module Decimal {

  predicate IsDigit(c: char)
  {
    '0' <= c <= '9'
  }

  predicate AllDigits(s: string)
  {
    forall i :: 0 <= i < |s| ==> IsDigit(s[i])
  }

  function DigitChar(d: nat): (c: char)
    requires d < 10
    ensures IsDigit(c)
  {
    ('0' as int + d) as char
  }

  function DigitValue(c: char): nat
    requires IsDigit(c)
  {
    c as int - '0' as int
  }

  function Pow10(k: nat): (r: nat)
    ensures r >= 1
  {
    if k == 0 then 1 else 10 * Pow10(k - 1)
  }

  /** The shortest decimal rendering of `n`. */
  function Digits(n: nat): string
    decreases n
  {
    if n < 10 then [DigitChar(n)] else Digits(n / 10) + [DigitChar(n % 10)]
  }

  /** The number a digit string denotes; leading zeros count for nothing. */
  function Value(s: string): nat
    requires AllDigits(s)
  {
    if s == [] then 0 else Value(s[..|s| - 1]) * 10 + DigitValue(s[|s| - 1])
  }

  /** `Digits` renders `n` faithfully: only digits, reading back as `n`, never empty, and with
      no leading zero except for 0 itself. */
  lemma {:induction false} DigitsFacts(n: nat)
    ensures AllDigits(Digits(n)) && Value(Digits(n)) == n
    ensures |Digits(n)| >= 1 && (Digits(n)[0] == '0' ==> n == 0)
    decreases n
  {
    if n >= 10 {
      DigitsFacts(n / 10);
      var s := Digits(n);
      assert s[..|s| - 1] == Digits(n / 10);
    }
  }

  /** `Digits(n)` has at most `k` characters exactly when `n < 10^k` (for `k >= 1`). */
  lemma {:induction false} DigitsLength(n: nat, k: nat)
    requires k >= 1
    ensures |Digits(n)| <= k <==> n < Pow10(k)
    decreases n
  {
    if n < 10 {
      assert Pow10(k) == 10 * Pow10(k - 1);
    } else {
      if k == 1 {
        DigitsFacts(n / 10);
      } else {
        DigitsLength(n / 10, k - 1);
        assert n / 10 < Pow10(k - 1) <==> n < 10 * Pow10(k - 1);
      }
    }
  }

  function Zeros(k: nat): (r: string)
    ensures |r| == k
  {
    seq(k, _ => '0')
  }

  /** `Value` ignores leading zeros. */
  lemma {:induction false} ValueLeadingZeros(k: nat, s: string)
    requires AllDigits(s)
    ensures AllDigits(Zeros(k) + s) && Value(Zeros(k) + s) == Value(s)
    decreases |s| + k
  {
    var z := Zeros(k) + s;
    assert AllDigits(z) by {
      assert forall i :: 0 <= i < |z| ==> z[i] == (if i < k then '0' else s[i - k]);
    }
    if s == [] {
      assert z == Zeros(k);
      if k > 0 {
        assert z[..|z| - 1] == Zeros(k - 1) + [];
        ValueLeadingZeros(k - 1, []);
      }
    } else {
      assert z[..|z| - 1] == Zeros(k) + s[..|s| - 1];
      ValueLeadingZeros(k, s[..|s| - 1]);
    }
  }

  /** `f"{n:06d}"` for a non-negative `n`. */
  function Pad6(n: nat): string
  {
    var d := Digits(n);
    if |d| >= 6 then d else Zeros(6 - |d|) + d
  }

  /** The padded rendering is a digit string of at least six characters that reads back as
      `n`; it is exactly six characters long exactly when `n < 1000000`, and from there on it
      is the plain rendering, with no leading zero added. */
  lemma Pad6Facts(n: nat)
    ensures AllDigits(Pad6(n)) && Value(Pad6(n)) == n
    ensures |Pad6(n)| >= 6
    ensures |Pad6(n)| == 6 <==> n < 1000000
    ensures |Pad6(n)| == (if n < 1000000 then 6 else |Digits(n)|)
    ensures n >= 1000000 ==> Pad6(n) == Digits(n)
  {
    var d := Digits(n);
    DigitsFacts(n);
    if |d| < 6 {
      ValueLeadingZeros(6 - |d|, d);
    }
    DigitsLength(n, 6);
  }

  lemma Pad6Injective(a: nat, b: nat)
    ensures Pad6(a) == Pad6(b) <==> a == b
  {
    Pad6Facts(a);
    Pad6Facts(b);
  }

  /** Python's `str(n)` for an integer. */
  function IntToString(n: int): string
  {
    if n < 0 then "-" + Digits(-n) else Digits(n)
  }

  /** Distinct integers render differently. */
  lemma IntToStringInjective(a: int, b: int)
    ensures IntToString(a) == IntToString(b) <==> a == b
  {
    DigitsFacts(if a < 0 then -a else a);
    DigitsFacts(if b < 0 then -b else b);
    if IntToString(a) == IntToString(b) {
      var s := IntToString(a);
      assert s[0] == '-' <==> a < 0;
      assert s[0] == '-' <==> b < 0;
      if a < 0 {
        assert Digits(-a) == s[1..] == Digits(-b);
      }
    }
  }
}
