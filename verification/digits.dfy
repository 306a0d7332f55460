/**
 * Decimal digit strings and powers of ten: PHP's `(string)` of an integer,
 * `str_pad` with zeros, and the value of a run of ASCII digits.
 */
module Digits {

  function Pow10(n: nat): (r: nat)
    ensures r >= 1
  {
    if n == 0 then 1 else 10 * Pow10(n - 1)
  }

  lemma {:induction false} Pow10Add(a: nat, b: nat)
    ensures Pow10(a + b) == Pow10(a) * Pow10(b)
  {
    if a > 0 {
      Pow10Add(a - 1, b);
      assert Pow10(a + b) == 10 * Pow10(a - 1 + b);
    }
  }

  lemma {:induction false} Pow10Monotone(a: nat, b: nat)
    requires a <= b
    ensures Pow10(a) <= Pow10(b)
  {
    if a < b {
      Pow10Monotone(a, b - 1);
    }
  }

  /** `\d` of a PCRE pattern without the `u` flag: an ASCII digit. */
  predicate IsDigit(c: char) {
    '0' <= c <= '9'
  }

  predicate AllDigits(s: string) {
    forall i :: 0 <= i < |s| ==> IsDigit(s[i])
  }

  function DigitValue(c: char): (d: nat)
    requires IsDigit(c)
    ensures d < 10
  {
    c as int - '0' as int
  }

  function DigitChar(d: nat): (c: char)
    requires d < 10
    ensures IsDigit(c) && DigitValue(c) == d
  {
    (d + '0' as int) as char
  }

  /** The number a string of digits denotes (leading zeros allowed). */
  function DigitsToNat(s: string): (n: nat)
    requires AllDigits(s)
    ensures n < Pow10(|s|)
  {
    if |s| == 0 then 0 else DigitsToNat(s[..|s| - 1]) * 10 + DigitValue(s[|s| - 1])
  }

  /** PHP's `(string)` of a non-negative integer: no leading zeros, "0" for zero. */
  function NatToDigits(n: nat): (s: string)
    ensures |s| > 0 && AllDigits(s)
    ensures DigitsToNat(s) == n
    ensures n > 0 ==> s[0] != '0'
  {
    if n < 10 then
      [DigitChar(n)]
    else
      var s := NatToDigits(n / 10) + [DigitChar(n % 10)];
      assert s[..|s| - 1] == NatToDigits(n / 10);
      s
  }

  /** Appending a digit to a positive number appends its character to the canonical digits. */
  lemma NatToDigitsAppend(n: nat, d: nat)
    requires n > 0 && d < 10
    ensures NatToDigits(10 * n + d) == NatToDigits(n) + [DigitChar(d)]
  {
    DivModUnique(10 * n + d, 10, n, d);
  }

  /** PHP's `(string)` of any integer. */
  function IntToString(i: int): (s: string)
    ensures |s| > 0
    ensures i >= 0 ==> s == NatToDigits(i)
    ensures i < 0 ==> s == "-" + NatToDigits(-i)
  {
    if i < 0 then "-" + NatToDigits(-i) else NatToDigits(i)
  }

  function Zeros(n: nat): (s: string)
    ensures |s| == n && AllDigits(s)
    ensures forall i :: 0 <= i < n ==> s[i] == '0'
  {
    seq(n, _ => '0')
  }

  /** The last `width` digits of `v`, padded with leading zeros. */
  function LowDigits(v: nat, width: nat): (s: string)
    ensures |s| == width && AllDigits(s)
  {
    if width == 0 then "" else LowDigits(v / 10, width - 1) + [DigitChar(v % 10)]
  }

  /** `str_pad($s, $width, '0', STR_PAD_LEFT)`. */
  function PadLeft(s: string, width: nat): (r: string)
    ensures |r| == if |s| >= width then |s| else width
  {
    if |s| >= width then s else Zeros(width - |s|) + s
  }

  lemma {:induction false} DigitsConcat(a: string, b: string)
    requires AllDigits(a) && AllDigits(b)
    ensures AllDigits(a + b)
    ensures DigitsToNat(a + b) == DigitsToNat(a) * Pow10(|b|) + DigitsToNat(b)
  {
    assert AllDigits(a + b) by {
      forall i | 0 <= i < |a + b|
        ensures IsDigit((a + b)[i])
      {
        if i < |a| { assert (a + b)[i] == a[i]; } else { assert (a + b)[i] == b[i - |a|]; }
      }
    }
    if |b| > 0 {
      var b' := b[..|b| - 1];
      assert (a + b)[..|a + b| - 1] == a + b';
      DigitsConcat(a, b');
      var x, y, p := DigitsToNat(a), DigitsToNat(b'), Pow10(|b'|);
      assert DigitsToNat(a + b) == (x * p + y) * 10 + DigitValue(b[|b| - 1]);
      Regroup(x, p, y);
      assert Pow10(|b|) == p * 10;
    } else {
      assert a + b == a;
    }
  }

  lemma Regroup(x: int, p: int, y: int)
    ensures (x * p + y) * 10 == x * (p * 10) + y * 10
  {
  }

  lemma {:induction false} ZerosValue(n: nat)
    ensures DigitsToNat(Zeros(n)) == 0
  {
    if n > 0 {
      assert Zeros(n)[..n - 1] == Zeros(n - 1);
      ZerosValue(n - 1);
    }
  }

  lemma LeadingZeros(n: nat, s: string)
    requires AllDigits(s)
    ensures AllDigits(Zeros(n) + s)
    ensures DigitsToNat(Zeros(n) + s) == DigitsToNat(s)
  {
    DigitsConcat(Zeros(n), s);
    ZerosValue(n);
  }

  /** "1" followed by `n` zeros denotes `10^n`. */
  lemma {:induction false} OneThenZeros(n: nat)
    ensures AllDigits("1" + Zeros(n))
    ensures DigitsToNat("1" + Zeros(n)) == Pow10(n)
  {
    var s := "1" + Zeros(n);
    assert AllDigits(s) by {
      forall i | 0 <= i < |s|
        ensures IsDigit(s[i])
      {
        if i > 0 { assert s[i] == Zeros(n)[i - 1]; }
      }
    }
    if n == 0 {
      assert s == "1";
      assert DigitsToNat(s) == DigitsToNat("") * 10 + 1;
    } else {
      assert s[..|s| - 1] == "1" + Zeros(n - 1);
      OneThenZeros(n - 1);
      assert DigitsToNat(s) == DigitsToNat("1" + Zeros(n - 1)) * 10 + DigitValue(s[|s| - 1]);
    }
  }

  lemma {:induction false} LowDigitsValue(v: nat, width: nat)
    ensures DigitsToNat(LowDigits(v, width)) == v % Pow10(width)
  {
    if width > 0 {
      var s := LowDigits(v, width);
      assert s[..width - 1] == LowDigits(v / 10, width - 1);
      LowDigitsValue(v / 10, width - 1);
      ModOfTen(v, Pow10(width - 1));
    }
  }

  /** `(v / 10) % p * 10 + v % 10 == v % (10 * p)`: peeling one digit off a remainder. */
  lemma ModOfTen(v: nat, p: nat)
    requires p > 0
    ensures (v / 10) % p * 10 + v % 10 == v % (10 * p)
  {
    var q := v / 10;
    var r := v % 10;
    var k := q / p;
    var m := q % p;
    assert q == k * p + m;
    assert v == 10 * q + r;
    assert v == (10 * p) * k + (m * 10 + r);
    assert 0 <= m * 10 + r < 10 * p;
    DivModUnique(v, 10 * p, k, m * 10 + r);
  }

  /** Euclidean division is determined by its quotient and remainder. */
  lemma DivModUnique(a: int, d: int, q: int, r: int)
    requires d > 0 && a == d * q + r && 0 <= r < d
    ensures a / d == q && a % d == r
  {
    var q0, r0 := a / d, a % d;
    MulSub(d, q0, q);
    assert d * (q0 - q) == r - r0;
    if q0 - q >= 1 {
      MulAtLeast(d, q0 - q);
    } else if q - q0 >= 1 {
      MulAtLeast(d, q - q0);
      MulSub(d, q, q0);
    }
  }

  lemma MulSub(d: int, x: int, y: int)
    ensures d * (x - y) == d * x - d * y
  {
  }

  lemma MulAtLeast(d: int, k: int)
    requires d > 0 && k >= 1
    ensures d * k >= d
  {
  }

  /** Digit strings of equal length and equal value are equal. */
  lemma {:induction false} DigitsInjective(a: string, b: string)
    requires AllDigits(a) && AllDigits(b) && |a| == |b|
    requires DigitsToNat(a) == DigitsToNat(b)
    ensures a == b
  {
    if |a| > 0 {
      var n := |a| - 1;
      var x := DigitsToNat(a[..n]);
      var y := DigitsToNat(b[..n]);
      DivModUnique(DigitsToNat(a), 10, x, DigitValue(a[n]));
      DivModUnique(DigitsToNat(b), 10, y, DigitValue(b[n]));
      DigitsInjective(a[..n], b[..n]);
      assert a == a[..n] + [a[n]] && b == b[..n] + [b[n]];
    }
  }

  /** Splitting the canonical form of `n` after its leading digits. */
  lemma {:induction false} NatToDigitsSplit(n: nat, j: nat)
    requires n >= Pow10(j)
    ensures NatToDigits(n) == NatToDigits(n / Pow10(j)) + LowDigits(n, j)
  {
    if j > 0 {
      assert n >= 10;
      DivDiv(n, 10, Pow10(j - 1));
      NatToDigitsSplit(n / 10, j - 1);
    }
  }

  /** `(a / b) / c == a / (b * c)` for naturals. */
  lemma DivDiv(a: nat, b: nat, c: nat)
    requires b > 0 && c > 0
    ensures a / b / c == a / (b * c)
  {
    var q1, r1 := a / b, a % b;
    var q2, r2 := q1 / c, q1 % c;
    assert a == b * q1 + r1;
    assert q1 == c * q2 + r2;
    MulAdd(b, c * q2, r2);
    assert b * (c * q2) == (b * c) * q2 by { MulAssoc(b, c, q2); }
    assert b * r2 + r1 < b * c by {
      MulSub(b, c, 1);
      assert b * r2 <= b * (c - 1) by { MulLe(b, r2, c - 1); }
    }
    DivModUnique(a, b * c, q2, b * r2 + r1);
  }

  lemma MulAdd(d: int, x: int, y: int)
    ensures d * (x + y) == d * x + d * y
  {
  }

  lemma NegMul(x: int, y: int)
    ensures (-x) * y == -(x * y)
  {
  }

  lemma MulAssoc(x: int, y: int, z: int)
    ensures x * (y * z) == (x * y) * z
  {
  }

  lemma MulLe(d: nat, x: int, y: int)
    requires x <= y
    ensures d * x <= d * y
  {
    MulSub(d, y, x);
  }

  /** The canonical form of a small number, zero-padded, is its low digits. */
  lemma {:induction false} PaddedIsLowDigits(n: nat, width: nat)
    requires |NatToDigits(n)| <= width
    ensures Zeros(width - |NatToDigits(n)|) + NatToDigits(n) == LowDigits(n, width)
  {
    if n < 10 {
      LowDigitsOfZero(width - 1);
      assert Zeros(width - 1) == LowDigits(0, width - 1);
    } else {
      PaddedIsLowDigits(n / 10, width - 1);
      assert Zeros(width - |NatToDigits(n)|) == Zeros(width - 1 - |NatToDigits(n / 10)|);
    }
  }

  lemma {:induction false} LowDigitsOfZero(width: nat)
    ensures LowDigits(0, width) == Zeros(width)
  {
    if width > 0 {
      LowDigitsOfZero(width - 1);
    }
  }

  /** A number written with at most `width` digits is below `10^width`. */
  lemma ShortIsSmall(n: nat, width: nat)
    requires |NatToDigits(n)| <= width
    ensures n < Pow10(width)
    ensures n / Pow10(width) == 0
  {
    NatToDigitsLength(n);
    Pow10Monotone(|NatToDigits(n)|, width);
    DivModUnique(n, Pow10(width), 0, n);
  }

  /** A number written with more than `width` digits is at least `10^width`. */
  lemma LongIsLarge(n: nat, width: nat)
    requires 0 < width < |NatToDigits(n)|
    ensures n >= Pow10(width)
  {
    NatToDigitsLength(n);
    Pow10Monotone(width, |NatToDigits(n)| - 1);
  }

  /** The number of digits of `n` measures it against powers of ten. */
  lemma {:induction false} NatToDigitsLength(n: nat)
    ensures n < Pow10(|NatToDigits(n)|)
    ensures n == 0 || Pow10(|NatToDigits(n)| - 1) <= n
  {
    if n >= 10 {
      NatToDigitsLength(n / 10);
    }
  }
}
