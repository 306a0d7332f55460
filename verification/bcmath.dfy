/**
 * The arbitrary-precision decimal functions of PHP's bcmath extension that
 * the money code calls: `bcadd`, `bcsub`, `bcmul`, `bcdiv` and `bccomp`.
 * Every one of them computes the exact result and then cuts it TOWARD ZERO to
 * the requested number of fractional digits; `bccomp` cuts its operands
 * the same way before comparing.
 */
module BcMath {
  import opened Wrappers
  import opened Digits
  import opened DecimalSyntax

  /** The decimal `mantissa / 10^scale`, held exactly. */
  datatype Fixed = Fixed(mantissa: int, scale: nat)

  function Abs(i: int): nat {
    if i < 0 then -i else i
  }

  /** Integer division rounding toward zero (C's `/`), unlike Dafny's Euclidean `/`. */
  function TruncDiv(a: int, d: nat): int
    requires d > 0
  {
    if a >= 0 then a / d else -((-a) / d)
  }

  /** The value of `x` cut toward zero to `t` fractional digits (or padded with zeros). */
  function Truncate(x: Fixed, t: nat): (r: Fixed)
    ensures r.scale == t
  {
    Fixed(TruncDiv(x.mantissa * Pow10(t), Pow10(x.scale)), t)
  }

  /**
   * `bcadd(a, b, t)`. The exact sum is formed at scale `a.scale + b.scale`;
   * bcmath forms it at the larger of the two scales, which is the same value.
   */
  function Add(a: Fixed, b: Fixed, t: nat): Fixed {
    Truncate(Fixed(a.mantissa * Pow10(b.scale) + b.mantissa * Pow10(a.scale), a.scale + b.scale), t)
  }

  /** `bcsub(a, b, t)`. */
  function Sub(a: Fixed, b: Fixed, t: nat): Fixed {
    Truncate(Fixed(a.mantissa * Pow10(b.scale) - b.mantissa * Pow10(a.scale), a.scale + b.scale), t)
  }

  /** `bcmul(a, b, t)`. */
  function Mul(a: Fixed, b: Fixed, t: nat): Fixed {
    Truncate(Fixed(a.mantissa * b.mantissa, a.scale + b.scale), t)
  }

  /** `bcdiv(a, b, t)`; bcmath raises a division-by-zero error when `b` is zero. */
  function Div(a: Fixed, b: Fixed, t: nat): Fixed
    requires b.mantissa != 0
  {
    var num := a.mantissa * Pow10(b.scale) * Pow10(t);
    var den := b.mantissa * Pow10(a.scale);
    Fixed(if den > 0 then TruncDiv(num, den) else TruncDiv(-num, -den), t)
  }

  /** `bccomp(a, b, t)`: -1, 0 or 1 after cutting both operands to `t` digits. */
  function Compare(a: Fixed, b: Fixed, t: nat): int {
    var p, q := Truncate(a, t).mantissa, Truncate(b, t).mantissa;
    if p < q then -1 else if p > q then 1 else 0
  }

  const Zero := Fixed(0, 0)

  /** The numeral bcmath prints for `x`: at least one integer digit, exactly `x.scale` fractional digits, no "-0". */
  function TextOf(x: Fixed): Numeral {
    var n := Abs(x.mantissa);
    var p := Pow10(x.scale);
    QuotientNonNegative(n, p);
    Numeral(x.mantissa < 0, NatToDigits(n / p), LowDigits(n, x.scale))
  }

  lemma QuotientNonNegative(n: nat, p: nat)
    requires p > 0
    ensures n / p >= 0
  {
  }

  /** The string bcmath returns for a result `x`. */
  function Format(x: Fixed): string {
    Render(TextOf(x))
  }

  /** The number a well-formed numeral denotes, at the scale it is written with. */
  function ValueOf(d: Numeral): (x: Fixed)
    requires WellFormed(d)
    ensures x.scale == |d.fraction|
  {
    DigitsConcat(d.whole, d.fraction);
    var v: int := DigitsToNat(d.whole + d.fraction);
    Fixed(if d.negative then -v else v, |d.fraction|)
  }

  /** The number a string matching the decimal pattern denotes, as bcmath reads it. */
  function Read(s: string): Fixed
    requires Parse(s).Some?
  {
    ValueOf(Parse(s).value)
  }

  /** Reading back what bcmath printed gives the same number at the same scale. */
  lemma ReadFormat(x: Fixed)
    ensures Parse(Format(x)) == Some(TextOf(x))
    ensures Read(Format(x)) == x
  {
    ParseRender(TextOf(x));
    ValueOfTextOf(x);
  }

  lemma ValueOfTextOf(x: Fixed)
    ensures WellFormed(TextOf(x)) && ValueOf(TextOf(x)) == x
  {
    var d := TextOf(x);
    var n, p := Abs(x.mantissa), Pow10(x.scale);
    QuotientNonNegative(n, p);
    DigitsOfMagnitude(n, x.scale, p, n / p, d.whole, d.fraction);
  }

  /** The integer digits followed by the `scale` low digits spell the magnitude. */
  lemma DigitsOfMagnitude(n: nat, scale: nat, p: nat, q: nat, whole: string, fraction: string)
    requires p > 0 && p == Pow10(scale) && q == n / p
    requires whole == NatToDigits(q) && fraction == LowDigits(n, scale)
    ensures AllDigits(whole + fraction) && DigitsToNat(whole + fraction) == n
  {
    DigitsConcat(whole, fraction);
    assert DigitsToNat(whole + fraction) == DigitsToNat(whole) * Pow10(|fraction|) + DigitsToNat(fraction);
    LowDigitsValue(n, scale);
    assert DigitsToNat(fraction) == n % p;
    assert DigitsToNat(whole) == q && |fraction| == scale;
    Recombine(n, p);
  }

  lemma Recombine(n: nat, p: nat)
    requires p > 0
    ensures n / p * p + n % p == n
  {
  }

  /** The printed form never starts or ends with a blank, so `trim` leaves it alone. */
  lemma FormatHasNoBlankEnds(x: Fixed)
    ensures |Format(x)| > 0
    ensures IsDigit(Format(x)[|Format(x)| - 1])
    ensures Format(x)[0] == '-' || IsDigit(Format(x)[0])
  {
    var d := TextOf(x);
    var tail := if |d.fraction| > 0 then "." + d.fraction else "";
    assert Format(x) == (if d.negative then "-" else "") + d.whole + tail;
    if |d.fraction| > 0 {
      assert Format(x)[|Format(x)| - 1] == d.fraction[|d.fraction| - 1];
    } else {
      assert Format(x)[|Format(x)| - 1] == d.whole[|d.whole| - 1];
    }
  }

  // ---- truncation algebra ----

  /** A common factor of dividend and divisor does not change a truncated quotient. */
  lemma TruncDivCancel(a: int, d: nat, c: nat)
    requires d > 0 && c > 0
    ensures TruncDiv(a * c, d * c) == TruncDiv(a, d)
  {
    var n := Abs(a);
    NatDivCancel(n, d, c);
    assert Abs(a * c) == n * c;
  }

  lemma NatDivCancel(n: nat, d: nat, c: nat)
    requires d > 0 && c > 0
    ensures (n * c) / (d * c) == n / d
  {
    var q, r := n / d, n % d;
    assert n == d * q + r;
    assert n * c == (d * c) * q + r * c by {
      MulAdd(c, d * q, r);
      MulAssoc(d, c, q);
    }
    assert r * c < d * c by {
      MulLe(c, r, d - 1);
      MulSub(c, d, 1);
    }
    DivModUnique(n * c, d * c, q, r * c);
  }

  /** Cutting toward zero twice is cutting once by the product. */
  lemma TruncDivCompose(a: int, d1: nat, d2: nat)
    requires d1 > 0 && d2 > 0
    ensures TruncDiv(TruncDiv(a, d1), d2) == TruncDiv(a, d1 * d2)
  {
    var n := Abs(a);
    QuotientNonNegative(n, d1);
    var q: nat := n / d1;
    DivDiv(n, d1, d2);
    assert q / d2 == n / (d1 * d2);
    if a >= 0 {
      assert TruncDiv(a, d1) == q;
    } else {
      assert TruncDiv(a, d1) == -(q as int);
      if q == 0 {
        assert n / (d1 * d2) == 0;
      }
    }
  }

  /** Re-expressing `x` at a finer scale does not change any truncation of it. */
  lemma TruncateRescaled(m: int, k: nat, j: nat, t: nat)
    ensures Truncate(Fixed(m * Pow10(j), k + j), t) == Truncate(Fixed(m, k), t)
  {
    Pow10Add(k, j);
    TruncDivCancel(m * Pow10(t), Pow10(k), Pow10(j));
    MulAssoc(m, Pow10(j), Pow10(t));
    MulAssoc(m, Pow10(t), Pow10(j));
  }

  /** Truncating to `t1` digits and then to `t2 <= t1` digits is truncating to `t2` digits. */
  lemma TruncateTwice(x: Fixed, t1: nat, t2: nat)
    requires t2 <= t1
    ensures Truncate(Truncate(x, t1), t2) == Truncate(x, t2)
  {
    var j := t1 - t2;
    var y := TruncDiv(x.mantissa * Pow10(t1), Pow10(x.scale));
    Pow10Add(t2, j);
    // Truncate(Truncate(x, t1), t2).mantissa == TruncDiv(y * 10^t2, 10^t1) == TruncDiv(y, 10^j)
    assert Pow10(t1) == Pow10(j) * Pow10(t2);
    TruncDivCancel(y, Pow10(j), Pow10(t2));
    // == TruncDiv(x.m * 10^t1, 10^k * 10^j)
    TruncDivCompose(x.mantissa * Pow10(t1), Pow10(x.scale), Pow10(j));
    // == TruncDiv(x.m * 10^t2 * 10^j, 10^k * 10^j) == TruncDiv(x.m * 10^t2, 10^k)
    MulAssoc(x.mantissa, Pow10(t2), Pow10(j));
    TruncDivCancel(x.mantissa * Pow10(t2), Pow10(x.scale), Pow10(j));
  }

  /** A value that already has `t` digits is unchanged by truncation to `t` digits. */
  lemma TruncateSameScale(x: Fixed)
    ensures Truncate(x, x.scale) == x
  {
    var p := Pow10(x.scale);
    TruncDivCancel(x.mantissa, 1, p);
  }

  /** `bcmul(x, 10^t, 0)` on a value with `t` digits yields its mantissa. */
  lemma MulByScaleFactor(x: Fixed)
    ensures Mul(x, Fixed(Pow10(x.scale), 0), 0) == Fixed(x.mantissa, 0)
  {
    var p := Pow10(x.scale);
    TruncDivCancel(x.mantissa, 1, p);
  }
}
