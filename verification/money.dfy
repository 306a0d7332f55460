/**
 * Fixed-point money arithmetic of app/Support/Money.php: parsing and
 * validating decimal strings, half-up rounding, conversion to and from
 * integer minor units, and multiplication by an exchange rate. All of it is
 * string work plus the bcmath functions of module BcMath.
 */
module Money {
  import opened Wrappers
  import opened Digits
  import opened Text
  import opened DecimalSyntax
  import opened BcMath

  datatype MoneyError =
    /** `InvalidArgumentException` thrown by the Money class itself. */
    | InvalidArgument(message: string)
    /** PHP's `ValueError` from bcmath for an operand outside the decimal pattern. */
    | NotWellFormed
    /** PHP's `ValueError` from `str_repeat` for a negative count. */
    | NegativeRepeat

  /** The `string|int` argument of `toDecimalString` and `decimalToMinorUnits`; floats are not modelled. */
  datatype Amount = IntAmount(i: int) | StringAmount(s: string)

  const ScaleError := InvalidArgument("Scale must be >= 0")

  // ---- rounding ----

  /** `'0.' . str_repeat('0', $scale) . '5'`: half a unit in the last place kept. */
  function HalfUnitText(scale: nat): string {
    "0." + Zeros(scale) + "5"
  }

  lemma HalfUnitValue(scale: nat)
    ensures Parse(HalfUnitText(scale)).Some?
    ensures Read(HalfUnitText(scale)) == Fixed(5, scale + 1)
  {
    var fraction := Zeros(scale) + "5";
    var d := Numeral(false, "0", fraction);
    HalfUnitDigits(scale);
    HalfUnitRender(scale);
    ParseRender(d);
  }

  lemma HalfUnitRender(scale: nat)
    ensures Render(Numeral(false, "0", Zeros(scale) + "5")) == HalfUnitText(scale)
  {
    var fraction := Zeros(scale) + "5";
    assert "" + "0" + ("." + fraction) == "0." + Zeros(scale) + "5";
  }

  lemma HalfUnitDigits(scale: nat)
    ensures AllDigits(Zeros(scale) + "5") && AllDigits("0" + (Zeros(scale) + "5"))
    ensures DigitsToNat("0" + (Zeros(scale) + "5")) == 5
  {
    assert AllDigits("5");
    LeadingZeros(scale, "5");
    assert "0" + (Zeros(scale) + "5") == Zeros(scale + 1) + "5";
    LeadingZeros(scale + 1, "5");
    assert DigitsToNat("5") == DigitsToNat("") * 10 + 5;
  }

  /**
   * The algorithm of `roundHalfUp` on a number already read: test the sign at
   * `scale + 3` digits, move half a unit away from zero, cut to `scale + 1`
   * digits, then cut to `scale` digits.
   */
  function RoundHalfUpFixed(x: Fixed, scale: nat): Fixed {
    HalfUnitValue(scale);
    var precision := scale + 1;
    var halfUnit := Read(HalfUnitText(scale));
    var isNegative := Compare(x, Zero, precision + 2) < 0;
    var adjusted := if isNegative then Sub(x, halfUnit, precision) else Add(x, halfUnit, precision);
    Add(adjusted, Zero, scale)
  }

  /**
   * The reference meaning of half-up rounding: the multiple of `10^-scale`
   * nearest to `x`, ties going away from zero.
   */
  function HalfAwayFromZero(x: Fixed, scale: nat): (r: Fixed)
    ensures r.scale == scale
  {
    Fixed(SignedNearest(x.mantissa, Pow10(x.scale), Pow10(scale)), scale)
  }

  /** `floor(N / D + 1/2)`: the integer nearest to `N / D`, halves going up. */
  function NearestQuotient(N: nat, D: nat): nat
    requires D > 0
  {
    (2 * N + D) / (2 * D)
  }

  /** The integer nearest to `m * S / D`, halves going away from zero. */
  function SignedNearest(m: int, D: nat, S: nat): int
    requires D > 0
  {
    var q: int := NearestQuotient(Abs(m) * S, D);
    if m < 0 then -q else q
  }

  /**
   * The source's algorithm is exact half-away-from-zero rounding, for every
   * number and scale. In particular the shortened sign test (only `scale + 3`
   * digits are compared) never changes the result: a negative number that
   * tests as non-negative is smaller than a thousandth of a unit and rounds
   * to zero either way.
   */
  lemma RoundHalfUpIsHalfAwayFromZero(x: Fixed, s: nat)
    ensures RoundHalfUpFixed(x, s) == HalfAwayFromZero(x, s)
  {
    var m, k := x.mantissa, x.scale;
    var D, S := Pow10(k), Pow10(s);
    HalfUnitValue(s);
    var half := Fixed(5, s + 1);
    // the sign test
    assert Pow10(s + 3) == 1000 * S by {
      Pow10Add(s, 3);
      assert Pow10(3) == 1000;
    }
    var isNeg := Compare(x, Zero, s + 3) < 0;
    assert isNeg <==> TruncDiv(m * (1000 * S), D) < 0;
    // the value after the half unit is added or taken away, cut to s + 1 digits
    assert Pow10(s + 1) == 10 * S;
    var e := m * (10 * S) + (if isNeg then -5 else 5) * D;
    var exact := Fixed(e, k + s + 1);
    var adjusted := if isNeg then Sub(x, half, s + 1) else Add(x, half, s + 1);
    assert adjusted == Truncate(exact, s + 1);
    // the final `bcadd($adjusted, '0', $scale)` cuts once more
    assert Add(adjusted, Zero, s) == Truncate(adjusted, s);
    TruncateTwice(exact, s + 1, s);
    assert Pow10(k + s + 1) == (10 * D) * S by {
      Pow10Add(k, s + 1);
      MulAssoc(D, 10, S);
    }
    HalfStep(m, D, S, isNeg);
  }

  /** The arithmetic core of the rounding proof, on plain integers. */
  lemma HalfStep(m: int, D: nat, S: nat, neg: bool)
    requires D > 0 && S > 0
    requires neg <==> TruncDiv(m * (1000 * S), D) < 0
    ensures TruncDiv((m * (10 * S) + (if neg then -5 else 5) * D) * S, (10 * D) * S) == SignedNearest(m, D, S)
  {
    var M := m * S;
    var e := m * (10 * S) + (if neg then -5 else 5) * D;
    var e2 := 2 * M + (if neg then -1 else 1) * D;
    CutOnce(m, D, S, e, e2);
    if m >= 0 {
      assert !neg by {
        MulNonNeg(m, 1000 * S);
        TruncDivNonNeg(m * (1000 * S), D);
      }
      PositiveHalf(m, D, S);
    } else if neg {
      NegativeHalf(m, D, S);
    } else {
      TinyNegative(m, D, S);
    }
  }

  lemma CutOnce(m: int, D: nat, S: nat, e: int, e2: int)
    requires D > 0 && S > 0
    requires e == m * (10 * S) + 5 * (e2 - 2 * (m * S))
    ensures TruncDiv(e * S, (10 * D) * S) == TruncDiv(e2, 2 * D)
  {
    TruncDivCancel(e, 10 * D, S);
    assert e == e2 * 5 by { MulAssoc(m, 10, S); }
    TruncDivCancel(e2, 2 * D, 5);
  }

  lemma PositiveHalf(m: int, D: nat, S: nat)
    requires D > 0 && m >= 0
    ensures TruncDiv(2 * (m * S) + D, 2 * D) == SignedNearest(m, D, S)
  {
  }

  lemma NegativeHalf(m: int, D: nat, S: nat)
    requires D > 0 && m < 0
    ensures TruncDiv(2 * (m * S) - D, 2 * D) == SignedNearest(m, D, S)
  {
    var n := -m;
    assert m * S == -(n * S) by { NegMul(n, S); }
  }

  lemma TruncDivNonNeg(a: int, d: nat)
    requires a >= 0 && d > 0
    ensures TruncDiv(a, d) >= 0
  {
  }

  lemma MulNonNeg(a: int, b: int)
    requires a >= 0 && b >= 0
    ensures a * b >= 0
  {
  }

  /** A negative number whose sign test at three extra digits comes out non-negative rounds to zero either way. */
  lemma TinyNegative(m: int, D: nat, S: nat)
    requires D > 0 && m < 0 && S > 0
    requires TruncDiv(m * (1000 * S), D) >= 0
    ensures TruncDiv(2 * (m * S) + D, 2 * D) == 0
    ensures SignedNearest(m, D, S) == 0
  {
    var n := -m;
    var N := n * S;
    assert m * S == -N by { NegMul(n, S); }
    assert m * (1000 * S) == -(1000 * N) by { MulAssoc(m, 1000, S); NegMul(n, S); }
    assert (1000 * N) / D == 0;
    assert 2 * N < D;
    DivModUnique(D - 2 * N, 2 * D, 0, D - 2 * N);
    DivModUnique(2 * N + D, 2 * D, 0, 2 * N + D);
  }

  /**
   * `r`, at scale `s`, lies within half a unit of `x`, and exactly half a
   * unit away only when it is further from zero than `x`.
   */
  predicate WithinHalf(x: Fixed, r: Fixed, s: nat) {
    2 * Abs(r.mantissa * Pow10(x.scale) - x.mantissa * Pow10(s)) <= Pow10(x.scale) &&
    (2 * Abs(r.mantissa * Pow10(x.scale) - x.mantissa * Pow10(s)) == Pow10(x.scale) ==>
      Abs(r.mantissa) * Pow10(x.scale) > Abs(x.mantissa) * Pow10(s))
  }

  /** Half-up rounding lands within half a unit of the input, and exactly half a unit only by moving away from zero. */
  lemma WithinHalfUnit(x: Fixed, s: nat)
    ensures WithinHalf(x, HalfAwayFromZero(x, s), s)
  {
    SignedNearestBound(x.mantissa, Pow10(x.scale), Pow10(s));
  }

  lemma SignedNearestBound(m: int, D: nat, S: nat)
    requires D > 0
    ensures 2 * Abs(SignedNearest(m, D, S) * D - m * S) <= D
    ensures 2 * Abs(SignedNearest(m, D, S) * D - m * S) == D ==> Abs(SignedNearest(m, D, S)) * D > Abs(m) * S
  {
    var n := Abs(m);
    var N := n * S;
    var q := NearestQuotient(N, D);
    NearestBound(N, D);
    if m < 0 {
      assert SignedNearest(m, D, S) * D - m * S == -(q * D - N) by {
        NegMul(q, D);
        NegMul(n, S);
      }
    }
  }

  lemma NearestBound(N: nat, D: nat)
    requires D > 0
    ensures 2 * Abs(NearestQuotient(N, D) * D - N) <= D
    ensures 2 * Abs(NearestQuotient(N, D) * D - N) == D ==> NearestQuotient(N, D) * D > N
  {
    var q := NearestQuotient(N, D);
    var rem := (2 * N + D) % (2 * D);
    var A := q * D;
    assert (2 * D) * q == 2 * A;
    assert 2 * N + D == 2 * A + rem;
  }

  /** A number already written with `s` digits is its own rounding at `s` digits. */
  lemma HalfAwayOfExact(x: Fixed)
    ensures HalfAwayFromZero(x, x.scale) == x
  {
    var n := Abs(x.mantissa);
    var D := Pow10(x.scale);
    assert 2 * (n * D) + D == (2 * D) * n + D;
    DivModUnique(2 * (n * D) + D, 2 * D, n, D);
  }

  /** Rounding is idempotent: rounding a rounded number again changes nothing. */
  lemma HalfAwayIdempotent(x: Fixed, s: nat)
    ensures HalfAwayFromZero(HalfAwayFromZero(x, s), s) == HalfAwayFromZero(x, s)
  {
    HalfAwayOfExact(HalfAwayFromZero(x, s));
  }

  /**
   * Cutting toward zero to more digits than are kept before rounding half-up
   * does not change the rounding (the discarded digits lie below the half-unit
   * test).
   */
  lemma HalfAwayAfterTruncate(x: Fixed, t: nat, s: nat)
    requires s < t
    ensures HalfAwayFromZero(Truncate(x, t), s) == HalfAwayFromZero(x, s)
  {
    if t >= x.scale {
      var j := t - x.scale;
      TruncateExtends(x, j);
      HalfAwayScaled(x, j, s);
    } else {
      HalfAwayAfterCut(x, t, s);
    }
  }

  /** Truncating to more digits than a number has only appends zeros. */
  lemma TruncateExtends(x: Fixed, j: nat)
    ensures Truncate(x, x.scale + j) == Fixed(x.mantissa * Pow10(j), x.scale + j)
  {
    Pow10Add(x.scale, j);
    TruncDivScaled(x.mantissa, Pow10(x.scale), Pow10(j));
  }

  lemma TruncDivScaled(m: int, D: nat, J: nat)
    requires D > 0
    ensures TruncDiv(m * (D * J), D) == m * J
  {
    var a := m * J;
    assert m * (D * J) == a * D by {
      MulAssoc(m, D, J);
      MulAssoc(m, J, D);
    }
    TruncDivCancel(a, 1, D);
  }

  /** Writing a number with more trailing zeros does not change its rounding. */
  lemma HalfAwayScaled(x: Fixed, j: nat, s: nat)
    ensures HalfAwayFromZero(Fixed(x.mantissa * Pow10(j), x.scale + j), s) == HalfAwayFromZero(x, s)
  {
    var n := Abs(x.mantissa);
    var D, S, J := Pow10(x.scale), Pow10(s), Pow10(j);
    assert Pow10(x.scale + j) == D * J by { Pow10Add(x.scale, j); }
    assert Abs(x.mantissa * J) == n * J by { if x.mantissa < 0 { NegMul(n, J); } }
    assert (n * J) * S == (n * S) * J by { MulAssoc(n, J, S); MulAssoc(n, S, J); }
    NearestCancel(n * S, D, J);
  }

  lemma NearestCancel(N: nat, D: nat, J: nat)
    requires D > 0 && J > 0
    ensures NearestQuotient(N * J, D * J) == NearestQuotient(N, D)
  {
    assert 2 * (N * J) + D * J == (2 * N + D) * J;
    assert 2 * (D * J) == (2 * D) * J;
    NatDivCancel(2 * N + D, 2 * D, J);
  }

  lemma HalfAwayAfterCut(x: Fixed, t: nat, s: nat)
    requires s < t < x.scale
    ensures HalfAwayFromZero(Truncate(x, t), s) == HalfAwayFromZero(x, s)
  {
    var j := x.scale - t;
    var S, T, J := Pow10(s), Pow10(t), Pow10(j);
    var F := 5 * Pow10(t - s - 1);
    assert T == S * (2 * F) by { Pow10Add(s, t - s); }
    assert Pow10(x.scale) == J * T by { Pow10Add(t, j); }
    TruncDivCancel(x.mantissa, J, T);
    SignedNearestAfterCut(x.mantissa, J, S, F);
  }

  lemma SignedNearestAfterCut(m: int, J: nat, S: nat, F: nat)
    requires J > 0 && S > 0 && F > 0
    ensures SignedNearest(TruncDiv(m, J), S * (2 * F), S) == SignedNearest(m, J * (S * (2 * F)), S)
  {
    var c := TruncDiv(m, J);
    var T: nat := S * (2 * F);
    CutMagnitude(m, J, S, F);
    if c == 0 {
      assert Abs(c) * S == 0;
      assert NearestQuotient(0, T) == 0;
    }
    SameSignedNearest(c, m, T, J * T, S);
  }

  lemma CutMagnitude(m: int, J: nat, S: nat, F: nat)
    requires J > 0 && S > 0 && F > 0
    ensures NearestQuotient(Abs(TruncDiv(m, J)) * S, S * (2 * F)) == NearestQuotient(Abs(m) * S, J * (S * (2 * F)))
  {
    var n := Abs(m);
    var T := S * (2 * F);
    TruncDivMagnitude(m, J);
    NearestAfterCut(n, J, S, F);
    assert T * J == J * T;
  }

  lemma TruncDivMagnitude(m: int, J: nat)
    requires J > 0
    ensures Abs(TruncDiv(m, J)) == Abs(m) / J
  {
    if m < 0 {
      var q := (-m) / J;
      assert q >= 0 && TruncDiv(m, J) == -q;
    }
  }

  /** Two signed nearest quotients agree when their magnitudes do and their signs do (or the magnitude is zero). */
  lemma SameSignedNearest(a: int, b: int, Da: nat, Db: nat, S: nat)
    requires Da > 0 && Db > 0
    requires NearestQuotient(Abs(a) * S, Da) == NearestQuotient(Abs(b) * S, Db)
    requires (a < 0) == (b < 0) || NearestQuotient(Abs(a) * S, Da) == 0
    ensures SignedNearest(a, Da, S) == SignedNearest(b, Db, S)
  {
  }

  /** `floor(floor(n / J) * S / T + 1/2) == floor(n * S / (T * J) + 1/2)` when `T` is an even multiple of `S`. */
  lemma NearestAfterCut(n: nat, J: nat, S: nat, F: nat)
    requires J > 0 && S > 0 && F > 0
    ensures NearestQuotient(n / J * S, S * (2 * F)) == NearestQuotient(n * S, S * (2 * F) * J)
  {
    var u := n / J;
    NearestOfMultiple(u, S, F);
    NearestOfScaled(n, J, S, F);
    ShiftQuotient(n, J, F);
    DivDiv(n + F * J, J, 2 * F);
  }

  /** Adding `F` whole multiples of `J` adds `F` to the quotient. */
  lemma ShiftQuotient(n: nat, J: nat, F: nat)
    requires J > 0
    ensures (n + F * J) / J == n / J + F
  {
    var u, r := n / J, n % J;
    assert n + F * J == J * (u + F) + r;
    DivModUnique(n + F * J, J, u + F, r);
  }

  /** Rounding `u * S / (2 * F * S)` to the nearest integer is `(u + F) / (2 * F)`. */
  lemma NearestOfMultiple(u: nat, S: nat, F: nat)
    requires S > 0 && F > 0
    ensures NearestQuotient(u * S, S * (2 * F)) == (u + F) / (2 * F)
  {
    var T := S * (2 * F);
    assert 2 * (u * S) + T == (u + F) * (2 * S);
    assert 2 * T == (2 * F) * (2 * S);
    NatDivCancel(u + F, 2 * F, 2 * S);
  }

  /** Rounding `n * S / (2 * F * S * J)` to the nearest integer is `(n + F * J) / (J * 2 * F)`. */
  lemma NearestOfScaled(n: nat, J: nat, S: nat, F: nat)
    requires J > 0 && S > 0 && F > 0
    ensures NearestQuotient(n * S, S * (2 * F) * J) == (n + F * J) / (J * (2 * F))
  {
    var T := S * (2 * F);
    assert 2 * (n * S) + T * J == (n + F * J) * (2 * S);
    assert 2 * (T * J) == (2 * F * J) * (2 * S);
    NatDivCancel(n + F * J, 2 * F * J, 2 * S);
    assert 2 * F * J == J * (2 * F);
  }

  // ---- the public operations ----

  /**
   * `roundHalfUp($decimal, $scale)`. Operands outside the money pattern are
   * reported as bcmath's "not well-formed" error.
   */
  function RoundHalfUp(decimal: string, scale: int): (r: Result<string, MoneyError>)
    ensures scale < 0 ==> r == Err(ScaleError)
    ensures scale >= 0 && Parse(decimal).None? ==> r == Err(NotWellFormed)
    ensures scale >= 0 && Parse(decimal).Some? ==> r.Ok?
    ensures r.Ok? ==> scale >= 0 && Parse(decimal).Some? && Parse(r.value).Some?
    ensures r.Ok? ==> |Parse(r.value).value.fraction| == scale
    ensures r.Ok? ==> Read(r.value) == HalfAwayFromZero(Read(decimal), scale)
  {
    if scale < 0 then
      Err(ScaleError)
    else if Parse(decimal).None? then
      Err(NotWellFormed)
    else
      var x := Read(decimal);
      RoundHalfUpIsHalfAwayFromZero(x, scale);
      ReadFormat(HalfAwayFromZero(x, scale));
      Ok(Format(RoundHalfUpFixed(x, scale)))
  }

  /** `number_format($i, $decimals, '.', '')` of an integer; a negative count of decimals is treated as zero. */
  function NumberFormat(i: int, decimals: int): (r: string)
    ensures var d := if decimals < 0 then 0 else decimals;
      Parse(r).Some? && Read(r) == Fixed(i * Pow10(d), d)
  {
    var d := if decimals < 0 then 0 else decimals;
    ReadFormat(Fixed(i * Pow10(d), d));
    Format(Fixed(i * Pow10(d), d))
  }

  /** `toDecimalString($value, $scale)` for integer and string arguments. */
  function ToDecimalString(value: Amount, scale: int): (r: Result<string, MoneyError>)
    ensures r.Ok? ==> Parse(r.value).Some?
    ensures r.Ok? && scale >= 0 ==> Read(r.value).scale == scale
    ensures value.IntAmount? ==> r.Ok? && Read(r.value) == Fixed(value.i * Pow10(Nat(scale)), Nat(scale))
    ensures value.StringAmount? && Parse(Trim(value.s)).None? ==>
      r == Err(InvalidArgument("Invalid decimal value: " + Trim(value.s)))
    ensures value.StringAmount? && Parse(Trim(value.s)).Some? ==>
      (r.Ok? <==> scale >= 0) && (r.Ok? ==> Read(r.value) == HalfAwayFromZero(Read(Trim(value.s)), scale))
  {
    match value
    case IntAmount(i) => Ok(NumberFormat(i, scale))
    case StringAmount(s) =>
      var stringValue := Trim(s);
      if Parse(stringValue).None? then
        Err(InvalidArgument("Invalid decimal value: " + stringValue))
      else
        RoundHalfUp(stringValue, scale)
  }

  /** A negative scale read as zero. */
  function Nat(i: int): nat {
    if i < 0 then 0 else i
  }

  /** `multiplier($scale)`: "1" followed by `scale` zeros; `str_repeat` refuses a negative count. */
  function Multiplier(scale: int): (r: Result<string, MoneyError>)
    ensures scale < 0 <==> r == Err(NegativeRepeat)
    ensures r.Ok? ==> Parse(r.value).Some? && Read(r.value) == Fixed(Pow10(scale), 0)
  {
    if scale < 0 then
      Err(NegativeRepeat)
    else
      MultiplierValue(scale);
      Ok("1" + Zeros(scale))
  }

  lemma MultiplierValue(scale: nat)
    ensures Parse("1" + Zeros(scale)).Some?
    ensures Read("1" + Zeros(scale)) == Fixed(Pow10(scale), 0)
  {
    var w := "1" + Zeros(scale);
    var d := Numeral(false, w, "");
    OneThenZeros(scale);
    RenderWhole(d);
    ParseRender(d);
    assert ValueOf(d) == Fixed(Pow10(scale), 0) by {
      assert d.whole + d.fraction == w;
    }
  }

  lemma RenderWhole(d: Numeral)
    requires !d.negative && d.fraction == ""
    ensures Render(d) == d.whole
  {
    assert Render(d) == "" + d.whole + "";
  }

  /** `decimalToMinorUnits($value, $scale)`: the amount rounded half-up to `scale` digits, counted in units of `10^-scale`. */
  function DecimalToMinorUnits(value: Amount, scale: int): (r: Result<int, MoneyError>)
    ensures scale < 0 ==> r.Err?
    ensures value.IntAmount? && scale >= 0 ==> r == Ok(value.i * Pow10(scale))
    ensures value.StringAmount? && scale >= 0 ==>
      (r.Ok? <==> Parse(Trim(value.s)).Some?) &&
      (r.Ok? ==> r.value == HalfAwayFromZero(Read(Trim(value.s)), scale).mantissa)
  {
    var decimal :- ToDecimalString(value, scale);
    var multiplier :- Multiplier(scale);
    var x := Read(decimal);
    MulByScaleFactor(x);
    Ok(Mul(x, Read(multiplier), 0).mantissa)
  }

  /** `minorUnitsToDecimalString($minorUnits, $scale)`, including PHP's `substr` behaviour for a negative scale. */
  function MinorUnitsToDecimalString(minor: int, scale: int): string {
    var decimal := UnsignedDecimal(NatToDigits(Abs(minor)), scale);
    if minor < 0 then "-" + decimal else decimal
  }

  /** The digits of the magnitude with the point placed `scale` digits from the right. */
  function UnsignedDecimal(absolute: string, scale: int): string {
    if scale == 0 then
      absolute
    else
      var padded := if |absolute| <= scale then PadLeft(absolute, scale + 1) else absolute;
      // substr($padded, 0, -$scale) and substr($padded, -$scale)
      var cut := if scale > 0 then |padded| - scale else if -scale < |padded| then -scale else |padded|;
      padded[..cut] + "." + padded[cut..]
  }

  /**
   * For a non-negative scale the serialiser prints exactly what bcmath prints
   * for `minor / 10^scale`: a sign only for negative numbers, the integer
   * digits without leading zeros ("0" when there are none), and then, unless
   * the scale is zero, a point and exactly `scale` zero-padded digits.
   */
  lemma MinorUnitsIsCanonical(minor: int, scale: nat)
    ensures MinorUnitsToDecimalString(minor, scale) == Format(Fixed(minor, scale))
  {
    var n := Abs(minor);
    var u := UnsignedDecimal(NatToDigits(n), scale);
    assert MinorUnitsToDecimalString(minor, scale) == if minor < 0 then "-" + u else u;
    var d := TextOf(Fixed(minor, scale));
    var tail := if |d.fraction| > 0 then "." + d.fraction else "";
    UnsignedIsCanonical(n, scale);
    assert u == d.whole + tail by {
      assert |d.fraction| == scale;
    }
    assert Format(Fixed(minor, scale)) == (if minor < 0 then "-" else "") + d.whole + tail;
    SignedConcat(minor < 0, u, d.whole, tail);
  }

  lemma SignedConcat(negative: bool, u: string, whole: string, tail: string)
    requires u == whole + tail
    ensures (if negative then "-" + u else u) == (if negative then "-" else "") + whole + tail
  {
    if negative {
      assert "-" + (whole + tail) == "-" + whole + tail;
    } else {
      assert "" + whole + tail == whole + tail;
    }
  }

  lemma UnsignedIsCanonical(n: nat, scale: nat)
    ensures UnsignedDecimal(NatToDigits(n), scale) == CanonicalUnsigned(n, scale)
  {
    if scale == 0 {
      DivModUnique(n, Pow10(0), n, 0);
    } else if |NatToDigits(n)| <= scale {
      SmallMagnitude(n, scale);
    } else {
      LargeMagnitude(n, scale);
    }
  }

  /** The digits bcmath prints for `n / 10^scale`, without a sign. */
  function CanonicalUnsigned(n: nat, scale: nat): string {
    var p := Pow10(scale);
    QuotientNonNegative(n, p);
    NatToDigits(n / p) + (if scale > 0 then "." + LowDigits(n, scale) else "")
  }

  /** A magnitude with at most `scale` digits is printed as "0." and its zero-padded digits. */
  lemma SmallMagnitude(n: nat, scale: nat)
    requires 0 < scale && |NatToDigits(n)| <= scale
    ensures UnsignedDecimal(NatToDigits(n), scale) == CanonicalUnsigned(n, scale)
  {
    var padded := PadLeft(NatToDigits(n), scale + 1);
    PaddedSmall(n, scale);
    assert UnsignedDecimal(NatToDigits(n), scale) == padded[..1] + "." + padded[1..];
    assert padded[..1] == "0" && padded[1..] == LowDigits(n, scale);
    CanonicalSmall(n, scale);
  }

  lemma PaddedSmall(n: nat, scale: nat)
    requires |NatToDigits(n)| <= scale
    ensures PadLeft(NatToDigits(n), scale + 1) == "0" + LowDigits(n, scale)
  {
    var digits := NatToDigits(n);
    var k := scale - |digits|;
    assert PadLeft(digits, scale + 1) == Zeros(k + 1) + digits;
    ZerosCons(k);
    assert Zeros(k + 1) + digits == "0" + (Zeros(k) + digits);
    PaddedIsLowDigits(n, scale);
  }

  lemma ZerosCons(k: nat)
    ensures Zeros(k + 1) == "0" + Zeros(k)
  {
    assert forall i :: 0 <= i < k + 1 ==> Zeros(k + 1)[i] == ("0" + Zeros(k))[i];
  }

  lemma CanonicalSmall(n: nat, scale: nat)
    requires 0 < scale && |NatToDigits(n)| <= scale
    ensures CanonicalUnsigned(n, scale) == "0." + LowDigits(n, scale)
  {
    ShortIsSmall(n, scale);
    assert NatToDigits(0) == "0";
  }

  /** A magnitude with more than `scale` digits is split `scale` digits from its right end. */
  lemma LargeMagnitude(n: nat, scale: nat)
    requires 0 < scale < |NatToDigits(n)|
    ensures UnsignedDecimal(NatToDigits(n), scale) == CanonicalUnsigned(n, scale)
  {
    LongIsLarge(n, scale);
    NatToDigitsSplit(n, scale);
  }

  /** What the serialiser prints reads back as `minor / 10^scale`, with exactly `scale` fractional digits. */
  lemma MinorUnitsReadBack(minor: int, scale: nat)
    ensures var s := MinorUnitsToDecimalString(minor, scale);
      Parse(s).Some? && Read(s) == Fixed(minor, scale) && |Parse(s).value.fraction| == scale &&
      Parse(s).value.negative == (minor < 0)
  {
    MinorUnitsIsCanonical(minor, scale);
    ReadFormat(Fixed(minor, scale));
  }

  /** The rate as `toDecimalString($rate, 8)` reads it: rounded half-up to 8 digits. */
  function RateAt8(rate: string): (r: Fixed)
    requires Parse(Trim(rate)).Some?
    ensures r.scale == 8
  {
    HalfAwayFromZero(Read(Trim(rate)), 8)
  }

  /** `toDecimalString($rate, 8)` succeeds on a valid rate and prints exactly the value `RateAt8` reads. */
  lemma RateAt8IsNormalized(rate: string)
    requires Parse(Trim(rate)).Some?
    ensures ToDecimalString(StringAmount(rate), 8) == Ok(Format(RateAt8(rate)))
  {
    RoundHalfUpIsHalfAwayFromZero(Read(Trim(rate)), 8);
  }

  /** `multiplyMinorByRate($minorUnits, $rate, $scale)`. */
  function MultiplyMinorByRate(minor: int, rate: string, scale: int): (r: Result<int, MoneyError>)
    ensures Parse(Trim(rate)).None? ==> r == Err(InvalidArgument("Invalid decimal value: " + Trim(rate)))
    ensures Parse(Trim(rate)).Some? && scale < 0 ==> r == Err(ScaleError)
    ensures Parse(Trim(rate)).Some? && scale >= 0 ==> r.Ok?
    ensures r.Ok? ==> scale >= 0 && Parse(Trim(rate)).Some?
  {
    var normalizedRate :- ToDecimalString(StringAmount(rate), 8);
    if scale < 0 then
      // bcmul accepts the amount text printed for a negative scale; roundHalfUp then rejects the scale
      Err(ScaleError)
    else
      var amount := MinorUnitsToDecimalString(minor, scale);
      MinorUnitsReadBack(minor, scale);
      Ok(MultiplyTexts(amount, normalizedRate, scale))
  }

  /** With a valid rate and a non-negative scale, the result is the 12-digit product of amount and rate, rounded half-up to `scale` digits. */
  lemma MultiplyMinorByRateValue(minor: int, rate: string, scale: nat)
    requires Parse(Trim(rate)).Some?
    ensures MultiplyMinorByRate(minor, rate, scale).Ok?
    ensures MultiplyMinorByRate(minor, rate, scale).value
         == HalfAwayFromZero(Mul(Fixed(minor, scale), RateAt8(rate), 12), scale).mantissa
  {
    var normalized := ToDecimalString(StringAmount(rate), 8);
    assert normalized.Ok? && Read(normalized.value) == RateAt8(rate);
    var amount := MinorUnitsToDecimalString(minor, scale);
    MinorUnitsReadBack(minor, scale);
    var v := MultiplyTexts(amount, normalized.value, scale);
    assert v == HalfAwayFromZero(Mul(Fixed(minor, scale), RateAt8(rate), 12), scale).mantissa;
    assert MultiplyMinorByRate(minor, rate, scale) == Ok(v);
  }

  /** The steps of `multiplyMinorByRate` after the rate is validated and the amount printed, for a scale `roundHalfUp` accepts. */
  function MultiplyTexts(amount: string, normalizedRate: string, scale: nat): (r: int)
    requires Parse(amount).Some? && Parse(normalizedRate).Some?
    ensures r == HalfAwayFromZero(Mul(Read(amount), Read(normalizedRate), 12), scale).mantissa
  {
    var p := Mul(Read(amount), Read(normalizedRate), 12);
    ReadFormat(p);
    var product := Format(p);
    var rounded := RoundHalfUp(product, scale).value;
    var multiplier := Multiplier(scale).value;
    MinorUnitsOf(rounded, scale);
    Mul(Read(rounded), Read(multiplier), 0).mantissa
  }

  /** `bcmul($decimal, multiplier($scale), 0)` on a decimal with `scale` digits: its digits read as an integer. */
  lemma MinorUnitsOf(decimal: string, scale: nat)
    requires Parse(decimal).Some? && Read(decimal).scale == scale
    ensures Mul(Read(decimal), Read(Multiplier(scale).value), 0).mantissa == Read(decimal).mantissa
  {
    MulByScaleFactor(Read(decimal));
  }

  // ---- properties relating the operations ----

  /** Every minor amount survives printing and parsing back: `decimalToMinorUnits(minorUnitsToDecimalString(m, s), s) == m`. */
  lemma MinorUnitsRoundTrip(minor: int, scale: nat)
    ensures DecimalToMinorUnits(StringAmount(MinorUnitsToDecimalString(minor, scale)), scale) == Ok(minor)
  {
    MinorUnitsIsCanonical(minor, scale);
    FormatRoundTrip(Fixed(minor, scale));
  }

  /** Any number bcmath prints converts back to its own mantissa at its own scale. */
  lemma FormatRoundTrip(x: Fixed)
    ensures DecimalToMinorUnits(StringAmount(Format(x)), x.scale) == Ok(x.mantissa)
  {
    var text := Format(x);
    FormatHasNoBlankEnds(x);
    TrimUnchanged(text);
    ReadFormat(x);
    HalfAwayOfExact(x);
    ConvertsUntrimmed(text, x.scale);
  }

  lemma ConvertsUntrimmed(text: string, scale: nat)
    requires Trim(text) == text && Parse(text).Some?
    ensures DecimalToMinorUnits(StringAmount(text), scale) == Ok(HalfAwayFromZero(Read(text), scale).mantissa)
  {
  }

  /** The other direction: printing the minor units of a decimal gives its half-up rounding to `scale` digits. */
  lemma MinorUnitsOfRounded(value: string, scale: nat)
    requires Parse(Trim(value)).Some?
    ensures DecimalToMinorUnits(StringAmount(value), scale).Ok?
    ensures MinorUnitsToDecimalString(DecimalToMinorUnits(StringAmount(value), scale).value, scale)
         == RoundHalfUp(Trim(value), scale).value
  {
    var x := HalfAwayFromZero(Read(Trim(value)), scale);
    MinorUnitsIsCanonical(x.mantissa, scale);
    RoundHalfUpIsHalfAwayFromZero(Read(Trim(value)), scale);
  }

  /** The rounded string lies within half a unit of the last kept place of the input, and ties go away from zero. */
  lemma RoundHalfUpWithinHalfUnit(decimal: string, scale: nat)
    requires Parse(decimal).Some?
    ensures RoundHalfUp(decimal, scale).Ok?
    ensures WithinHalf(Read(decimal), Read(RoundHalfUp(decimal, scale).value), scale)
  {
    var x := Read(decimal);
    assert Read(RoundHalfUp(decimal, scale).value) == HalfAwayFromZero(x, scale);
    WithinHalfUnit(x, scale);
  }

  /** `roundHalfUp` is idempotent: rounding its own output again at the same scale returns that output. */
  lemma RoundHalfUpIdempotent(decimal: string, scale: nat)
    requires Parse(decimal).Some?
    ensures RoundHalfUp(decimal, scale).Ok?
    ensures RoundHalfUp(RoundHalfUp(decimal, scale).value, scale) == RoundHalfUp(decimal, scale)
  {
    var x := Read(decimal);
    var once := RoundHalfUp(decimal, scale).value;
    var y := RoundHalfUpFixed(x, scale);
    assert once == Format(y);
    ReadFormat(y);
    RoundHalfUpIsHalfAwayFromZero(x, scale);
    RoundHalfUpIsHalfAwayFromZero(y, scale);
    HalfAwayIdempotent(x, scale);
  }

  /**
   * For scales up to 11 the 12-digit intermediate product loses nothing that
   * matters: the result is the exact product of the amount and the rate
   * rounded to 8 digits, itself rounded half-up to `scale` digits.
   */
  lemma MultiplyIsRoundedProduct(minor: int, rate: string, scale: nat)
    requires Parse(Trim(rate)).Some? && scale < 12
    ensures MultiplyMinorByRate(minor, rate, scale).Ok?
    ensures MultiplyMinorByRate(minor, rate, scale).value
         == HalfAwayFromZero(Fixed(minor * RateAt8(rate).mantissa, scale + 8), scale).mantissa
  {
    MultiplyMinorByRateValue(minor, rate, scale);
    RoundedProductAt12(minor, RateAt8(rate), scale);
  }

  /** Rounding the 12-digit truncation of amount times rate gives the same as rounding the exact product. */
  lemma RoundedProductAt12(minor: int, rate: Fixed, scale: nat)
    requires rate.scale == 8 && scale < 12
    ensures HalfAwayFromZero(Mul(Fixed(minor, scale), rate, 12), scale)
         == HalfAwayFromZero(Fixed(minor * rate.mantissa, scale + 8), scale)
  {
    var exact := Fixed(minor * rate.mantissa, scale + 8);
    assert Mul(Fixed(minor, scale), rate, 12) == Truncate(exact, 12);
    HalfAwayAfterTruncate(exact, 12, scale);
  }
}

/** Worked examples of the money operations, as the source's tests state them. */
module MoneyExamples {
  import opened Wrappers
  import opened Digits
  import opened Text
  import opened DecimalSyntax
  import opened BcMath
  import opened Money

  /** Reading a literal whose digits, point removed, are the canonical digits of `v`. */
  lemma ReadLiteral(d: Numeral, s: string, z: nat, v: nat)
    requires WellFormed(d) && Render(d) == s && d.whole + d.fraction == Zeros(z) + NatToDigits(v)
    ensures Parse(s).Some? && Read(s) == Fixed(if d.negative then -(v as int) else v, |d.fraction|)
  {
    LeadingZeros(z, NatToDigits(v));
    ParseRender(d);
  }

  lemma Read1005()
    ensures Parse("1.005").Some? && Read("1.005") == Fixed(1005, 3)
  {
    assert NatToDigits(1) == "1";
    NatToDigitsAppend(1, 0);
    NatToDigitsAppend(10, 0);
    NatToDigitsAppend(100, 5);
    assert Zeros(0) == "";
    ReadLiteral(Numeral(false, "1", "005"), "1.005", 0, 1005);
  }

  lemma Format101()
    ensures Format(Fixed(101, 2)) == "1.01"
  {
    assert Pow10(2) == 100;
    assert LowDigits(101, 2) == "01";
    assert NatToDigits(1) == "1";
  }

  lemma RoundTieUp()
    ensures RoundHalfUp("1.005", 2) == Ok("1.01")
  {
    Read1005();
    assert Pow10(2) == 100 && Pow10(3) == 1000;
    assert HalfAwayFromZero(Fixed(1005, 3), 2) == Fixed(101, 2);
    Format101();
    RoundHalfUpIsHalfAwayFromZero(Fixed(1005, 3), 2);
  }

  lemma Read1004()
    ensures Parse("1.004").Some? && Read("1.004") == Fixed(1004, 3)
  {
    assert NatToDigits(1) == "1";
    NatToDigitsAppend(1, 0);
    NatToDigitsAppend(10, 0);
    NatToDigitsAppend(100, 4);
    assert Zeros(0) == "";
    ReadLiteral(Numeral(false, "1", "004"), "1.004", 0, 1004);
  }

  lemma Format100()
    ensures Format(Fixed(100, 2)) == "1.00"
  {
    assert Pow10(2) == 100;
    assert LowDigits(100, 2) == "00";
    assert NatToDigits(1) == "1";
  }

  lemma RoundBelowTieDown()
    ensures RoundHalfUp("1.004", 2) == Ok("1.00")
  {
    Read1004();
    assert Pow10(2) == 100 && Pow10(3) == 1000;
    assert HalfAwayFromZero(Fixed(1004, 3), 2) == Fixed(100, 2);
    Format100();
    RoundHalfUpIsHalfAwayFromZero(Fixed(1004, 3), 2);
  }

  lemma Read12345()
    ensures Parse("123.45").Some? && Read("123.45") == Fixed(12345, 2)
  {
    assert NatToDigits(1) == "1";
    NatToDigitsAppend(1, 2);
    NatToDigitsAppend(12, 3);
    NatToDigitsAppend(123, 4);
    NatToDigitsAppend(1234, 5);
    assert Zeros(0) == "";
    ReadLiteral(Numeral(false, "123", "45"), "123.45", 0, 12345);
  }

  lemma DecimalToMinorExample()
    ensures DecimalToMinorUnits(StringAmount("123.45"), 2) == Ok(12345)
  {
    Read12345();
    assert Trim("123.45") == "123.45" by { TrimUnchanged("123.45"); }
    HalfAwayOfExact(Fixed(12345, 2));
  }

  lemma RateDigits()
    ensures NatToDigits(1234567) == "1234567"
  {
    assert NatToDigits(1) == "1";
    NatToDigitsAppend(1, 2);
    NatToDigitsAppend(12, 3);
    NatToDigitsAppend(123, 4);
    NatToDigitsAppend(1234, 5);
    NatToDigitsAppend(12345, 6);
    NatToDigitsAppend(123456, 7);
  }

  lemma ReadRate()
    ensures Parse("0.01234567").Some? && Read("0.01234567") == Fixed(1234567, 8)
  {
    RateDigits();
    assert Zeros(2) == "00";
    ReadLiteral(Numeral(false, "0", "01234567"), "0.01234567", 2, 1234567);
  }

  lemma RateAt8Example()
    ensures Parse(Trim("0.01234567")).Some? && RateAt8("0.01234567") == Fixed(1234567, 8)
  {
    ReadRate();
    TrimUnchanged("0.01234567");
    HalfAwayOfExact(Fixed(1234567, 8));
  }

  lemma ProductRounding()
    ensures HalfAwayFromZero(Fixed(150000 * 1234567, 10), 2) == Fixed(1852, 2)
  {
    assert Pow10(2) == 100;
    assert Pow10(10) == 10000000000;
    assert 150000 * 1234567 == 185185050000;
  }

  /** 1500.00 roubles at 0.01234567 dollars per rouble are 18.52 dollars: 1852 cents. */
  lemma MultiplyExample()
    ensures MultiplyMinorByRate(150000, "0.01234567", 2) == Ok(1852)
  {
    RateAt8Example();
    MultiplyIsRoundedProduct(150000, "0.01234567", 2);
    ProductRounding();
  }

  lemma PrintExample()
    ensures MinorUnitsToDecimalString(1852, 2) == "18.52"
  {
    Digits1852();
    assert "1852"[..2] == "18" && "1852"[2..] == "52";
  }

  lemma Digits1852()
    ensures NatToDigits(1852) == "1852"
  {
    assert NatToDigits(1) == "1";
    NatToDigitsAppend(1, 8);
    NatToDigitsAppend(18, 5);
    NatToDigitsAppend(185, 2);
  }

  lemma PrintPaddedExample()
    ensures MinorUnitsToDecimalString(5, 2) == "0.05"
  {
    assert NatToDigits(5) == "5";
    assert PadLeft("5", 3) == "005";
    assert "005"[..1] == "0" && "005"[1..] == "05";
  }

}
