/** Conversion of exact rationals to and from 96-bit scaled decimals. */
module DecimalConversion {
  import opened Numbers
  import opened Divisibility
  import opened Fractions
  import opened BigRational

  const MAX_COEFFICIENT: int := 79228162514264337593543950335

  const MAX_SCALE: int := 28

  /** A decimal: a 96-bit coefficient over a power of ten. */
  datatype Decimal = Decimal(coefficient: int, scale: nat)

  /** Coefficients have 96 bits. */
  lemma CoefficientIs()
    ensures MAX_COEFFICIENT == Pow2(96) - 1
  {
    hide Pow2, Shl;
    assert Pow2(6) == 64 by {
      SixBits();
    }
    ShlPow2(6, 6);
    ShlIsMul(Pow2(6), 6);
    ShlPow2(12, 12);
    ShlIsMul(Pow2(12), 12);
    ShlPow2(24, 24);
    ShlIsMul(Pow2(24), 24);
    ShlPow2(48, 48);
    ShlIsMul(Pow2(48), 48);
  }

  lemma SixBits()
    ensures Pow2(6) == 64
  {
    assert Pow2(3) == 8;
  }

  predicate Fits(v: int) { -MAX_COEFFICIENT <= v <= MAX_COEFFICIENT }

  function Pow10(n: nat): (p: nat)
    ensures p > 0
  {
    if n == 0 then 1 else Pow10(n - 1) * 10
  }

  function DecimalValue(d: Decimal): real {
    d.coefficient as real / Pow10(d.scale) as real
  }

  /** The value times ten to the `s`, truncated. */
  function Scaled(x: Rational, s: nat): int { TDiv(x.num * Pow10(s), x.den) }

  // --- Iterated truncation ---

  lemma NestedQuotient(n: nat, d: nat, e: nat)
    requires d > 0 && e > 0
    ensures d * e > 0 && n / d / e == n / (d * e)
  {
    var q, r := n / d, n % d;
    var q', r' := q / e, q % e;
    RegroupQuotient(n, d, e, q, r, q', r');
    DivUnique(n, d * e, q', d * r' + r);
  }

  lemma RegroupQuotient(n: int, d: int, e: int, q: int, r: int, q': int, r': int)
    requires n == d * q + r && q == e * q' + r' && 0 <= r < d && 0 <= r' < e
    ensures d * e > 0 && n == (d * e) * q' + (d * r' + r) && 0 <= d * r' + r < d * e
  {
    MulDistrib(d, e * q', r');
    MulAssoc(d, e, q');
    MulMono(r', e - 1, d);
    MulDistrib(d, e, -1);
    MulMono(0, r', d);
  }

  lemma ScaledQuotient(n: nat, d: nat, e: nat)
    requires d > 0 && e > 0
    ensures d * e > 0 && (n * e) / (d * e) == n / d
  {
    var q, r := n / d, n % d;
    RegroupScaled(n, d, e, q, r);
    DivUnique(n * e, d * e, q, r * e);
  }

  lemma RegroupScaled(n: int, d: int, e: int, q: int, r: int)
    requires n == d * q + r && 0 <= r < d && e > 0
    ensures d * e > 0 && n * e == (d * e) * q + r * e && 0 <= r * e < d * e
  {
    MulMono(r + 1, d, e);
    MulMono(0, r, e);
  }

  /** Dividing a scaled value by ten, with truncation again, lowers the scale by one. */
  lemma ScaledStep(x: Rational, s: nat)
    ensures TDiv(Scaled(x, s + 1), 10) == Scaled(x, s)
    ensures Abs(Scaled(x, s)) <= Abs(Scaled(x, s + 1))
    ensures Fits(Scaled(x, s + 1)) ==> Fits(Scaled(x, s))
  {
    hide Gcd;
    var n := x.num * Pow10(s);
    TenTimes(x.num, Pow10(s));
    DivStep(n, x.den);
  }

  lemma DivStep(n: int, d: nat)
    requires d > 0
    ensures TDiv(TDiv(n * 10, d), 10) == TDiv(n, d)
    ensures Abs(TDiv(n, d)) <= Abs(TDiv(n * 10, d))
  {
    hide TDiv;
    NestedQuotient(Abs(n) * 10, d, 10);
    ScaledQuotient(Abs(n), d, 10);
    DivSize(n * 10, d);
    DivSize(n, d);
    DivSize(TDiv(n * 10, d), 10);
    DivIsSmaller(Abs(TDiv(n * 10, d)), 10);
  }

  /** The size and the sign of a quotient by a positive number determine it. */
  lemma DivSize(n: int, d: nat)
    requires d > 0
    ensures Abs(TDiv(n, d)) == Abs(n) / d
    ensures if n < 0 then TDiv(n, d) <= 0 else TDiv(n, d) >= 0
  {
    DivIsSmaller(Abs(n), d);
  }

  lemma DivIsSmaller(n: nat, d: nat)
    requires d > 0
    ensures 0 <= n / d <= n
  {
    if n < n / d {
      MulMono(1, d, n / d);
    }
  }

  lemma TenTimes(a: int, p: int)
    ensures a * (p * 10) == a * p * 10
  {
  }

  lemma {:induction false} FitsDown(x: Rational, s: nat, t: nat)
    requires s <= t && Fits(Scaled(x, t))
    ensures Fits(Scaled(x, s))
  {
    hide Scaled, Gcd;
    if s < t {
      ScaledStep(x, t - 1);
      FitsDown(x, s, t - 1);
    }
  }

  lemma {:induction false} VanishesDown(x: Rational, s: nat, t: nat)
    requires s <= t && Scaled(x, t) == 0
    ensures Scaled(x, s) == 0
  {
    hide Scaled, Gcd;
    if s < t {
      ScaledStep(x, t - 1);
      VanishesDown(x, s, t - 1);
    }
  }

  // --- The conversion ---

  /** The truncated value with the most decimal places that fit, or plain zero if no place has a
      digit. */
  ghost predicate KeepsMostDigits(x: Rational, d: Decimal) {
    && d.scale <= 28 && Fits(d.coefficient) && d.coefficient == Scaled(x, d.scale)
    && if Scaled(x, 28) == 0 then d == Decimal(0, 0)
       else forall t: nat :: d.scale < t <= 28 ==> !Fits(Scaled(x, t))
  }

  /** The scaling path: divides by ten until the coefficient fits. */
  method ScaleToFit(x: Rational) returns (r: Result<Decimal>)
    ensures r.Ok? <==> Fits(WholePart(x))
    ensures r.Err? ==> r.error == OverflowError
    ensures r.Ok? ==> KeepsMostDigits(x, r.value)
  {
    hide Scaled, Gcd, Pow10, WholePart;
    WholeIsScaled(x);
    ScaledIs(x, MAX_SCALE);
    var denormalized := TDiv(x.num * Pow10(MAX_SCALE), x.den);
    if denormalized == 0 {
      VanishesDown(x, 0, MAX_SCALE);
      return Ok(Decimal(0, 0));
    }
    var scale := MAX_SCALE;
    while scale >= 0
      invariant -1 <= scale <= MAX_SCALE
      invariant scale >= 0 ==> denormalized == Scaled(x, scale)
      invariant forall t: nat :: scale < t <= MAX_SCALE ==> !Fits(Scaled(x, t))
    {
      if !Fits(denormalized) {
        if scale > 0 {
          ScaledStep(x, scale - 1);
        }
        denormalized := TDiv(denormalized, 10);
      } else {
        FitsDown(x, 0, scale);
        return Ok(Decimal(denormalized, scale));
      }
      scale := scale - 1;
    }
    return Err(OverflowError);
  }

  lemma WholeIsScaled(x: Rational)
    ensures WholePart(x) == Scaled(x, 0)
  {
    assert x.num * Pow10(0) == x.num;
  }

  lemma ScaledIs(x: Rational, s: nat)
    ensures Scaled(x, s) == TDiv(x.num * Pow10(s), x.den)
  {
  }

  /** The conversion operator. `quotient` is the platform's own decimal division, taken when both
      parts fit a decimal as they are. */
  method ToDecimal(x: Rational, quotient: (int, int) -> Decimal) returns (r: Result<Decimal>)
    ensures Fits(x.num) && Fits(x.den) ==> r == Ok(quotient(x.num, x.den))
    ensures !(Fits(x.num) && Fits(x.den)) ==>
      && (r == Err(OverflowError) <==> !Fits(WholePart(x)))
      && (r.Ok? <==> Fits(WholePart(x)))
      && (r.Ok? ==> KeepsMostDigits(x, r.value) && WithinOneUnit(x, r.value))
  {
    hide WithinOneUnit, Scaled, Gcd, Pow10, WholePart;
    if Fits(x.num) && Fits(x.den) {
      return Ok(quotient(x.num, x.den));
    }
    r := ScaleToFit(x);
    if r.Ok? {
      ScaledIsClose(x, r.value);
    }
  }

  /** Within one unit of the last decimal place. */
  predicate WithinOneUnit(x: Rational, d: Decimal) {
    var unit := 1.0 / Pow10(d.scale) as real;
    -unit < Val(x) - DecimalValue(d) < unit
  }

  lemma ScaledIsClose(x: Rational, d: Decimal)
    requires d.coefficient == Scaled(x, d.scale)
    ensures WithinOneUnit(x, d)
  {
    hide Scaled, DecimalValue, WithinOneUnit, Val, Trunc, Gcd, Pow10;
    var p := Pow10(d.scale);
    var w := Val(x) * p as real;
    ScaledValue(x, d.scale, w);
    TruncIsClose(w);
    Unscale(Val(x), d.coefficient as real, p as real, w);
    Unfold(x, d);
  }

  lemma Unfold(x: Rational, d: Decimal)
    ensures DecimalValue(d) == d.coefficient as real / Pow10(d.scale) as real
    ensures var unit := 1.0 / Pow10(d.scale) as real;
      WithinOneUnit(x, d) <==> -unit < Val(x) - DecimalValue(d) < unit
  {
  }

  lemma ScaledValue(x: Rational, s: nat, w: real)
    requires w == Val(x) * Pow10(s) as real
    ensures Scaled(x, s) == Trunc(w)
  {
    hide Gcd, Pow10, Trunc;
    var p := Pow10(s);
    TDivIsTrunc(x.num * p, x.den);
    RealScaled(x.num as real, x.den as real, p as real);
    RealOfProduct(x.num, p);
    assert (x.num * p) as real / x.den as real == w;
  }

  lemma RealOfProduct(a: int, b: int)
    ensures (a * b) as real == a as real * b as real
  {
  }

  lemma RealScaled(n: real, d: real, p: real)
    requires d != 0.0
    ensures n * p / d == n / d * p
  {
  }

  lemma TruncIsClose(w: real)
    ensures -1.0 < w - Trunc(w) as real < 1.0
  {
  }

  lemma Unscale(v: real, c: real, p: real, w: real)
    requires p > 0.0 && w == v * p && -1.0 < w - c < 1.0
    ensures -(1.0 / p) < v - c / p < 1.0 / p
  {
    var e := v * p - c;
    assert v - c / p == e / p;
    RealCrossLess(e, p, 1.0, p);
    RealCrossLess(-1.0, p, e, p);
  }

  /** The constructor from a decimal is exact. */
  function FromDecimal(d: Decimal): (r: Rational)
    ensures Val(r) == DecimalValue(d)
  {
    if d.coefficient == 0 then
      Vanishes(d);
      Zero
    else Reduce(d.coefficient, Pow10(d.scale))
  }

  lemma Vanishes(d: Decimal)
    ensures d.coefficient == 0 <==> DecimalValue(d) == 0.0
  {
    QuotientSign(d.coefficient, Pow10(d.scale));
  }
}
