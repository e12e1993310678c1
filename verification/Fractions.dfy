/** Facts about quotients of integers as real numbers. */
module Fractions {
  import opened Divisibility

  lemma CrossEqual(a: int, b: int, c: int, d: int)
    requires b != 0 && d != 0
    ensures a * d == c * b <==> a as real / b as real == c as real / d as real
  {
    RealCrossEqual(a as real, b as real, c as real, d as real);
  }

  lemma RealCrossEqual(a: real, b: real, c: real, d: real)
    requires b != 0.0 && d != 0.0
    ensures a * d == c * b <==> a / b == c / d
  {
  }

  lemma CrossLess(a: int, b: int, c: int, d: int)
    requires b > 0 && d > 0
    ensures a * d < c * b <==> a as real / b as real < c as real / d as real
  {
    RealCrossLess(a as real, b as real, c as real, d as real);
  }

  lemma RealCrossLess(a: real, b: real, c: real, d: real)
    requires b > 0.0 && d > 0.0
    ensures a * d < c * b <==> a / b < c / d
  {
  }

  lemma QuotientSign(a: int, b: int)
    requires b > 0
    ensures a < 0 <==> a as real / b as real < 0.0
    ensures a == 0 <==> a as real / b as real == 0.0
  {
    CrossLess(a, b, 0, 1);
    CrossEqual(a, b, 0, 1);
  }

  lemma QuotientSum(a: int, b: int, c: int, d: int)
    requires b != 0 && d != 0
    ensures b * d != 0
    ensures (a * d + b * c) as real / (b * d) as real == a as real / b as real + c as real / d as real
  {
    RealSum(a as real, b as real, c as real, d as real);
  }

  lemma RealSum(a: real, b: real, c: real, d: real)
    requires b != 0.0 && d != 0.0
    ensures b * d != 0.0 && (a * d + b * c) / (b * d) == a / b + c / d
  {
  }

  lemma QuotientDifference(a: int, b: int, c: int, d: int)
    requires b != 0 && d != 0
    ensures b * d != 0
    ensures (a * d - b * c) as real / (b * d) as real == a as real / b as real - c as real / d as real
  {
    QuotientSum(a, b, -c, d);
  }

  lemma QuotientProduct(a: int, b: int, c: int, d: int)
    requires b != 0 && d != 0
    ensures b * d != 0
    ensures (a * c) as real / (b * d) as real == (a as real / b as real) * (c as real / d as real)
  {
    RealProduct(a as real, b as real, c as real, d as real);
  }

  lemma RealProduct(a: real, b: real, c: real, d: real)
    requires b != 0.0 && d != 0.0
    ensures b * d != 0.0 && (a * c) / (b * d) == (a / b) * (c / d)
  {
  }

  lemma QuotientRatio(a: int, b: int, c: int, d: int)
    requires b != 0 && c != 0 && d != 0
    ensures b * c != 0 && c as real / d as real != 0.0
    ensures (a * d) as real / (b * c) as real == (a as real / b as real) / (c as real / d as real)
  {
    RealRatio(a as real, b as real, c as real, d as real);
  }

  lemma RealRatio(a: real, b: real, c: real, d: real)
    requires b != 0.0 && c != 0.0 && d != 0.0
    ensures b * c != 0.0 && c / d != 0.0 && (a * d) / (b * c) == (a / b) / (c / d)
  {
  }

  lemma QuotientNegated(a: int, b: int)
    requires b != 0
    ensures (-a) as real / b as real == -(a as real / b as real)
  {
  }

  lemma QuotientInverse(a: int, b: int)
    requires a != 0 && b != 0
    ensures (b as real / a as real) * (a as real / b as real) == 1.0
  {
  }

  lemma RealField(x: real, y: real, inverse: real)
    requires y != 0.0 && inverse * y == 1.0
    ensures x * y / y == x && x / y == x * inverse && x / y * y == x
  {
  }

  lemma Associates(x: real, y: real, z: real)
    ensures (x * y) * z == x * (y * z)
  {
  }

  lemma QuotientScale(a: int, b: int, c: int)
    requires b != 0 && c != 0
    ensures b * c != 0 && (a * c) as real / (b * c) as real == a as real / b as real
  {
    RealScale(a as real, b as real, c as real);
  }

  lemma RealScale(a: real, b: real, c: real)
    requires b != 0.0 && c != 0.0
    ensures b * c != 0.0 && (a * c) / (b * c) == a / b
  {
  }

  // --- Truncation toward zero ---

  function Trunc(v: real): int {
    if v >= 0.0 then v.Floor else -((-v).Floor)
  }

  /** Integer division truncates the real quotient. */
  lemma TDivIsTrunc(n: int, d: int)
    requires d != 0
    ensures TDiv(n, d) == Trunc(n as real / d as real)
  {
    FloorOfQuotient(Abs(n), Abs(d));
    NegatedQuotient(n as real, d as real);
    SignOfQuotient(n as real, d as real);
  }

  lemma NegatedQuotient(n: real, d: real)
    requires d != 0.0
    ensures -n / -d == n / d && -n / d == -(n / d) && n / -d == -(n / d)
  {
  }

  lemma SignOfQuotient(n: real, d: real)
    requires d != 0.0
    ensures n / d < 0.0 <==> n != 0.0 && (n < 0.0) != (d < 0.0)
  {
    if d < 0.0 {
      NegatedQuotient(n, d);
      SignOverPositive(-n, -d);
    } else {
      SignOverPositive(n, d);
    }
  }

  lemma SignOverPositive(n: real, d: real)
    requires d > 0.0
    ensures n / d < 0.0 <==> n < 0.0
  {
  }

  lemma FloorOfQuotient(n: nat, d: nat)
    requires d > 0
    ensures (n as real / d as real).Floor == n / d
  {
    var q := n / d;
    QuotientBetween(n as real, d as real, q as real);
  }

  lemma QuotientBetween(n: real, d: real, q: real)
    requires d > 0.0 && q * d <= n < q * d + d
    ensures q <= n / d < q + 1.0
  {
    RealCrossLess(n, d, q, 1.0);
    RealCrossLess(n, d, q + 1.0, 1.0);
  }

  lemma TRemValue(n: int, d: int, scale: int)
    requires d != 0 && scale != 0
    ensures TRem(n, d) as real / scale as real
      == n as real / scale as real - TDiv(n, d) as real * (d as real / scale as real)
  {
    hide *;
    TDivRem(n, d);
    RealRemainder(n as real, TDiv(n, d) as real, d as real, TRem(n, d) as real, scale as real);
  }

  lemma RealRemainder(n: real, q: real, d: real, r: real, scale: real)
    requires n == q * d + r && scale != 0.0
    ensures r / scale == n / scale - q * (d / scale)
  {
    assert q * (d / scale) == (q * d) / scale;
  }

  /** The remainder formula `(ad rem bc) / bd`. */
  lemma RemainderValue(a: int, b: int, c: int, d: int)
    requires b != 0 && c != 0 && d != 0
    ensures b * c != 0 && b * d != 0 && c as real / d as real != 0.0
    ensures TRem(a * d, b * c) as real / (b * d) as real
      == a as real / b as real
         - c as real / d as real * Trunc((a as real / b as real) / (c as real / d as real)) as real
  {
    hide *;
    QuotientRatio(a, b, c, d);
    QuotientScale(a, b, d);
    QuotientScale(c, d, b);
    CommuteProducts(b, c, d);
    TDivIsTrunc(a * d, b * c);
    TRemValue(a * d, b * c, b * d);
    Commute(c as real / d as real, TDiv(a * d, b * c) as real);
  }

  lemma CommuteProducts(b: int, c: int, d: int)
    ensures c * b == b * c && d * b == b * d
  {
  }

  lemma Commute(x: real, y: real)
    ensures x * y == y * x
  {
  }

  /** What is left of a quotient after its whole part. */
  lemma FractionValue(n: int, d: int)
    requires d != 0
    ensures TRem(n, d) as real / d as real == n as real / d as real - Trunc(n as real / d as real) as real
  {
    hide *;
    TRemValue(n, d, d);
    TDivIsTrunc(n, d);
    UnitQuotient(d as real, TDiv(n, d) as real);
  }

  lemma UnitQuotient(d: real, t: real)
    requires d != 0.0
    ensures t * (d / d) == t
  {
  }

  /** Taking off the truncated multiple leaves less than one divisor, signed like the dividend. */
  lemma RemainderBound(x: real, y: real)
    requires y != 0.0
    ensures var r := x - y * Trunc(x / y) as real;
      (if r < 0.0 then -r else r) < (if y < 0.0 then -y else y) && (r != 0.0 ==> (r < 0.0 <==> x < 0.0))
  {
    var t := Trunc(x / y) as real;
    var f := x / y - t;
    assert -1.0 < f < 1.0 && (f < 0.0 ==> x / y < 0.0) && (f > 0.0 ==> x / y > 0.0);
    SignOfQuotient(x, y);
    FractionTimes(x, y, t);
    ShrunkBy(y, f);
  }

  lemma FractionTimes(x: real, y: real, t: real)
    requires y != 0.0
    ensures x - y * t == y * (x / y - t)
  {
  }

  lemma ShrunkBy(y: real, f: real)
    requires y != 0.0 && -1.0 < f < 1.0
    ensures var r := y * f;
      && (if r < 0.0 then -r else r) < (if y < 0.0 then -y else y)
      && (r < 0.0 <==> f != 0.0 && (y < 0.0) != (f < 0.0)) && (r == 0.0 <==> f == 0.0)
  {
    if y < 0.0 {
      ShrunkByPositive(-y, -f, y * f);
    } else {
      ShrunkByPositive(y, f, y * f);
    }
  }

  lemma ShrunkByPositive(y: real, f: real, r: real)
    requires y > 0.0 && -1.0 < f < 1.0 && r == y * f
    ensures -y < r < y && (r < 0.0 <==> f < 0.0) && (r == 0.0 <==> f == 0.0)
  {
    StrictlyBelow(y, f, 1.0, r, y);
    StrictlyBelow(y, -1.0, f, -y, r);
    if f < 0.0 {
      StrictlyBelow(y, f, 0.0, r, 0.0);
    } else if f > 0.0 {
      StrictlyBelow(y, 0.0, f, 0.0, r);
    }
  }

  lemma StrictlyBelow(y: real, a: real, b: real, p: real, q: real)
    requires y > 0.0 && a < b && p == y * a && q == y * b
    ensures p < q
  {
    Positive(y, b - a);
    assert y * (b - a) == q - p;
  }

  lemma Positive(a: real, b: real)
    requires a > 0.0 && b > 0.0
    ensures a * b > 0.0
  {
  }
}
