/** Greatest common divisors, Euclid's lemma and truncated division. */
module Divisibility {

  function Abs(a: int): nat { if a < 0 then -a else a }

  ghost predicate Divides(d: int, a: int) {
    exists k: int :: Multiple(d, k, a)
  }

  ghost predicate Multiple(d: int, k: int, a: int) { a == d * k }

  /** `BigInteger.GreatestCommonDivisor` on absolute values. */
  function Gcd(a: nat, b: nat): nat
    decreases b
  {
    if b == 0 then a else Gcd(b, a % b)
  }

  lemma MulAssoc(a: int, b: int, c: int)
    ensures (a * b) * c == a * (b * c)
  {
  }

  lemma MulDistrib(a: int, b: int, c: int)
    ensures a * (b + c) == a * b + a * c
  {
  }

  lemma DividesSum(d: int, a: int, b: int, q: int)
    requires Divides(d, a) && Divides(d, b)
    ensures Divides(d, a * q + b)
  {
    var k :| Multiple(d, k, a);
    var l :| Multiple(d, l, b);
    MulAssoc(d, k, q);
    MulDistrib(d, k * q, l);
    assert Multiple(d, k * q + l, a * q + b);
  }

  lemma DividesSelf(a: int)
    ensures Divides(a, a) && Divides(a, 0)
  {
    assert Multiple(a, 1, a);
    assert Multiple(a, 0, 0);
  }

  lemma {:induction false} GcdDivides(a: nat, b: nat)
    ensures Divides(Gcd(a, b), a) && Divides(Gcd(a, b), b)
    ensures Gcd(a, b) == 0 <==> a == 0 && b == 0
    decreases b
  {
    hide Divides;
    if b > 0 {
      GcdDivides(b, a % b);
      DividesSum(Gcd(a, b), b, a % b, a / b);
      assert b * (a / b) + a % b == a;
    } else {
      DividesSelf(a);
    }
  }

  /** The common divisor is an integer combination of the arguments. */
  lemma {:induction false} Bezout(a: nat, b: nat) returns (u: int, v: int)
    ensures u * a + v * b == Gcd(a, b)
    decreases b
  {
    if b > 0 {
      var u', v' := Bezout(b, a % b);
      u, v := v', u' - v' * (a / b);
      BezoutStep(a, b, a / b, a % b, u', v');
    } else {
      u, v := 1, 0;
    }
  }

  lemma BezoutStep(a: int, b: int, q: int, r: int, u: int, v: int)
    requires a == b * q + r
    ensures v * a + (u - v * q) * b == u * b + v * r
  {
    MulDistrib(v, b * q, r);
    assert v * (b * q) == (v * q) * b;
    assert (u - v * q) * b == u * b - (v * q) * b;
  }

  /** Euclid's lemma. */
  lemma EuclidsLemma(a: nat, b: nat, c: int)
    requires Gcd(a, b) == 1 && Divides(a, b * c)
    ensures Divides(a, c)
  {
    var u, v := Bezout(a, b);
    var k :| Multiple(a, k, b * c);
    Combine(u, v, a, b, c, k);
    assert Multiple(a, u * c + v * k, c);
  }

  lemma Combine(u: int, v: int, a: int, b: int, c: int, k: int)
    requires u * a + v * b == 1 && b * c == a * k
    ensures c == a * (u * c + v * k)
  {
    assert c == (u * a + v * b) * c;
    assert (u * a + v * b) * c == (u * a) * c + (v * b) * c;
    MulAssoc(v, b, c);
    assert v * (a * k) == a * (v * k);
    assert (u * a) * c == a * (u * c);
    MulDistrib(a, u * c, v * k);
  }

  lemma {:induction false} GcdSymmetric(a: nat, b: nat)
    ensures Gcd(a, b) == Gcd(b, a)
  {
    if a < b {
      SmallMod(a, b);
    } else if b < a {
      SmallMod(b, a);
    }
  }

  lemma SmallMod(a: nat, b: nat)
    requires a < b
    ensures Gcd(a, b) == Gcd(b, a)
  {
    assert a % b == a;
  }

  lemma ProductNonNegative(a: int, b: int)
    requires a >= 0 && b >= 0
    ensures a * b >= 0
  {
  }

  /** A positive multiple comes from a positive factor. */
  lemma FactorPositive(g: int, m: int)
    requires g > 0 && g * m > 0
    ensures m > 0
  {
    if m <= 0 {
      ProductNonNegative(g, -m);
    }
  }

  /** A positive number is at least as big as its positive divisors. */
  lemma DividesBound(a: nat, b: nat)
    requires a > 0 && b > 0 && Divides(a, b)
    ensures a <= b
  {
    var k :| Multiple(a, k, b);
    FactorPositive(a, k);
    ProductNonNegative(a, k - 1);
  }

  /** Distinct multiples of `g` are at least `g` apart. */
  lemma MultiplesApart(g: int, m: int)
    requires g > 0 && -g < g * m < g
    ensures m == 0
  {
    if m >= 1 {
      ProductNonNegative(g, m - 1);
    } else if m <= -1 {
      ProductNonNegative(g, -m - 1);
    }
  }

  lemma ExactQuotient(a: nat, g: nat) returns (q: nat)
    requires g > 0 && Divides(g, a)
    ensures q == a / g && a == q * g
  {
    var k :| Multiple(g, k, a);
    q := a / g;
    assert a == g * q + a % g;
    MulDistrib(g, q, k - q);
    MultiplesApart(g, k - q);
  }

  /** Dividing out the common divisor leaves coprime numbers. */
  lemma Reduced(a: nat, b: nat) returns (g: nat, p: nat, q: nat)
    requires a > 0 || b > 0
    ensures g == Gcd(a, b) > 0 && p == a / g && q == b / g
    ensures a == p * g && b == q * g && Gcd(p, q) == 1
  {
    g := Gcd(a, b);
    GcdDivides(a, b);
    p := ExactQuotient(a, g);
    q := ExactQuotient(b, g);
    var u, v := Bezout(a, b);
    Coprime(u, v, g, p, q);
  }

  /** If a common divisor of two multiples of it is a combination of them, then the quotients are
      coprime. */
  lemma Coprime(u: int, v: int, g: nat, p: nat, q: nat)
    requires g > 0 && u * (p * g) + v * (q * g) == g
    ensures Gcd(p, q) == 1
  {
    hide *;
    CancelCombination(u, v, g, p, q);
    CommonDivisorOfOne(u, v, p, q);
  }

  lemma CancelCombination(u: int, v: int, g: nat, p: nat, q: nat)
    requires g > 0 && u * (p * g) + v * (q * g) == g
    ensures u * p + v * q == 1
  {
    MulAssoc(u, p, g);
    MulAssoc(v, q, g);
    MulDistrib(g, u * p, v * q);
    Cancel(u * p + v * q, 1, g);
  }

  lemma CommonDivisorOfOne(u: int, v: int, p: nat, q: nat)
    requires u * p + v * q == 1
    ensures Gcd(p, q) == 1
  {
    hide Gcd;
    GcdDivides(p, q);
    var p' :| Multiple(Gcd(p, q), p', p);
    var q' :| Multiple(Gcd(p, q), q', q);
    UnitDivisor(u, v, Gcd(p, q), p, q, p', q');
  }

  lemma UnitDivisor(u: int, v: int, e: nat, p: int, q: int, p': int, q': int)
    requires u * p + v * q == 1 && p == e * p' && q == e * q'
    ensures e == 1
  {
    var w := u * p' + v * q';
    assert u * (e * p') == e * (u * p') && v * (e * q') == e * (v * q');
    MulDistrib(e, u * p', v * q');
    assert e * w == 1;
    if e > 1 {
      MultiplesApart(e, w);
    }
  }

  lemma Cancel(a: int, b: int, g: int)
    requires g != 0 && a * g == b * g
    ensures a == b
  {
    assert (a - b) * g == 0;
  }

  // --- Truncated division, as in .NET ---

  function TDiv(n: int, d: int): int
    requires d != 0
  {
    if (n < 0) == (d < 0) then Abs(n) / Abs(d) else -(Abs(n) / Abs(d))
  }

  function TRem(n: int, d: int): int
    requires d != 0
  {
    if n < 0 then -(Abs(n) % Abs(d)) else Abs(n) % Abs(d)
  }

  /** Quotient and remainder: the remainder is smaller than the divisor and has the sign of the
      dividend. */
  lemma TDivRem(n: int, d: int)
    requires d != 0
    ensures n == TDiv(n, d) * d + TRem(n, d)
    ensures Abs(TRem(n, d)) < Abs(d)
    ensures TRem(n, d) != 0 ==> (TRem(n, d) < 0 <==> n < 0)
  {
    var q, r := Abs(n) / Abs(d), Abs(n) % Abs(d);
    QuotientAndRest(Abs(n), Abs(d), q, r);
    WithSigns(n, d, q, r);
  }

  lemma WithSigns(n: int, d: int, q: int, r: int)
    requires d != 0 && Abs(n) == q * Abs(d) + r
    ensures n == (if (n < 0) == (d < 0) then q else -q) * d + if n < 0 then -r else r
  {
    if d < 0 {
      Signs(-d, q);
    } else {
      Signs(d, q);
    }
  }

  lemma QuotientAndRest(n: nat, d: nat, q: nat, r: nat)
    requires d > 0 && q == n / d && r == n % d
    ensures n == q * d + r && r < d
  {
  }

  lemma Signs(d: int, q: int)
    ensures (-q) * d == -(q * d) && q * (-d) == -(q * d)
  {
  }
}
