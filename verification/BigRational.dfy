/** Exact rational arithmetic on unbounded integers: every value is kept in lowest terms with a
    positive denominator, so equality of numbers is identity of representations. */
module BigRational {
  import opened Divisibility
  import opened Fractions

  datatype Error = DivideByZero | ArgumentError | OverflowError

  datatype Result<T> = Ok(value: T) | Err(error: Error)

  datatype Rat = Rat(num: int, den: int)

  predicate Normal(r: Rat) { r.den > 0 && Gcd(Abs(r.num), r.den) == 1 }

  /** What the constructors and operators produce. */
  type Rational = r: Rat | Normal(r) witness Rat(0, 1)

  const Zero: Rational := Rat(0, 1)
  const One: Rational := Rat(1, 1)

  /** The number that a representation stands for. */
  function Val(r: Rat): real
    requires r.den != 0
  {
    r.num as real / r.den as real
  }

  // --- Lowest terms are unique ---

  /** Two representations in lowest terms of the same number are identical. */
  lemma SameValueIsIdentical(x: Rational, y: Rational)
    ensures x.num * y.den == y.num * x.den <==> Val(x) == Val(y)
    ensures Val(x) == Val(y) <==> x == y
  {
    CrossEqual(x.num, x.den, y.num, y.den);
    if x.num * y.den == y.num * x.den {
      DenominatorDivides(x, y);
      DenominatorDivides(y, x);
      DividesBound(x.den, y.den);
      DividesBound(y.den, x.den);
      Cancel(x.num, y.num, y.den);
    }
  }

  lemma DenominatorDivides(x: Rational, y: Rational)
    requires x.num * y.den == y.num * x.den
    ensures Divides(x.den, y.den)
  {
    hide Gcd;
    var s := if x.num < 0 then -y.num else y.num;
    assert Abs(x.num) * y.den == s * x.den;
    assert Multiple(x.den, s, Abs(x.num) * y.den);
    GcdSymmetric(Abs(x.num), x.den);
    EuclidsLemma(x.den, Abs(x.num), y.den);
  }

  // --- Construction ---

  /** `n / d` in lowest terms: both parts divided by their common divisor, signed like `d`. */
  function Reduce(n: int, d: int): (r: Rational)
    requires d != 0
    ensures Val(r) == n as real / d as real
  {
    ReducedParts(n, d);
    var g := Gcd(Abs(n), Abs(d));
    if d < 0 then Rat(TDiv(-n, g), Abs(d) / g) else Rat(TDiv(n, g), Abs(d) / g)
  }

  lemma ReducedParts(n: int, d: int)
    requires d != 0
    ensures Gcd(Abs(n), Abs(d)) > 0
    ensures var g := Gcd(Abs(n), Abs(d));
      var r := Rat(TDiv(if d < 0 then -n else n, g), Abs(d) / g);
      Normal(r) && Val(r) == n as real / d as real
  {
    hide Gcd, TDiv;
    var g, p, q := Reduced(Abs(n), Abs(d));
    assert g * q == Abs(d);
    FactorPositive(g, q);
    var m: int := if d < 0 then -n else n;
    var s: int := p;
    if m < 0 {
      s := -s;
    }
    SignedQuotient(m, p, g);
    MulAssoc(s, g, q);
    CrossEqual(s, q, m, Abs(d));
    CrossEqual(m, Abs(d), n, d);
  }

  lemma SignedQuotient(m: int, p: int, g: int)
    requires g > 0 && p >= 0 && Abs(m) == p * g && p == Abs(m) / g
    ensures TDiv(m, g) == (if m < 0 then -p else p) && Abs(TDiv(m, g)) == p
    ensures m == (if m < 0 then -p else p) * g
  {
    Signs(g, p);
  }

  /** The pair constructor, field by field as it assigns them. */
  method Construct(numerator: int, denominator: int) returns (r: Result<Rational>)
    ensures r == if denominator == 0 then Err(DivideByZero) else Ok(Reduce(numerator, denominator))
  {
    hide Gcd, Val;
    if denominator == 0 {
      return Err(DivideByZero);
    }
    var num, den;
    if numerator == 0 {
      num, den := 0, 1;
    } else if denominator < 0 {
      num, den := -numerator, -denominator;
    } else {
      num, den := numerator, denominator;
    }
    num, den := Simplify(num, den);
    ConstructAgrees(numerator, denominator);
    r := Ok(Rat(num, den));
  }

  lemma ConstructAgrees(n: int, d: int)
    requires d != 0
    ensures Reduce(n, d) == Reduce(if n == 0 then 0 else if d < 0 then -n else n, if n == 0 then 1 else Abs(d))
  {
    var n' := if n == 0 then 0 else if d < 0 then -n else n;
    var d' := if n == 0 then 1 else Abs(d);
    SameValueIsIdentical(Reduce(n, d), Reduce(n', d'));
  }

  /** Divides out the common divisor, if it is above one. */
  method Simplify(numerator: int, denominator: int) returns (num: int, den: int)
    requires denominator > 0
    ensures Rat(num, den) == Reduce(numerator, denominator)
  {
    hide Gcd, Val;
    num, den := numerator, denominator;
    if num == 0 {
      den := 1;
    }
    SimplifyAgrees(numerator, denominator);
    ReducedParts(num, den);
    var gcd := Gcd(Abs(num), Abs(den));
    if gcd > 1 {
      num := TDiv(num, gcd);
      den := TDiv(den, gcd);
    } else {
      DivideByOne(num);
      DivideByOne(den);
    }
  }

  lemma SimplifyAgrees(n: int, d: int)
    requires d > 0
    ensures Reduce(n, d) == Reduce(n, if n == 0 then 1 else d)
  {
    SameValueIsIdentical(Reduce(n, d), Reduce(n, if n == 0 then 1 else d));
  }

  lemma DivideByOne(n: int)
    ensures TDiv(n, 1) == n
  {
  }

  /** The integer constructor. */
  function FromInteger(n: int): (r: Rational)
    ensures Val(r) == n as real
  {
    GcdWithOne(Abs(n));
    Rat(n, 1)
  }

  lemma GcdWithOne(n: nat)
    ensures Gcd(n, 1) == 1
  {
    assert n % 1 == 0;
  }

  /** A value in lowest terms is reduced to itself. */
  lemma ReduceOfParts(x: Rational)
    ensures Reduce(x.num, x.den) == x
  {
    hide Gcd;
    SameValueIsIdentical(Reduce(x.num, x.den), x);
  }

  // --- Operators ---

  function Add(x: Rational, y: Rational): (r: Rational)
    ensures Val(r) == Val(x) + Val(y)
  {
    hide Gcd, Reduce;
    QuotientSum(x.num, x.den, y.num, y.den);
    Reduce(x.num * y.den + x.den * y.num, x.den * y.den)
  }

  function Sub(x: Rational, y: Rational): (r: Rational)
    ensures Val(r) == Val(x) - Val(y)
  {
    hide Gcd, Reduce;
    QuotientDifference(x.num, x.den, y.num, y.den);
    Reduce(x.num * y.den - x.den * y.num, x.den * y.den)
  }

  function Mul(x: Rational, y: Rational): (r: Rational)
    ensures Val(r) == Val(x) * Val(y)
  {
    hide Gcd, Reduce;
    QuotientProduct(x.num, x.den, y.num, y.den);
    Reduce(x.num * y.num, x.den * y.den)
  }

  function Neg(x: Rational): (r: Rational)
    ensures Val(r) == -Val(x)
  {
    hide Gcd, Reduce;
    QuotientNegated(x.num, x.den);
    Reduce(-x.num, x.den)
  }

  function AbsOf(x: Rational): (r: Rational)
    ensures Val(r) == if Val(x) < 0.0 then -Val(x) else Val(x)
  {
    hide Gcd, Reduce;
    SignOfValue(x);
    if x.num < 0 then Reduce(Abs(x.num), x.den) else x
  }

  lemma SignOfValue(x: Rational)
    ensures x.num < 0 <==> Val(x) < 0.0
    ensures x.num == 0 <==> Val(x) == 0.0
    ensures x.num == 0 <==> x == Zero
  {
    QuotientSign(x.num, x.den);
    SameValueIsIdentical(x, Zero);
  }

  lemma Constants()
    ensures Val(Zero) == 0.0 && Val(One) == 1.0
  {
  }

  lemma InverseOf(x: Rational)
    requires x.num != 0
    ensures Mul(Reduce(x.den, x.num), x) == One
  {
    hide Gcd, Reduce, Mul;
    QuotientInverse(x.num, x.den);
    SameValueIsIdentical(Mul(Reduce(x.den, x.num), x), One);
  }

  function Invert(x: Rational): (r: Result<Rational>)
    ensures if x == Zero then r == Err(DivideByZero) else r.Ok?
    ensures r.Ok? ==> x != Zero && Mul(r.value, x) == One
  {
    hide Gcd, Reduce, Mul, Val;
    SignOfValue(x);
    if x.num == 0 then Err(DivideByZero)
    else
      InverseOf(x);
      Ok(Reduce(x.den, x.num))
  }

  function Div(x: Rational, y: Rational): (r: Result<Rational>)
    ensures if y == Zero then r == Err(DivideByZero) else r.Ok?
    ensures r.Ok? ==> Val(y) != 0.0 && Val(r.value) == Val(x) / Val(y)
  {
    hide Gcd, Reduce;
    SignOfValue(y);
    if x.den * y.num == 0 then Err(DivideByZero)
    else
      QuotientRatio(x.num, x.den, y.num, y.den);
      Ok(Reduce(x.num * y.den, x.den * y.num))
  }

  lemma RemainderOf(x: Rational, y: Rational)
    requires y.num != 0
    ensures x.den * y.num != 0 && x.den * y.den != 0 && Val(y) != 0.0
    ensures Val(Reduce(TRem(x.num * y.den, x.den * y.num), x.den * y.den))
      == Val(x) - Val(y) * Trunc(Val(x) / Val(y)) as real
  {
    hide Gcd, Reduce, Trunc, TRem;
    RemainderValue(x.num, x.den, y.num, y.den);
  }

  /** Zero divisors are rejected by the integer remainder itself. */
  function Rem(x: Rational, y: Rational): (r: Result<Rational>)
    ensures if y == Zero then r == Err(DivideByZero) else r.Ok?
    ensures r.Ok? ==> Val(y) != 0.0 && Val(r.value) == Val(x) - Val(y) * Trunc(Val(x) / Val(y)) as real
  {
    hide Gcd, Reduce, Trunc, TRem, Val;
    SignOfValue(y);
    var ad, bc := x.num * y.den, x.den * y.num;
    if bc == 0 then Err(DivideByZero)
    else
      RemainderOf(x, y);
      Ok(Reduce(TRem(ad, bc), x.den * y.den))
  }

  function DivRem(x: Rational, y: Rational): (r: Result<(Rational, Rational)>)
    ensures if y == Zero then r == Err(DivideByZero) else r.Ok?
    ensures r.Ok? ==> Ok(r.value.0) == Div(x, y) && Ok(r.value.1) == Rem(x, y)
  {
    hide Gcd, Reduce;
    SignOfValue(y);
    var ad, bc, bd := x.num * y.den, x.den * y.num, x.den * y.den;
    if bc == 0 then Err(DivideByZero)
    else
      var remainder := Reduce(TRem(ad, bc), bd);
      Ok((Reduce(ad, bc), remainder))
  }

  function WholePart(x: Rational): (w: int)
    ensures w == Trunc(Val(x))
  {
    TDivIsTrunc(x.num, x.den);
    TDiv(x.num, x.den)
  }

  function FractionPart(x: Rational): (r: Rational)
    ensures Val(r) == Val(x) - Trunc(Val(x)) as real
  {
    hide Gcd, Reduce;
    FractionValue(x.num, x.den);
    Reduce(TRem(x.num, x.den), x.den)
  }

  // --- Equality and order ---

  predicate Equals(x: Rational, y: Rational)
    ensures Equals(x, y) <==> x == y
  {
    hide Gcd, Reduce;
    SameValueIsIdentical(x, y);
    if x.den == y.den then x.num == y.num else x.num * y.den == x.den * y.num
  }

  function Compare(x: Rational, y: Rational): (c: int)
    ensures c < 0 <==> Val(x) < Val(y)
    ensures c == 0 <==> x == y
    ensures c > 0 <==> Val(x) > Val(y)
  {
    hide Gcd, Reduce;
    SameValueIsIdentical(x, y);
    CrossLess(x.num, x.den, y.num, y.den);
    CrossLess(y.num, y.den, x.num, x.den);
    var a, b := x.num * y.den, y.num * x.den;
    if a < b then -1 else if a > b then 1 else 0
  }

  /** `Compare` is a total order whose ties are identical values. */
  lemma CompareIsTotalOrder(x: Rational, y: Rational, z: Rational)
    ensures Compare(x, y) == -Compare(y, x)
    ensures Compare(x, y) <= 0 && Compare(y, z) <= 0 ==> Compare(x, z) <= 0
    ensures Compare(x, y) <= 0 && Compare(y, x) <= 0 ==> x == y
    ensures Compare(x, y) <= 0 || Compare(y, x) <= 0
    ensures Compare(x, y) <= 0 ==> Compare(Add(x, z), Add(y, z)) <= 0
  {
    hide Gcd, Val;
  }

  // --- Ring and field laws, as identities of representations ---

  lemma RingLaws(x: Rational, y: Rational, z: Rational)
    ensures Add(x, y) == Add(y, x) && Mul(x, y) == Mul(y, x)
    ensures Add(Add(x, y), z) == Add(x, Add(y, z))
    ensures Mul(Mul(x, y), z) == Mul(x, Mul(y, z))
    ensures Mul(x, Add(y, z)) == Add(Mul(x, y), Mul(x, z))
    ensures Add(x, Zero) == x && Mul(x, One) == x
    ensures Add(x, Neg(x)) == Zero && Sub(x, y) == Add(x, Neg(y))
  {
    hide Add, Mul, Sub, Neg, Gcd, Val;
    Constants();
    SameValueIsIdentical(Add(x, y), Add(y, x));
    SameValueIsIdentical(Mul(x, y), Mul(y, x));
    SameValueIsIdentical(Add(Add(x, y), z), Add(x, Add(y, z)));
    SameValueIsIdentical(Mul(Mul(x, y), z), Mul(x, Mul(y, z)));
    Associates(Val(x), Val(y), Val(z));
    SameValueIsIdentical(Mul(x, Add(y, z)), Add(Mul(x, y), Mul(x, z)));
    SameValueIsIdentical(Add(x, Zero), x);
    SameValueIsIdentical(Mul(x, One), x);
    SameValueIsIdentical(Add(x, Neg(x)), Zero);
    SameValueIsIdentical(Sub(x, y), Add(x, Neg(y)));
  }

  /** Division undoes multiplication, and is multiplication by the inverse. */
  lemma FieldLaws(x: Rational, y: Rational)
    requires y != Zero
    ensures Div(Mul(x, y), y) == Ok(x)
    ensures Invert(y).Ok? && Div(x, y) == Ok(Mul(x, Invert(y).value))
    ensures Div(x, y).Ok? && Mul(Div(x, y).value, y) == x
  {
    hide Gcd, Mul, Div, Invert, Val;
    Constants();
    var inverse := Invert(y).value;
    SignOfValue(y);
    assert Val(Mul(inverse, y)) == 1.0;
    RealField(Val(x), Val(y), Val(inverse));
    SameValueIsIdentical(Div(Mul(x, y), y).value, x);
    SameValueIsIdentical(Div(x, y).value, Mul(x, inverse));
    SameValueIsIdentical(Mul(Div(x, y).value, y), x);
  }

  /** The division identity: quotient truncated toward zero, remainder below the divisor and of
      the dividend's sign. */
  lemma DivisionIdentity(x: Rational, y: Rational)
    requires y != Zero
    ensures Div(x, y).Ok? && Rem(x, y).Ok?
    ensures x == Add(Mul(y, FromInteger(WholePart(Div(x, y).value))), Rem(x, y).value)
    ensures Compare(AbsOf(Rem(x, y).value), AbsOf(y)) < 0
    ensures Rem(x, y).value != Zero ==> (Val(Rem(x, y).value) < 0.0 <==> Val(x) < 0.0)
  {
    hide Gcd, Val, Mul, Div, Rem, Add, Compare, AbsOf, WholePart, FromInteger, Trunc;
    Constants();
    var q, r := Div(x, y).value, Rem(x, y).value;
    SignOfValue(y);
    SignOfValue(r);
    RemainderBound(Val(x), Val(y));
    SameValueIsIdentical(x, Add(Mul(y, FromInteger(WholePart(q))), r));
  }

  /** Whole and fraction part make up the value; the fraction is below one and signed like it. */
  lemma WholeAndFraction(x: Rational)
    ensures x == Add(FromInteger(WholePart(x)), FractionPart(x))
    ensures Compare(AbsOf(FractionPart(x)), One) < 0
    ensures FractionPart(x) != Zero ==> (Val(FractionPart(x)) < 0.0 <==> Val(x) < 0.0)
  {
    hide Gcd, Val, Add, Compare, AbsOf, WholePart, FractionPart, FromInteger, Trunc;
    Constants();
    SignOfValue(FractionPart(x));
    RemainderBound(Val(x), 1.0);
    SameValueIsIdentical(x, Add(FromInteger(WholePart(x)), FractionPart(x)));
  }

  // --- Powers ---

  function PowNat(x: Rational, n: nat): Rational {
    if n == 0 then One else Mul(PowNat(x, n - 1), x)
  }

  function Power(x: Rational, e: int): Result<Rational> {
    if e >= 0 then Ok(PowNat(x, e))
    else if x == Zero then Err(ArgumentError)
    else Ok(PowNat(Invert(x).value, -e))
  }

  method Pow(baseValue: Rational, exponent: int) returns (r: Result<Rational>)
    ensures r == Power(baseValue, exponent)
    ensures r.Err? <==> baseValue == Zero && exponent < 0
  {
    hide Mul, Invert, Gcd, Val, Compare;
    if exponent == 0 {
      return Ok(One);
    }
    var b, e := baseValue, exponent;
    if e < 0 {
      if Compare(b, Zero) == 0 {
        return Err(ArgumentError);
      }
      b := Invert(b).value;
      e := -e;
    }
    ghost var n: nat := e;
    var result := b;
    MulOne(b);
    assert PowNat(b, 0) == One;
    while e > 1
      invariant 1 <= e <= n
      invariant result == PowNat(b, n - e + 1)
    {
      result := Mul(result, b);
      e := e - 1;
    }
    r := Ok(result);
  }

  lemma MulOne(x: Rational)
    ensures Mul(One, x) == x
  {
    hide Mul, Gcd, Val;
    Constants();
    SameValueIsIdentical(Mul(One, x), x);
  }

  lemma PowerStep(x: Rational, e: int)
    requires x != Zero
    ensures Power(x, e).Ok? && Power(x, e + 1).Ok?
    ensures Power(x, e + 1).value == Mul(Power(x, e).value, x)
  {
    hide Mul, Invert, Gcd, Val;
    if e < 0 {
      var inverse := Invert(x).value;
      var shorter := PowNat(inverse, -e - 1);
      assert Power(x, e).value == Mul(shorter, inverse);
      assert Power(x, e + 1).value == shorter;
      RingLaws(shorter, inverse, x);
    }
  }

  /** The powers start with one and the number itself; each is the one before times the number. */
  lemma PowersAre(x: Rational, e: int)
    ensures Power(x, 0) == Ok(One) && Power(x, 1) == Ok(x)
    ensures e >= 0 ==> Power(x, e).Ok? && Power(x, e + 1).Ok?
                       && Val(Power(x, e + 1).value) == Val(Power(x, e).value) * Val(x)
    ensures e < 0 ==> Power(x, e) == if x == Zero then Err(ArgumentError) else Power(Invert(x).value, -e)
  {
    hide Mul, Invert, Gcd, Val;
    MulOne(x);
    assert PowNat(x, 0) == One;
  }

  /** Exponents add, for all integers. */
  lemma {:induction false} PowerAdds(x: Rational, m: int, n: int)
    requires x != Zero
    ensures Power(x, m).Ok? && Power(x, n).Ok? && Power(x, m + n).Ok?
    ensures Power(x, m + n).value == Mul(Power(x, m).value, Power(x, n).value)
    decreases Abs(n)
  {
    hide Mul, Power, Invert, Gcd, Val;
    PowerStep(x, m);
    if n == 0 {
      PowerOfZero(x);
      RingLaws(Power(x, m).value, One, One);
    } else if n > 0 {
      PowerAdds(x, m, n - 1);
      PowerStep(x, n - 1);
      PowerStep(x, m + n - 1);
      assert m + (n - 1) == m + n - 1;
      RingLaws(Power(x, m).value, Power(x, n - 1).value, x);
    } else {
      PowerAdds(x, m, n + 1);
      PowerStep(x, n);
      PowerStep(x, m + n);
      assert m + (n + 1) == m + n + 1;
      RingLaws(Power(x, m).value, Power(x, n).value, x);
      CancelFactor(Power(x, m + n).value, Mul(Power(x, m).value, Power(x, n).value), x);
    }
  }

  lemma PowerOfZero(x: Rational)
    ensures Power(x, 0) == Ok(One)
  {
  }

  lemma CancelFactor(a: Rational, b: Rational, x: Rational)
    requires x != Zero && Mul(a, x) == Mul(b, x)
    ensures a == b
  {
    hide Mul, Div, Gcd, Val;
    FieldLaws(a, x);
    FieldLaws(b, x);
  }

  /** Negative exponents give inverses, so every power of a non-zero value is invertible. */
  lemma PowersInvert(x: Rational, e: int)
    requires x != Zero
    ensures Power(x, e).Ok? && Power(x, -e).Ok?
    ensures Mul(Power(x, e).value, Power(x, -e).value) == One
  {
    hide Mul, Power;
    PowerAdds(x, e, -e);
    PowerOfZero(x);
  }
}
