/** Unsigned machine words as natural numbers: powers of two, shifts, low-bit masks
    and the bitwise operators, with the laws that the proof-of-work code relies on.
    Shifts recurse one bit at a time, which keeps all arithmetic linear;
    `ShiftsAreDivision` ties them to multiplication, quotient and remainder. */
module Numbers {

  type byte = x: int | 0 <= x < 256

  function Pow2(n: nat): (p: nat)
    ensures p > 0
  {
    if n == 0 then 1 else 2 * Pow2(n - 1)
  }

  /** `v << n`, without a word size. */
  function Shl(v: nat, n: nat): nat {
    if n == 0 then v else 2 * Shl(v, n - 1)
  }

  /** `v >> n`. */
  function Shr(v: nat, n: nat): nat {
    if n == 0 then v else Shr(v / 2, n - 1)
  }

  /** The `n` low bits of `v`. */
  function Low(v: nat, n: nat): (r: nat)
    ensures r < Pow2(n)
  {
    if n == 0 then 0 else v % 2 + 2 * Low(v / 2, n - 1)
  }

  lemma Pow2Step(n: nat)
    ensures Pow2(n + 1) == 2 * Pow2(n)
  {
  }

  lemma {:induction false} Pow2Mono(a: nat, b: nat)
    requires a <= b
    ensures Pow2(a) <= Pow2(b)
    ensures a < b ==> Pow2(a) < Pow2(b)
    decreases b
  {
    if a < b {
      Pow2Mono(a, b - 1);
    }
  }

  lemma {:induction false} Pow2IsShl(n: nat)
    ensures Shl(1, n) == Pow2(n)
  {
    if n > 0 { Pow2IsShl(n - 1); }
  }

  lemma {:induction false} ShlAdd(v: nat, u: nat, n: nat)
    ensures Shl(v + u, n) == Shl(v, n) + Shl(u, n)
  {
    if n > 0 { ShlAdd(v, u, n - 1); }
  }

  lemma {:induction false} ShlOfZero(n: nat)
    ensures Shl(0, n) == 0
  {
    if n > 0 { ShlOfZero(n - 1); }
  }

  lemma {:induction false} ShlMono(v: nat, u: nat, n: nat)
    requires v <= u
    ensures Shl(v, n) <= Shl(u, n)
  {
    if n > 0 { ShlMono(v, u, n - 1); }
  }

  lemma {:induction false} ShlDouble(v: nat, n: nat)
    ensures Shl(2 * v, n) == 2 * Shl(v, n)
  {
    if n > 0 { ShlDouble(v, n - 1); }
  }

  lemma {:induction false} ShlPlus(v: nat, a: nat, b: nat)
    ensures Shl(Shl(v, a), b) == Shl(v, a + b)
  {
    if b > 0 { ShlPlus(v, a, b - 1); }
  }

  lemma {:induction false} ShlPow2(a: nat, b: nat)
    ensures Shl(Pow2(a), b) == Pow2(a + b)
  {
    if b > 0 { ShlPow2(a, b - 1); }
  }

  lemma {:induction false} ShrPlus(v: nat, a: nat, b: nat)
    ensures Shr(Shr(v, a), b) == Shr(v, a + b)
  {
    if a > 0 { ShrPlus(v / 2, a - 1, b); }
  }

  /** A number is its high part followed by its low part. */
  lemma {:induction false} Split(v: nat, n: nat)
    ensures v == Shl(Shr(v, n), n) + Low(v, n)
  {
    if n > 0 { Split(v / 2, n - 1); }
  }

  /** Appending `n` bits `x` below `v` and splitting them off again. */
  lemma {:induction false} Append(v: nat, n: nat, x: nat)
    requires x < Pow2(n)
    ensures Shr(Shl(v, n) + x, n) == v && Low(Shl(v, n) + x, n) == x
  {
    if n > 0 { Append(v, n - 1, x / 2); }
  }

  lemma AppendBelow(v: nat, a: nat, n: nat, x: nat)
    requires v < Pow2(a) && x < Pow2(n)
    ensures Shl(v, n) + x < Pow2(a + n)
  {
    ShlMono(v + 1, Pow2(a), n);
    ShlAdd(v, 1, n);
    Pow2IsShl(n);
    ShlPow2(a, n);
  }

  lemma {:induction false} LowOfSmall(v: nat, n: nat)
    requires v < Pow2(n)
    ensures Low(v, n) == v && Shr(v, n) == 0
  {
    if n > 0 { LowOfSmall(v / 2, n - 1); }
  }

  lemma LowParts(v: nat, n: nat)
    requires n > 0
    ensures Low(v, n) % 2 == v % 2 && Low(v, n) / 2 == Low(v / 2, n - 1)
  {
  }

  lemma {:induction false} LowLow(v: nat, m: nat, n: nat)
    requires m <= n
    ensures Low(Low(v, n), m) == Low(v, m)
  {
    if m > 0 {
      LowParts(v, n);
      LowLow(v / 2, m - 1, n - 1);
    }
  }

  lemma {:induction false} ShrLow(v: nat, a: nat, b: nat)
    ensures Shr(Low(v, a + b), a) == Low(Shr(v, a), b)
  {
    if a > 0 { ShrLow(v / 2, a - 1, b); }
  }

  /** Appending commutes with keeping the low bits. */
  lemma {:induction false} AppendLow(v: nat, a: nat, n: nat, x: nat)
    requires x < Pow2(n)
    ensures Low(Shl(v, n) + x, a + n) == Shl(Low(v, a), n) + x
  {
    hide Pow2, Low;
    if n > 0 {
      Pow2Step(n - 1);
      AppendLow(v, a, n - 1, x / 2);
      LowUnfold(Shl(v, n) + x, a + n);
      HalveAppended(Shl(v, n - 1), x);
    } else {
      NoBits();
    }
  }

  lemma LowUnfold(v: nat, n: nat)
    requires n > 0
    ensures Low(v, n) == v % 2 + 2 * Low(v / 2, n - 1)
  {
  }

  lemma HalveAppended(s: nat, x: nat)
    ensures (2 * s + x) % 2 == x % 2 && (2 * s + x) / 2 == s + x / 2
  {
  }

  lemma {:induction false} LowSplit(v: nat, a: nat, n: nat)
    ensures Low(v, a + n) == Shl(Low(Shr(v, n), a), n) + Low(v, n)
  {
    if n > 0 { LowSplit(v / 2, a, n - 1); }
  }

  lemma {:induction false} ShrBelow(v: nat, a: nat, n: nat)
    requires v < Pow2(a + n)
    ensures Shr(v, n) < Pow2(a)
  {
    if n > 0 { ShrBelow(v / 2, a, n - 1); }
  }

  /** The shifts are multiplication, quotient and remainder by the power of two. */
  lemma ShiftsAreDivision(v: nat, n: nat)
    ensures Shl(v, n) == v * Pow2(n) && Shr(v, n) == v / Pow2(n) && Low(v, n) == v % Pow2(n)
  {
    ShlIsMul(v, n);
    Split(v, n);
    ShlIsMul(Shr(v, n), n);
    DivUnique(v, Pow2(n), Shr(v, n), Low(v, n));
  }

  lemma {:induction false} ShlIsMul(v: nat, n: nat)
    ensures Shl(v, n) == v * Pow2(n)
  {
    if n > 0 { ShlIsMul(v, n - 1); }
  }

  lemma MulMono(a: int, b: int, d: int)
    requires a <= b && 0 <= d
    ensures a * d <= b * d
  {
    assert 0 <= (b - a) * d;
  }

  lemma DivUnique(x: int, d: int, q: int, r: int)
    requires d > 0 && 0 <= r < d && x == q * d + r
    ensures x / d == q && x % d == r
  {
    var q' := x / d;
    assert x == q' * d + x % d;
    if q' < q {
      MulMono(q' + 1, q, d);
    } else if q < q' {
      MulMono(q + 1, q', d);
    }
  }

  // --- Bitwise operators ---

  function And(a: nat, b: nat): nat {
    if a == 0 || b == 0 then 0 else (if a % 2 == 1 && b % 2 == 1 then 1 else 0) + 2 * And(a / 2, b / 2)
  }

  function Or(a: nat, b: nat): nat
    decreases a + b
  {
    if a == 0 then b else if b == 0 then a
    else (if a % 2 == 1 || b % 2 == 1 then 1 else 0) + 2 * Or(a / 2, b / 2)
  }

  function Xor(a: nat, b: nat): nat
    decreases a + b
  {
    if a == 0 then b else if b == 0 then a
    else (a + b) % 2 + 2 * Xor(a / 2, b / 2)
  }

  lemma {:induction false} AndParts(a: nat, b: nat)
    ensures And(a, b) == (if a % 2 == 1 && b % 2 == 1 then 1 else 0) + 2 * And(a / 2, b / 2)
  {
  }

  /** Masking with `2^n - 1` keeps the low `n` bits. */
  lemma {:induction false} AndMask(x: nat, n: nat)
    ensures And(x, Pow2(n) - 1) == Low(x, n)
    decreases n
  {
    hide Pow2;
    if n > 0 {
      HalfMask(n);
      AndMask(x / 2, n - 1);
      AndParts(x, Pow2(n) - 1);
    } else {
      NoBits();
    }
  }

  lemma HalfMask(n: nat)
    requires n > 0
    ensures (Pow2(n) - 1) / 2 == Pow2(n - 1) - 1 && (Pow2(n) - 1) % 2 == 1
  {
  }

  lemma NoBits()
    ensures Pow2(0) == 1
  {
  }

  /** OR-ing `n` bits below a number shifted by `n` is addition. */
  lemma {:induction false} OrDisjoint(a: nat, n: nat, b: nat)
    requires b < Pow2(n)
    ensures Or(Shl(a, n), b) == Shl(a, n) + b
    decreases n
  {
    if n > 0 { OrDisjoint(a, n - 1, b / 2); }
  }

  lemma {:induction false} OrCommutes(a: nat, b: nat)
    ensures Or(a, b) == Or(b, a)
    decreases a
  {
    if a > 0 && b > 0 { OrCommutes(a / 2, b / 2); }
  }

  lemma {:induction false} XorCommutes(a: nat, b: nat)
    ensures Xor(a, b) == Xor(b, a)
    decreases a
  {
    if a > 0 && b > 0 { XorCommutes(a / 2, b / 2); }
  }

  lemma {:induction false} XorParts(a: nat, b: nat)
    ensures Xor(a, b) % 2 == (a + b) % 2 && Xor(a, b) / 2 == Xor(a / 2, b / 2)
  {
    hide Xor;
    XorUnfold(a, b);
  }

  /** Bit by bit: and, or, exclusive or. */
  lemma {:induction false} BitwiseAt(a: nat, b: nat, n: nat)
    ensures And(a, b) / Pow2(n) % 2 == if a / Pow2(n) % 2 == 1 then b / Pow2(n) % 2 else 0
    ensures Or(a, b) / Pow2(n) % 2 == if a / Pow2(n) % 2 == 1 then 1 else b / Pow2(n) % 2
    ensures Xor(a, b) / Pow2(n) % 2 == (a / Pow2(n) + b / Pow2(n)) % 2
  {
    hide Pow2, Shr, And, Or, Xor;
    ShrBitwise(a, b, n);
    ShiftsAreDivision(a, n);
    ShiftsAreDivision(b, n);
    ShiftsAreDivision(And(a, b), n);
    ShiftsAreDivision(Or(a, b), n);
    ShiftsAreDivision(Xor(a, b), n);
    LowestBits(Shr(a, n), Shr(b, n));
  }

  lemma {:induction false} ShrBitwise(a: nat, b: nat, n: nat)
    ensures Shr(And(a, b), n) == And(Shr(a, n), Shr(b, n))
    ensures Shr(Or(a, b), n) == Or(Shr(a, n), Shr(b, n))
    ensures Shr(Xor(a, b), n) == Xor(Shr(a, n), Shr(b, n))
  {
    hide And, Or, Xor;
    if n > 0 {
      LowestBits(a, b);
      ShrBitwise(a / 2, b / 2, n - 1);
    }
  }

  lemma LowestBits(a: nat, b: nat)
    ensures And(a, b) % 2 == (if a % 2 == 1 then b % 2 else 0) && And(a, b) / 2 == And(a / 2, b / 2)
    ensures Or(a, b) % 2 == (if a % 2 == 1 then 1 else b % 2) && Or(a, b) / 2 == Or(a / 2, b / 2)
    ensures Xor(a, b) % 2 == (a + b) % 2 && Xor(a, b) / 2 == Xor(a / 2, b / 2)
  {
    hide And, Or, Xor;
    AndParts(a, b);
    OrUnfold(a, b);
    XorParts(a, b);
  }

  lemma {:induction false} OrUnfold(a: nat, b: nat)
    ensures Or(a, b) == (if a % 2 == 1 || b % 2 == 1 then 1 else 0) + 2 * Or(a / 2, b / 2)
  {
  }

  lemma {:induction false} XorUnfold(a: nat, b: nat)
    ensures Xor(a, b) == (a + b) % 2 + 2 * Xor(a / 2, b / 2)
  {
  }

  /** One bit of the associativity proof, on numbers known only by their lowest bits. */
  lemma AssociateLowBit(a: nat, b: nat, c: nat, ab: nat, bc: nat, l: nat, r: nat)
    requires ab % 2 == (a + b) % 2 && bc % 2 == (b + c) % 2
    requires l % 2 == (ab + c) % 2 && r % 2 == (a + bc) % 2
    requires l / 2 == r / 2
    ensures l == r
  {
  }

  lemma {:induction false} XorAssociates(a: nat, b: nat, c: nat)
    ensures Xor(Xor(a, b), c) == Xor(a, Xor(b, c))
    decreases a
  {
    if a > 0 {
      XorAssociates(a / 2, b / 2, c / 2);
      var ab, bc := Xor(a, b), Xor(b, c);
      XorParts(a, b);
      XorParts(b, c);
      XorParts(ab, c);
      XorParts(a, bc);
      AssociateLowBit(a, b, c, ab, bc, Xor(ab, c), Xor(a, bc));
    }
  }

  lemma ZeroByParts(a: nat, b: nat, x: nat)
    requires x % 2 == (a + b) % 2 && (x / 2 == 0 <==> a / 2 == b / 2)
    ensures x == 0 <==> a == b
  {
    SumParity(a, b);
    if a % 2 == b % 2 {
      SameHalves(x, 0);
      SameHalves(a, b);
    }
  }

  lemma SumParity(a: nat, b: nat)
    ensures (a + b) % 2 == if a % 2 == b % 2 then 0 else 1
  {
  }

  lemma SameHalves(a: nat, b: nat)
    requires a % 2 == b % 2
    ensures a / 2 == b / 2 <==> a == b
  {
  }

  lemma {:induction false} XorZeroIffEqual(a: nat, b: nat)
    ensures Xor(a, b) == 0 <==> a == b
    decreases a
  {
    if a > 0 {
      XorZeroIffEqual(a / 2, b / 2);
      XorParts(a, b);
      ZeroByParts(a, b, Xor(a, b));
    }
  }

  lemma {:induction false} XorBelow(a: nat, b: nat, n: nat)
    requires a < Pow2(n) && b < Pow2(n)
    ensures Xor(a, b) < Pow2(n)
    decreases n
  {
    if a > 0 && b > 0 { XorBelow(a / 2, b / 2, n - 1); }
  }
}
