/** Positional notation with `w`-bit digits, most significant digit first: the
    meaning of every packed bit stream in the Equihash code. */
module Radix {
  import opened Numbers

  /** The width of `n` items of width `w` each: `w * n`, counted up one item at a time. */
  function Width(w: nat, n: nat): nat
    decreases n
  {
    if n == 0 then 0 else Width(w, n - 1) + w
  }

  lemma {:induction false} WidthIsProduct(w: nat, n: nat)
    ensures Width(w, n) == w * n
    decreases n
  {
    if n > 0 { WidthIsProduct(w, n - 1); }
  }

  lemma NoWidth(w: nat)
    ensures Width(w, 0) == 0
  {
  }

  lemma WidthStep(w: nat, n: nat)
    ensures Width(w, n + 1) == Width(w, n) + w
  {
  }

  lemma {:induction false} WidthMono(w: nat, s: nat, t: nat)
    requires s <= t
    ensures Width(w, s) <= Width(w, t)
    ensures s < t ==> Width(w, s) + w <= Width(w, t)
    decreases t
  {
    if s < t { WidthMono(w, s, t - 1); }
  }

  ghost predicate Below(s: seq<nat>, w: nat) {
    forall i :: 0 <= i < |s| ==> s[i] < Pow2(w)
  }

  /** The number written by the digits `s`. */
  function Val(s: seq<nat>, w: nat): nat {
    if |s| == 0 then 0 else Shl(Val(s[..|s| - 1], w), w) + s[|s| - 1]
  }

  /** The `n` lowest digits of `v`. */
  function Digits(v: nat, w: nat, n: nat): (s: seq<nat>)
    ensures |s| == n
    decreases n
  {
    if n == 0 then [] else Digits(Shr(v, w), w, n - 1) + [Low(v, w)]
  }

  lemma {:induction false} DigitsBelow(v: nat, w: nat, n: nat)
    ensures Below(Digits(v, w, n), w)
    decreases n
  {
    if n > 0 { DigitsBelow(Shr(v, w), w, n - 1); }
  }

  /** Appending a digit shifts the value. */
  lemma ValNone(w: nat)
    ensures Val([], w) == 0
  {
  }

  lemma ValAppend(s: seq<nat>, x: nat, w: nat)
    ensures Val(s + [x], w) == Shl(Val(s, w), w) + x
  {
    assert (s + [x])[..|s|] == s;
  }

  lemma {:induction false} ValBound(s: seq<nat>, w: nat)
    requires Below(s, w)
    ensures Val(s, w) < Pow2(Width(w, |s|))
  {
    if |s| > 0 {
      var p := s[..|s| - 1];
      ValBound(p, w);
      AppendBelow(Val(p, w), Width(w, |p|), w, s[|s| - 1]);
    }
  }

  /** Writing a number in digits and reading it back keeps its low bits. */
  lemma {:induction false} ValDigits(v: nat, w: nat, n: nat)
    ensures Val(Digits(v, w, n), w) == Low(v, Width(w, n))
    decreases n
  {
    if n > 0 {
      ValDigits(Shr(v, w), w, n - 1);
      ValAppend(Digits(Shr(v, w), w, n - 1), Low(v, w), w);
      LowSplit(v, Width(w, n - 1), w);
    }
  }

  /** Reading digits and writing the number again gives the same digits. */
  lemma {:induction false} DigitsVal(s: seq<nat>, w: nat)
    requires Below(s, w)
    ensures Digits(Val(s, w), w, |s|) == s
  {
    if |s| > 0 {
      var p := s[..|s| - 1];
      DigitsVal(p, w);
      Append(Val(p, w), w, s[|s| - 1]);
    }
  }

  lemma {:induction false} DigitsAt(v: nat, w: nat, n: nat, k: nat)
    requires k < n
    ensures Digits(v, w, n)[k] == Low(Shr(v, Width(w, n - 1 - k)), w)
    decreases n
  {
    if k < n - 1 {
      DigitsAt(Shr(v, w), w, n - 1, k);
      ShrPlus(v, w, Width(w, n - 2 - k));
    }
  }

  lemma DigitsInjective(a: nat, b: nat, w: nat, n: nat)
    requires a < Pow2(Width(w, n)) && b < Pow2(Width(w, n))
    requires Digits(a, w, n) == Digits(b, w, n)
    ensures a == b
  {
    ValDigits(a, w, n);
    ValDigits(b, w, n);
    LowOfSmall(a, Width(w, n));
    LowOfSmall(b, Width(w, n));
  }

  // --- Least significant digit first ---

  function ValLE(s: seq<nat>, w: nat): nat {
    if |s| == 0 then 0 else Shl(ValLE(s[1..], w), w) + s[0]
  }

  function DigitsLE(v: nat, w: nat, n: nat): (s: seq<nat>)
    ensures |s| == n
    decreases n
  {
    if n == 0 then [] else [Low(v, w)] + DigitsLE(Shr(v, w), w, n - 1)
  }

  lemma {:induction false} DigitsLEBelow(v: nat, w: nat, n: nat)
    ensures Below(DigitsLE(v, w, n), w)
    decreases n
  {
    if n > 0 { DigitsLEBelow(Shr(v, w), w, n - 1); }
  }

  lemma {:induction false} ValLEBound(s: seq<nat>, w: nat)
    requires Below(s, w)
    ensures ValLE(s, w) < Pow2(Width(w, |s|))
  {
    if |s| > 0 {
      ValLEBound(s[1..], w);
      AppendBelow(ValLE(s[1..], w), Width(w, |s| - 1), w, s[0]);
    }
  }

  lemma {:induction false} ValOfDigitsLE(v: nat, w: nat, n: nat)
    ensures ValLE(DigitsLE(v, w, n), w) == Low(v, Width(w, n))
    decreases n
  {
    hide Low, Shr, Shl;
    if n > 0 {
      ValOfDigitsLE(Shr(v, w), w, n - 1);
      assert DigitsLE(v, w, n)[1..] == DigitsLE(Shr(v, w), w, n - 1);
      LowSplit(v, Width(w, n - 1), w);
    } else {
      LowNone(v);
    }
  }

  lemma LowNone(v: nat)
    ensures Low(v, 0) == 0
  {
  }

  lemma {:induction false} DigitsOfValLE(s: seq<nat>, w: nat)
    requires Below(s, w)
    ensures DigitsLE(ValLE(s, w), w, |s|) == s
  {
    hide Low, Shr, Shl;
    if |s| > 0 {
      DigitsOfValLE(s[1..], w);
      Append(ValLE(s[1..], w), w, s[0]);
    }
  }
}
