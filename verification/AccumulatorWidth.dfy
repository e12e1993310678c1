/** Which element widths the 32-bit accumulator of `ExpandArray` and `CompressArray` can carry: all
    that satisfy `FitsAccumulator`, and no others. */
module AccumulatorWidth {
  import opened Numbers
  import opened Radix
  import opened BitPacking

  lemma {:induction false} ValOfZeros(n: nat)
    ensures Val(Zeros(n), 8) == 0
  {
    if n > 0 {
      assert Zeros(n)[..n - 1] == Zeros(n - 1);
      ValOfZeros(n - 1);
      ShlOfZero(8);
    }
  }

  // --- Expanding ---

  /** The accumulator holds the last 32 bits read, whatever the width. */
  lemma {:induction false} ExpandHolds32Bits(input: seq<byte>, n: nat, bitLen: nat)
    requires n <= |input| && bitLen >= 8
    ensures ExpandSteps(input[..n], bitLen).value == Low(Val(input[..n], 8), 32)
  {
    hide Low, Shl, Shr, Or, Shl32, Val, ExpandSteps, Pow2;
    if n == 0 {
      assert input[..0] == [];
      ExpandStart(bitLen);
      LowOfSmall(0, 32);
      ValOfZeros(0);
      assert Zeros(0) == [];
    } else {
      var v := Val(input[..n - 1], 8);
      ExpandHolds32Bits(input, n - 1, bitLen);
      ExpandStep(input, n - 1, bitLen);
      assert input[..n] == input[..n - 1] + [input[n - 1]];
      ValAppend(input[..n - 1], input[n - 1], 8);
      ByteBelow(input[n - 1]);
      HoldsMore(v, 8, input[n - 1]);
    }
  }

  lemma HoldsMore(v: nat, n: nat, x: nat)
    requires n <= 32 && x < Pow2(n)
    ensures Or(Shl32(Low(v, 32), n), x) == Shl32(Low(v, 32), n) + x == Low(Shl(v, n) + x, 32)
  {
    hide *;
    AccShift(Low(v, 32), v, 0, n, x);
    LowLow(v, 32 - n, 32);
    AppendLow(v, 32 - n, n, x);
  }

  /** Input whose only bits are shifted out of the accumulator before they are used. */
  function ExpandWitness(k: nat, top: byte): seq<byte> {
    seq(k + 5, i => if i == k then top else 0)
  }

  lemma WitnessValue(k: nat, top: byte)
    ensures Val(ExpandWitness(k, top), 8) == Shl(top, 32)
  {
    hide Shl, Val;
    var w := ExpandWitness(k, top);
    assert w[..k] == Zeros(k);
    ValOfZeros(k);
    WitnessStep(w, k, 0);
    ShlOfZero(8);
    WitnessStep(w, k + 1, top);
    WitnessStep(w, k + 2, Shl(top, 8));
    ShlPlus(top, 8, 8);
    WitnessStep(w, k + 3, Shl(top, 16));
    ShlPlus(top, 16, 8);
    WitnessStep(w, k + 4, Shl(top, 24));
    ShlPlus(top, 24, 8);
    assert w[..k + 5] == w;
  }

  lemma WitnessStep(w: seq<byte>, n: nat, v: nat)
    requires n < |w| && Val(w[..n], 8) == v
    ensures Val(w[..n + 1], 8) == Shl(v, 8) + w[n]
  {
    assert w[..n + 1] == w[..n] + [w[n]];
    ValAppend(w[..n], w[n], 8);
  }

  lemma GoneFrom32Bits(x: nat, r: nat, b: nat)
    ensures Low(Shr(Low(Shl(x, 32), 32), r), b) == 0
  {
    hide Shl, Shr, Low;
    AppendLow(x, 0, 32, 0);
    LowNone(x);
    ShlOfZero(32);
    LowOfSmall(0, r);
    LowOfSmall(0, b);
  }

  /** Bit `t + 32` of a number, at position `b - 1` after shifting right by `r`. */
  lemma StillInStream(t: nat, r: nat, b: nat)
    requires r <= 32 && t + 32 - r == b - 1
    ensures Low(Shr(Shl(Pow2(t), 32), r), b) == Pow2(b - 1)
  {
    hide Shl, Shr, Low, Pow2;
    ShlPlus(Pow2(t), 32 - r, r);
    Append(Shl(Pow2(t), 32 - r), r, 0);
    ShlPow2(t, 32 - r);
    Pow2Mono(b - 1, b);
    LowOfSmall(Pow2(b - 1), b);
  }

  /** After `k + 4` of the witness's bytes the fill level plus eight exceeds 32 bits, and the next byte
      pushes the only set bit out of the word. */
  lemma ExpandLoses(bitLen: nat, k: nat, t: nat, r: nat) returns (w: seq<byte>)
    requires 8 <= bitLen < 32 && t <= 1 && t + 33 - r == bitLen && r <= 8
    requires 8 * (k + 4) % bitLen == bitLen - 8 + r && 8 * (k + 5) % bitLen == r
    ensures ExpandSteps(w, bitLen).written != Expanded(w, bitLen)
  {
    hide Low, Shr, Shl, Or, Shl32, Val, Digits, ExpandSteps, ExpandWitness, FitsAccumulator, Streaming;
    w := ExpandWitness(k, Pow2(t));
    var n := |w|;
    WitnessLength(k, Pow2(t));
    WitnessValue(k, Pow2(t));
    ExpandHolds32Bits(w, n, bitLen);
    assert w[..n] == w;
    ExpandStepsFill(w, n - 1, bitLen);
    ExpandStep(w, n - 1, bitLen);
    var before := ExpandSteps(w[..n - 1], bitLen);
    ElementCount(n - 1, 0, bitLen, |before.written|);
    GoneFrom32Bits(Pow2(t), r, bitLen);
    StillInStream(t, r, bitLen);
    var m := |before.written|;
    var e := Expanded(w, bitLen);
    if |e| == m + 1 {
      DigitsAt(Shr(Val(w, 8), r), bitLen, m + 1, m);
      LowNone(0);
      NoShiftRight(Shr(Val(w, 8), r));
    }
  }

  lemma WitnessLength(k: nat, top: byte)
    ensures |ExpandWitness(k, top)| == k + 5
  {
  }

  lemma WidthsThatDoNotFit(bitLen: nat)
    requires 8 <= bitLen < 32
    ensures FitsAccumulator(bitLen) <==> bitLen !in {27, 29, 30, 31}
  {
  }

  lemma ExpandFails(bitLen: nat) returns (input: seq<byte>)
    requires bitLen in {27, 29, 30, 31}
    ensures ExpandSteps(input, bitLen).written != Expanded(input, bitLen)
  {
    hide *;
    var k, t: nat, r := 3, 0, 2;
    if bitLen == 27 {
      k, r := 16, 6;
    } else if bitLen == 29 {
      k, r := 10, 4;
    } else if bitLen == 30 {
      t, r := 1, 4;
    }
    input := ExpandLoses(bitLen, k, t, r);
  }

  /** `ExpandArray` takes out the elements of every bit stream exactly for the widths that fit. */
  lemma ExpandsExactlyWhen(bitLen: nat)
    requires 8 <= bitLen < 32
    ensures (forall input: seq<byte> :: ExpandSteps(input, bitLen).written == Expanded(input, bitLen))
      <==> FitsAccumulator(bitLen)
  {
    hide *;
    WidthsThatDoNotFit(bitLen);
    if FitsAccumulator(bitLen) {
      forall input: seq<byte>
        ensures ExpandSteps(input, bitLen).written == Expanded(input, bitLen)
      {
        ExpandStepsAreExact(input, bitLen);
      }
    } else {
      var input := ExpandFails(bitLen);
    }
  }

  // --- Compressing ---

  /** While elements are left, the word holds the last 32 bits of the elements read. */
  lemma {:induction false} CompressHolds32Bits(es: seq<nat>, bitLen: nat, n: nat)
    requires Below(es, bitLen) && 8 <= bitLen < 32 && 8 * n <= Width(bitLen, |es|)
    ensures var p := CompressSteps(es, bitLen, n);
      && p.read <= |es| && |p.done| == n && p.bits < bitLen
      && p.bits + 8 * n == Width(bitLen, p.read)
      && p.value == Low(Val(es[..p.read], bitLen), 32)
  {
    hide Low, Shl, Shr, Shl32, Val, CompressSteps, Width, Pow2, Or;
    CompressFirst(es, bitLen, n);
    if n == 0 {
      assert es[..0] == [];
      LowOfSmall(0, 32);
      ValNone(bitLen);
    } else {
      CompressHolds32Bits(es, bitLen, n - 1);
      var p := CompressSteps(es, bitLen, n - 1);
      if p.bits < 8 {
        assert p.read < |es|;
        assert es[..p.read + 1] == es[..p.read] + [es[p.read]];
        ValAppend(es[..p.read], es[p.read], bitLen);
        HoldsMore(Val(es[..p.read], bitLen), bitLen, es[p.read]);
        WidthStep(bitLen, p.read);
      }
    }
  }

  /** Elements whose only bit is shifted out of the word before it is written: element `t` of
      `t + 2`. */
  function CompressWitness(t: nat, x: nat): seq<nat> {
    seq(t + 2, i => if i == t then x else 0)
  }

  lemma {:induction false} CompressWitnessFront(t: nat, x: nat, n: nat, bitLen: nat)
    requires n <= t
    ensures Val(CompressWitness(t, x)[..n], bitLen) == 0
  {
    if n > 0 {
      var w := CompressWitness(t, x);
      CompressWitnessFront(t, x, n - 1, bitLen);
      assert w[..n] == w[..n - 1] + [0];
      ValAppend(w[..n - 1], 0, bitLen);
      ShlOfZero(bitLen);
    }
  }

  lemma CompressWitnessValue(t: nat, x: nat, bitLen: nat)
    ensures Val(CompressWitness(t, x), bitLen) == Shl(x, bitLen)
  {
    hide Shl, Val;
    var w := CompressWitness(t, x);
    CompressWitnessFront(t, x, t, bitLen);
    ShlOfZero(bitLen);
    assert w == w[..t] + [x] + [0];
    ValAppend(w[..t], x, bitLen);
    ValAppend(w[..t] + [x], 0, bitLen);
  }

  lemma {:induction false} CompressPrefix(es: seq<nat>, bitLen: nat, m: nat, n: nat)
    requires 8 <= bitLen && m <= n
    ensures |CompressSteps(es, bitLen, m).done| == m && |CompressSteps(es, bitLen, n).done| == n
    ensures CompressSteps(es, bitLen, n).done[..m] == CompressSteps(es, bitLen, m).done
  {
    hide *;
    CompressFirst(es, bitLen, n);
    if n > 0 {
      RefillCases(CompressSteps(es, bitLen, n - 1), es, bitLen);
      CompressPrefix(es, bitLen, if m < n then m else n - 1, n - 1);
    }
  }

  lemma ShlOfPow2(u: nat, a: nat, b: nat)
    requires a >= 32 - u && u + a >= 32
    ensures Shl(Pow2(u), a) == Shl(Pow2(u + a - 32), 32)
    ensures Shl(Shl(Pow2(u), a), b) == Shl(Pow2(u + a + b - 32), 32)
  {
    hide Shl, Pow2;
    ShlPow2(u, a);
    ShlPow2(u + a - 32, 32);
    ShlPow2(u + a, b);
    ShlPow2(u + a + b - 32, 32);
  }

  /** Before byte `i` the fill level is `u + 1` and the last element is read; its bits push the only set
      bit, the topmost live one, out of the word. */
  lemma CompressLoses(bitLen: nat, t: nat, u: nat, i: nat)
    requires 8 <= bitLen < 32 && Width(bitLen, t + 1) == 8 * i + u + 1 && u < 7 && u + bitLen >= 32
    requires Width(bitLen, t + 2) == Width(bitLen, t + 1) + bitLen <= 8 * (i + 5) < Width(bitLen, t + 2) + 8
    requires u + bitLen + 8 * (i + 5) - Width(bitLen, t + 2) == 39
    ensures Below(CompressWitness(t, Pow2(u)), bitLen) && |CompressWitness(t, Pow2(u))| == t + 2
    ensures CompressSteps(CompressWitness(t, Pow2(u)), bitLen, i + 5).done
      != Compressed(CompressWitness(t, Pow2(u)), bitLen, i + 5)
  {
    hide Low, Shl, Shr, Shl32, Val, CompressSteps, Width, Pow2, Digits, CompressWitness;
    var es, n := CompressWitness(t, Pow2(u)), i + 5;
    var z := 8 * n - Width(bitLen, t + 2);
    WitnessBelow(t, u, bitLen);
    CompressWitnessValue(t, Pow2(u), bitLen);
    ShlOfPow2(u, bitLen, z);
    LastRead(es, bitLen, t, i, u + 1);
    var bits := CompressSteps(es, bitLen, i + 1).bits;
    GoneFrom32Bits(Pow2(u + bitLen - 32), bits, 8);
    CompressPrefix(es, bitLen, i + 1, n);
    DigitsAt(Shl(Val(es, bitLen), z), 8, n, i);
    WidthIsProduct(8, 4);
    StillInStream(7, 32, 8);
    assert CompressSteps(es, bitLen, n).done[..i + 1][i] == 0;
  }

  lemma WitnessBelow(t: nat, u: nat, bitLen: nat)
    requires u < bitLen
    ensures Below(CompressWitness(t, Pow2(u)), bitLen) && |CompressWitness(t, Pow2(u))| == t + 2
  {
    Pow2Mono(u, bitLen);
    hide Pow2;
  }

  /** Byte `i` is the first that needs element `t + 1`, the last one. */
  lemma LastRead(es: seq<nat>, bitLen: nat, t: nat, i: nat, a: nat)
    requires Below(es, bitLen) && 8 <= bitLen < 32 && |es| == t + 2
    requires Width(bitLen, t + 1) == 8 * i + a && 0 < a < 8
    requires Width(bitLen, t + 2) == Width(bitLen, t + 1) + bitLen
    ensures var p := CompressSteps(es, bitLen, i + 1);
      |p.done| == i + 1 && p.done[i] == Low(Shr(Low(Val(es, bitLen), 32), p.bits), 8)
  {
    hide Low, Shl, Shr, Shl32, Val, CompressSteps, Width, Pow2;
    CompressHolds32Bits(es, bitLen, i + 1);
    CompressFirst(es, bitLen, i + 1);
    CompressPrefix(es, bitLen, i, i + 1);
    var p := CompressSteps(es, bitLen, i + 1);
    if p.read <= t + 1 {
      WidthMono(bitLen, p.read, t + 1);
    }
    assert es[..p.read] == es;
  }

  /** `CompressArray` writes the bit stream of all elements exactly for the widths that fit. */
  lemma CompressesExactlyWhen(bitLen: nat)
    requires 8 <= bitLen < 32
    ensures (forall es, n :: Below(es, bitLen) && Width(bitLen, |es|) <= 8 * n < Width(bitLen, |es|) + 8 ==>
              CompressSteps(es, bitLen, n).done == Compressed(es, bitLen, n))
      <==> FitsAccumulator(bitLen)
  {
    hide CompressSteps, Compressed, FitsAccumulator, CompressWitness, Below, Pow2;
    WidthsThatDoNotFit(bitLen);
    if FitsAccumulator(bitLen) {
      forall es, n | Below(es, bitLen) && Width(bitLen, |es|) <= 8 * n < Width(bitLen, |es|) + 8
        ensures CompressSteps(es, bitLen, n).done == Compressed(es, bitLen, n)
      {
        CompressStepsAreExact(es, bitLen, n);
      }
    } else if bitLen == 27 {
      WidthIsProduct(27, 5);
      CompressLoses(27, 4, 6, 16);
    } else if bitLen == 29 {
      CompressLoses(29, 0, 4, 3);
    } else if bitLen == 30 {
      CompressLoses(30, 0, 5, 3);
    } else {
      CompressLoses(31, 0, 6, 3);
    }
  }
}
