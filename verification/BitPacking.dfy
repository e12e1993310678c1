/** `ExpandArray` and `CompressArray`: the accumulator loops that turn a byte stream
    into `bitLen`-bit elements and back. Elements are written big-endian in whole
    bytes, preceded by padding bytes. The accumulator is a 32-bit word. */
module BitPacking {
  import opened Numbers
  import opened Radix

  /** Shift left in a 32-bit word. */
  function Shl32(x: nat, n: nat): (r: nat)
    ensures r < Pow2(32)
  {
    Low(Shl(x, n), 32)
  }

  function Gcd8(b: nat): (g: nat)
    ensures g == 1 || g == 2 || g == 4 || g == 8
  {
    if b % 8 == 0 then 8 else if b % 4 == 0 then 4 else if b % 2 == 0 then 2 else 1
  }

  /** The fill level of the accumulator is a multiple of `gcd(8, bitLen)`, so this is
      exactly when every live bit always fits in 32 bits. */
  predicate FitsAccumulator(bitLen: nat) {
    bitLen + 8 - Gcd8(bitLen) <= 32
  }

  function WidthBytes(bitLen: nat): (w: nat)
    ensures bitLen > 0 ==> w > 0
  {
    (bitLen + 7) / 8
  }

  // --- Specification ---

  function Zeros(n: nat): (s: seq<nat>)
    ensures |s| == n && forall i :: 0 <= i < n ==> s[i] == 0
  {
    seq(n, _ => 0)
  }

  /** Each element as `pad` zero bytes and `width` big-endian bytes. */
  function Serialize(es: seq<nat>, pad: nat, width: nat): (s: seq<nat>)
    ensures |s| == Width(pad + width, |es|)
  {
    if |es| == 0 then []
    else Serialize(es[..|es| - 1], pad, width) + (Zeros(pad) + Digits(es[|es| - 1], 8, width))
  }

  /** The `bitLen`-bit elements at the front of the bit stream `input`; a remainder of
      less than `bitLen` bits is dropped. */
  function Expanded(input: seq<nat>, bitLen: nat): seq<nat>
    requires bitLen > 0
  {
    Digits(Shr(Val(input, 8), 8 * |input| % bitLen), bitLen, 8 * |input| / bitLen)
  }

  // --- The accumulator ---

  /** Shifting `n` new bits into the accumulator, in 32-bit arithmetic, keeps it equal to
      the unbounded stream `v` on all `a + n` live bits as long as those fit in the word. */
  lemma AccShift(acc: nat, v: nat, a: nat, n: nat, x: nat)
    requires n <= 32 && x < Pow2(n)
    ensures Or(Shl32(acc, n), x) == Shl32(acc, n) + x == Shl(Low(acc, 32 - n), n) + x < Pow2(32)
    ensures a + n <= 32 && Low(acc, a) == Low(v, a) ==> Low(Shl32(acc, n) + x, a + n) == Low(Shl(v, n) + x, a + n)
  {
    hide Low, Shl, Or, Pow2;
    AppendLow(acc, 32 - n, n, 0);
    OrDisjoint(Low(acc, 32 - n), n, x);
    AppendBelow(Low(acc, 32 - n), 32 - n, n, x);
    if a + n <= 32 && Low(acc, a) == Low(v, a) {
      AppendLow(Low(acc, 32 - n), a, n, x);
      LowLow(acc, a, 32 - n);
      AppendLow(v, a, n, x);
    }
  }

  lemma {:induction false} WidthScale(b: nat, t: nat)
    ensures Width(2 * b, t) == 2 * Width(b, t) && Width(4 * b, t) == 4 * Width(b, t)
    ensures Width(8 * b, t) == 8 * Width(b, t)
    decreases t
  {
    if t > 0 { WidthScale(b, t - 1); }
  }

  /** Fill levels are multiples of the common divisor of the bits read and written. */
  lemma FillMultiple(bitLen: nat, t: nat) returns (q: nat, c: nat)
    ensures Gcd8(bitLen) == 8 ==> bitLen == 8 * q && Width(bitLen, t) == 8 * c
    ensures Gcd8(bitLen) == 4 ==> bitLen == 4 * q && Width(bitLen, t) == 4 * c
    ensures Gcd8(bitLen) == 2 ==> bitLen == 2 * q && Width(bitLen, t) == 2 * c
  {
    q := if Gcd8(bitLen) == 8 then bitLen / 8 else if Gcd8(bitLen) == 4 then bitLen / 4 else bitLen / 2;
    c := Width(q, t);
    WidthScale(q, t);
  }

  /** Multiples of 1, 2, 4 or 8 that differ, differ by that much. */
  lemma MultiplesApart(x: nat, y: nat, g: nat)
    requires x < y
    requires g == 1 || (g == 2 && x % 2 == y % 2) || (g == 4 && x % 4 == y % 4) || (g == 8 && x % 8 == y % 8)
    ensures x + g <= y
  {
    if g == 2 {
      QuotientsApart(x, y, 2);
    } else if g == 4 {
      QuotientsApart(x, y, 4);
    } else if g == 8 {
      QuotientsApart(x, y, 8);
    }
  }

  lemma QuotientsApart(x: nat, y: nat, g: nat)
    requires x < y && g > 0 && x % g == y % g
    ensures x + g <= y
  {
    var p, q := x / g, y / g;
    assert x == g * p + x % g && y == g * q + y % g;
    if q <= p {
      Times(g, q, p);
    } else {
      Times(g, p + 1, q);
    }
  }

  lemma Times(g: nat, a: nat, b: nat)
    requires a <= b
    ensures g * a <= g * b
  {
  }

  /** With the fill level below `bitLen`, eight more bits fit. */
  lemma RoomForByte(bitLen: nat, i: nat, t: nat, a: nat)
    requires FitsAccumulator(bitLen)
    requires a + Width(bitLen, t) == 8 * i && a < bitLen
    ensures a + 8 <= 32
  {
    var q, c := FillMultiple(bitLen, t);
    var g := Gcd8(bitLen);
    hide Width, Gcd8;
    assert g == 8 ==> a == 8 * (i - c);
    assert g == 4 ==> a == 4 * (2 * i - c);
    assert g == 2 ==> a == 2 * (4 * i - c);
    MultiplesApart(a, bitLen, g);
  }

  /** With the fill level below eight, one more element fits. */
  lemma RoomForElement(bitLen: nat, i: nat, t: nat, a: nat)
    requires FitsAccumulator(bitLen)
    requires a + 8 * i == Width(bitLen, t) && a < 8
    ensures a + bitLen <= 32
  {
    var q, c := FillMultiple(bitLen, t);
    var g := Gcd8(bitLen);
    hide Width, Gcd8;
    assert g == 8 ==> a == 8 * (c - i);
    assert g == 4 ==> a == 4 * (c - 2 * i);
    assert g == 2 ==> a == 2 * (c - 4 * i);
    MultiplesApart(a, 8, g);
  }

  // --- Masks that cross byte boundaries ---

  lemma {:induction false} ShrMask(n: nat, k: nat)
    requires k <= n
    ensures Shr(Pow2(n) - 1, k) == Pow2(n - k) - 1
  {
    if k > 0 { ShrMask(n - 1, k - 1); }
  }

  lemma {:induction false} LowMask(m: nat, n: nat)
    ensures Low(Pow2(m) - 1, n) == Pow2(if m < n then m else n) - 1
  {
    if m == 0 {
      LowOfSmall(0, n);
    } else if n > 0 {
      LowMask(m - 1, n - 1);
    }
  }

  /** `(mask >> k) & 0xFF` for the `bitLen`-bit mask. */
  function ByteMask(bitLen: nat, k: nat): nat {
    And(Shr(Pow2(bitLen) - 1, k), 255)
  }

  lemma EightOnes()
    ensures Pow2(8) - 1 == 255
  {
  }

  /** Applied to a value, it keeps the low bits that belong to the element's byte. */
  lemma ByteMaskKeeps(z: nat, k: nat, m: nat)
    ensures And(z, ByteMask(k + m, k)) == Low(z, if m < 8 then m else 8)
  {
    hide Pow2, And, Shr, Low;
    var n := if m < 8 then m else 8;
    EightOnes();
    ShrMask(k + m, k);
    AndMask(Pow2(m) - 1, 8);
    LowMask(m, 8);
    AndMask(z, n);
  }

  /** Byte `k / 8` of a `k + m` bit number has at most `m` bits. */
  lemma TopByte(z: nat, k: nat, m: nat)
    ensures Low(Shr(Low(z, k + m), k), 8) == Low(Shr(z, k), if m < 8 then m else 8)
  {
    ShrLow(z, k, m);
    if m < 8 {
      Pow2Mono(m, 8);
      LowOfSmall(Low(Shr(z, k), m), 8);
    } else {
      LowLow(Shr(z, k), 8, m);
    }
  }

  /** The byte stored for bits `k ..` of an element is that byte of the element. */
  lemma ExpandedByteIsDigit(acc: nat, a: nat, k: nat, m: nat)
    ensures And(Shr(acc, a + k), ByteMask(k + m, k)) == Low(Shr(Low(Shr(acc, a), k + m), k), 8)
  {
    ByteMaskKeeps(Shr(acc, a + k), k, m);
    ShrPlus(acc, a, k);
    TopByte(Shr(acc, a), k, m);
  }

  /** Byte `x` (of `WidthBytes`) that `ExpandArray` stores for the element on top of `a`
      remaining accumulator bits. */
  function ElementByte(acc: nat, a: nat, bitLen: nat, x: nat): (r: byte)
    requires x < WidthBytes(bitLen)
    ensures r == Digits(Low(Shr(acc, a), bitLen), 8, WidthBytes(bitLen))[x]
  {
    var k := 8 * (WidthBytes(bitLen) - x - 1);
    ExpandedByteIsDigit(acc, a, k, bitLen - k);
    DigitsAt(Low(Shr(acc, a), bitLen), 8, WidthBytes(bitLen), x);
    WidthIsProduct(8, WidthBytes(bitLen) - x - 1);
    assert Pow2(8) == 256;
    And(Shr(acc, a + k), ByteMask(bitLen, k))
  }

  // --- ExpandArray ---

  /** Enough room in the output for one more element. */
  lemma ExpandRoom(n: nat, w: nat, bitLen: nat, t: nat)
    requires bitLen > 0 && bitLen * t <= 8 * n
    ensures w * t <= 8 * w * n / bitLen
  {
    var q, r := 8 * w * n / bitLen, 8 * w * n % bitLen;
    assert 8 * w * n == q * bitLen + r;
    MulMono(bitLen * t, 8 * n, w);
    assert (bitLen * t) * w == (w * t) * bitLen;
    assert (8 * n) * w == 8 * w * n;
    if q + 1 <= w * t {
      MulMono(q + 1, w * t, bitLen);
      assert false;
    }
  }

  /** The accumulator after part of the stream `v`: the live bits are the end of the stream
      and `es` are the `w`-bit digits before them, already written out. */
  ghost predicate Streaming(v: nat, a: nat, acc: nat, es: seq<nat>, w: nat) {
    && Low(acc, a) == Low(v, a)
    && es == Digits(Shr(v, a), w, |es|)
  }

  /** Taking `n` bits in does not change what was written. */
  lemma StreamIn(v: nat, a: nat, acc: nat, es: seq<nat>, w: nat, n: nat, x: nat)
    requires Streaming(v, a, acc, es, w) && a + n <= 32 && x < Pow2(n)
    ensures Shl32(acc, n) + x == Or(Shl32(acc, n), x)
    ensures Streaming(Shl(v, n) + x, a + n, Shl32(acc, n) + x, es, w)
  {
    hide Pow2, Or, Shl32, Shl, Shr, Low, Digits;
    AccShift(acc, v, a, n, x);
    Append(v, n, x);
    ShrPlus(Shl(v, n) + x, n, a);
  }

  /** Writing `w` bits out appends the next digit of the stream. */
  lemma StreamOut(v: nat, a: nat, acc: nat, es: seq<nat>, w: nat)
    requires Streaming(v, a + w, acc, es, w)
    ensures Streaming(v, a, acc, es + [Low(Shr(acc, a), w)], w)
  {
    hide Low, Shr;
    LowLow(acc, a, a + w);
    LowLow(v, a, a + w);
    ShrLow(acc, a, w);
    ShrLow(v, a, w);
    ShrPlus(v, a, w);
  }

  /** The accumulator after some input bytes: its word, how many of its bits are live, and the elements
      taken out of it. */
  datatype Accumulator = Accumulator(value: nat, bits: nat, written: seq<nat>)

  function ExpandSteps(input: seq<nat>, bitLen: nat): Accumulator
    requires bitLen > 0
  {
    if |input| == 0 then Accumulator(0, 0, [])
    else
      var acc := ExpandSteps(input[..|input| - 1], bitLen);
      var value := Or(Shl32(acc.value, 8), input[|input| - 1]);
      if acc.bits + 8 < bitLen then Accumulator(value, acc.bits + 8, acc.written)
      else
        var bits := acc.bits + 8 - bitLen;
        Accumulator(value, bits, acc.written + [Low(Shr(value, bits), bitLen)])
  }

  lemma ExpandStep(input: seq<nat>, i: nat, bitLen: nat)
    requires i < |input| && bitLen > 0
    ensures var acc := ExpandSteps(input[..i], bitLen);
      var value := Or(Shl32(acc.value, 8), input[i]);
      ExpandSteps(input[..i + 1], bitLen)
      == if acc.bits + 8 < bitLen then Accumulator(value, acc.bits + 8, acc.written)
         else
           Accumulator(value, acc.bits + 8 - bitLen, acc.written + [Low(Shr(value, acc.bits + 8 - bitLen), bitLen)])
  {
    hide Or, Shl32, Low, Shr;
    assert input[..i + 1][..i] == input[..i];
  }

  /** Reading byte `i` of the input, as far as the stream is concerned. */
  lemma ExpandByte(input: seq<byte>, i: nat, a: nat, acc: nat, es: seq<nat>, bitLen: nat)
    requires i < |input|
    requires a + Width(bitLen, |es|) == 8 * i && a < bitLen
    requires FitsAccumulator(bitLen) ==> Streaming(Val(input[..i], 8), a, acc, es, bitLen)
    ensures FitsAccumulator(bitLen) ==>
              Streaming(Val(input[..i + 1], 8), a + 8, Or(Shl32(acc, 8), input[i]), es, bitLen)
    ensures FitsAccumulator(bitLen) && bitLen <= a + 8 ==>
              Streaming(Val(input[..i + 1], 8), a + 8 - bitLen, Or(Shl32(acc, 8), input[i]),
                        es + [Low(Shr(Or(Shl32(acc, 8), input[i]), a + 8 - bitLen), bitLen)], bitLen)
  {
    hide Low, Shr, Shl, Shl32, Or, Digits, Val, Streaming, Pow2, Width, FitsAccumulator;
    if !FitsAccumulator(bitLen) { return; }
    assert input[..i + 1] == input[..i] + [input[i]];
    ValAppend(input[..i], input[i], 8);
    RoomForByte(bitLen, i, |es|, a);
    ByteBelow(input[i]);
    StreamIn(Val(input[..i], 8), a, acc, es, bitLen, 8, input[i]);
    if bitLen <= a + 8 {
      StreamOut(Val(input[..i + 1], 8), a + 8 - bitLen, Or(Shl32(acc, 8), input[i]), es, bitLen);
    }
  }

  lemma SerializeNext(es: seq<nat>, e: nat, pad: nat, width: nat)
    ensures Serialize(es + [e], pad, width) == Serialize(es, pad, width) + (Zeros(pad) + Digits(e, 8, width))
  {
    assert (es + [e])[..|es|] == es;
  }

  /** The two inner loops: the next element behind the elements `es`, padding first. */
  method WriteElement(out: array<byte>, j: nat, accValue: nat, accBits: nat, bitLen: nat, bytePad: nat,
                      ghost es: seq<nat>)
    requires j + bytePad + WidthBytes(bitLen) <= out.Length
    requires out[..j] == Serialize(es, bytePad, WidthBytes(bitLen))
    modifies out
    ensures forall k :: j + bytePad + WidthBytes(bitLen) <= k < out.Length ==> out[k] == old(out[k])
    ensures out[..j + bytePad + WidthBytes(bitLen)]
         == Serialize(es + [Low(Shr(accValue, accBits), bitLen)], bytePad, WidthBytes(bitLen))
  {
    hide *;
    var outWidth := bytePad + WidthBytes(bitLen);
    ghost var next := es + [Low(Shr(accValue, accBits), bitLen)];
    ghost var bytes := Digits(next[|es|], 8, WidthBytes(bitLen));
    ghost var image := old(out[..j]) + (Zeros(bytePad) + bytes);
    SerializeNext(es, next[|es|], bytePad, WidthBytes(bitLen));
    for x := 0 to bytePad
      invariant forall k :: j + outWidth <= k < out.Length ==> out[k] == old(out[k])
      invariant forall k :: 0 <= k < j + x ==> out[k] == image[k]
    {
      assert image[j + x] == Zeros(bytePad)[x];
      out[j + x] := 0;
    }
    for x := bytePad to outWidth
      invariant forall k :: j + outWidth <= k < out.Length ==> out[k] == old(out[k])
      invariant forall k :: 0 <= k < j + x ==> out[k] == image[k]
    {
      assert image[j + x] == bytes[x - bytePad];
      out[j + x] := ElementByte(accValue, accBits, bitLen, x - bytePad);
    }
    assert out[..j + outWidth] == image;
  }

  /** The accumulator stays below one element, and holds the end of the bit stream if that fits. */
  lemma {:induction false} ExpandStepsFill(input: seq<byte>, n: nat, bitLen: nat)
    requires n <= |input| && bitLen >= 8
    ensures var acc := ExpandSteps(input[..n], bitLen);
      && acc.bits + Width(bitLen, |acc.written|) == 8 * n && acc.bits < bitLen
      && (FitsAccumulator(bitLen) ==> Streaming(Val(input[..n], 8), acc.bits, acc.value, acc.written, bitLen))
  {
    hide Low, Shr, Or, Shl32, Val, Digits, Width, FitsAccumulator, Streaming, ExpandSteps;
    if n == 0 {
      ExpandStart(bitLen);
      NoWidth(bitLen);
      assert input[..0] == [];
    } else {
      ExpandStepsFill(input, n - 1, bitLen);
      ExpandStep(input, n - 1, bitLen);
      WidthStep(bitLen, |ExpandSteps(input[..n - 1], bitLen).written|);
      var acc := ExpandSteps(input[..n - 1], bitLen);
      ExpandByte(input, n - 1, acc.bits, acc.value, acc.written, bitLen);
    }
  }

  lemma ExpandStart(bitLen: nat)
    requires bitLen > 0
    ensures ExpandSteps([], bitLen) == Accumulator(0, 0, []) && Streaming(Val([], 8), 0, 0, [], bitLen)
  {
  }

  lemma SerializeNone(pad: nat, width: nat)
    ensures Serialize([], pad, width) == []
  {
  }

  /** The accumulator loop. `es` are the elements written. */
  method ExpandLoop(input: seq<byte>, out: array<byte>, bitLen: nat, bytePad: nat) returns (ghost es: seq<nat>)
    requires bitLen >= 8
    requires forall t: nat {:trigger Width(bitLen, t)} ::
               Width(bitLen, t) <= 8 * |input| ==> Width(bytePad + WidthBytes(bitLen), t) <= out.Length
    modifies out
    ensures es == ExpandSteps(input, bitLen).written
    ensures Width(bitLen, |es|) <= 8 * |input| < Width(bitLen, |es|) + bitLen
    ensures Width(bytePad + WidthBytes(bitLen), |es|) <= out.Length
    ensures forall k :: Width(bytePad + WidthBytes(bitLen), |es|) <= k < out.Length ==> out[k] == old(out[k])
    ensures out[..Width(bytePad + WidthBytes(bitLen), |es|)] == Serialize(es, bytePad, WidthBytes(bitLen))
  {
    hide Low, Shr, Or, Shl32, Val, Digits, Width, Serialize, FitsAccumulator, WidthBytes, ExpandSteps, Streaming;
    var outWidth := bytePad + WidthBytes(bitLen);
    var accBits: nat, accValue: nat, j: nat := 0, 0, 0;
    es := [];
    ExpandStart(bitLen);
    assert input[..0] == [];
    NoWidth(bitLen);
    NoWidth(outWidth);
    SerializeNone(bytePad, WidthBytes(bitLen));
    for i := 0 to |input|
      invariant ExpandSteps(input[..i], bitLen) == Accumulator(accValue, accBits, es)
      invariant accBits + Width(bitLen, |es|) == 8 * i && accBits < bitLen
      invariant j == Width(outWidth, |es|) && j <= out.Length
      invariant forall k :: j <= k < out.Length ==> out[k] == old(out[k])
      invariant out[..j] == Serialize(es, bytePad, WidthBytes(bitLen))
    {
      ExpandStep(input, i, bitLen);
      accValue := Or(Shl32(accValue, 8), input[i]);
      accBits := accBits + 8;
      if accBits >= bitLen {
        accBits := accBits - bitLen;
        ghost var next := es + [Low(Shr(accValue, accBits), bitLen)];
        WidthStep(bitLen, |es|);
        WidthStep(outWidth, |es|);
        assert Width(bitLen, |next|) <= 8 * |input|;
        WriteElement(out, j, accValue, accBits, bitLen, bytePad, es);
        es := next;
        j := j + outWidth;
      }
    }
    assert input[..|input|] == input;
  }

  /** The number of output bytes of `n` input bytes. */
  function OutLen(n: nat, bitLen: nat, bytePad: nat): nat
    requires bitLen > 0
  {
    Width(bytePad + WidthBytes(bitLen), 8 * n / bitLen)
  }

  lemma OutRoom(n: nat, w: nat, bitLen: nat)
    requires bitLen > 0
    ensures forall t: nat {:trigger Width(bitLen, t)} :: Width(bitLen, t) <= 8 * n ==> Width(w, t) <= 8 * w * n / bitLen
  {
    forall t: nat | Width(bitLen, t) <= 8 * n
      ensures Width(w, t) <= 8 * w * n / bitLen
    {
      WidthIsProduct(bitLen, t);
      WidthIsProduct(w, t);
      ExpandRoom(n, w, bitLen, t);
    }
  }

  lemma ElementCount(n: nat, w: nat, bitLen: nat, t: nat)
    requires Width(bitLen, t) <= 8 * n < Width(bitLen, t) + bitLen
    ensures t == 8 * n / bitLen && 8 * n - Width(bitLen, t) == 8 * n % bitLen
    ensures Width(w, t) == Width(w, 8 * n / bitLen) <= 8 * w * n / bitLen
  {
    OutRoom(n, w, bitLen);
    WidthIsProduct(bitLen, t);
    WidthIsProduct(w, t);
    DivUnique(8 * n, bitLen, t, 8 * n - Width(bitLen, t));
  }

  /** In a wide enough word the loop takes out the elements of the bit stream. */
  lemma ExpandStepsAreExact(input: seq<byte>, bitLen: nat)
    requires bitLen >= 8 && FitsAccumulator(bitLen)
    ensures ExpandSteps(input, bitLen).written == Expanded(input, bitLen)
  {
    hide ExpandSteps, FitsAccumulator, Val, Digits, Shr, Low;
    ExpandStepsFill(input, |input|, bitLen);
    assert input[..|input|] == input;
    ElementCount(|input|, 0, bitLen, |ExpandSteps(input, bitLen).written|);
  }

  method ExpandArray(input: seq<byte>, out: array<byte>, outLen: nat, bitLen: nat, bytePad: nat)
    requires 8 <= bitLen < 32
    requires outLen == 8 * (bytePad + WidthBytes(bitLen)) * |input| / bitLen && outLen <= out.Length
    modifies out
    ensures OutLen(|input|, bitLen, bytePad) <= outLen
    ensures out[OutLen(|input|, bitLen, bytePad)..] == old(out[OutLen(|input|, bitLen, bytePad)..])
    ensures out[..OutLen(|input|, bitLen, bytePad)]
         == Serialize(ExpandSteps(input, bitLen).written, bytePad, WidthBytes(bitLen))
    ensures FitsAccumulator(bitLen) ==>
              out[..OutLen(|input|, bitLen, bytePad)]
              == Serialize(Expanded(input, bitLen), bytePad, WidthBytes(bitLen))
  {
    hide Width, Digits, Serialize, Val, Shr, Pow2, WidthBytes, FitsAccumulator, ExpandSteps, Expanded;
    if FitsAccumulator(bitLen) {
      ExpandStepsAreExact(input, bitLen);
    }
    OutRoom(|input|, bytePad + WidthBytes(bitLen), bitLen);
    ghost var es := ExpandLoop(input, out, bitLen, bytePad);
    ElementCount(|input|, bytePad + WidthBytes(bitLen), bitLen, |es|);
  }

  // --- CompressArray ---

  /** The elements stored in `input`, `pad + width` bytes each, of which `bitLen` bits count. */
  function Elements(input: seq<nat>, pad: nat, width: nat, bitLen: nat): seq<nat>
    requires width > 0
    decreases |input|
  {
    if |input| < pad + width then
      []
    else
      Elements(input[..|input| - pad - width], pad, width, bitLen) + [Low(Val(input[|input| - width..], 8), bitLen)]
  }

  /** The bit stream of the elements, filled up with zero bits to `n` bytes. */
  function Compressed(es: seq<nat>, bitLen: nat, n: nat): seq<nat>
    requires Width(bitLen, |es|) <= 8 * n
  {
    Digits(Shl(Val(es, bitLen), 8 * n - Width(bitLen, |es|)), 8, n)
  }

  /** OR-ing `m` bits in, `s` bits above the end of the word. */
  lemma OrInto(q: nat, s: nat, m: nat, c: nat)
    requires c < Pow2(m) && s + m <= 32
    ensures Or(Shl(q, s + m), Shl32(c, s)) == Shl(Shl(q, m) + c, s)
  {
    hide Shl, Low, Or, Pow2;
    AppendBelow(c, m, s, 0);
    Pow2Mono(s + m, 32);
    LowOfSmall(Shl(c, s), 32);
    OrDisjoint(q, s + m, Shl(c, s));
    ShlPlus(q, m, s);
    ShlAdd(Shl(q, m), c, s);
  }

  /** The next byte of an element of which `r` bits were read; only its first byte can
      have less than eight bits that count. */
  lemma NextByte(a: nat, v: nat, r: nat, m: nat, b: nat)
    requires b < Pow2(8)
    requires m == 8 || (m < 8 && r == 0 && v == 0)
    ensures Shl(Shl(a, r) + Low(v, r), m) + Low(b, m) == Shl(a, r + m) + Low(Shl(v, 8) + b, r + m)
  {
    hide Shl, Low, Pow2;
    ShlPlus(a, r, m);
    ShlAdd(Shl(a, r), Low(v, r), m);
    if m == 8 {
      LowOfSmall(b, 8);
      AppendLow(v, r, 8, b);
    } else {
      LowNone(v);
      ShlOfZero(m);
      ShlOfZero(8);
    }
  }

  /** Where byte `x` of `width` sits in the element: `s` bits above its end, with `m` bits
      that count. */
  lemma BytePosition(bitLen: nat, x: nat) returns (s: nat, m: nat)
    requires bitLen > 0 && x < WidthBytes(bitLen)
    ensures s == 8 * (WidthBytes(bitLen) - x - 1) < bitLen
    ensures m == (if bitLen - s < 8 then bitLen - s else 8)
    ensures x > 0 ==> m == 8
    ensures s + m == if bitLen < s + 8 then bitLen else s + 8
  {
    s := 8 * (WidthBytes(bitLen) - x - 1);
    m := if bitLen - s < 8 then bitLen - s else 8;
  }

  /** The element with its first `x` bytes read, in the accumulator behind `a`. */
  function Partial(a: nat, bytes: seq<nat>, x: nat, bitLen: nat): nat
    requires x <= |bytes| && bitLen > 0
  {
    var s := 8 * (|bytes| - x);
    var r := if bitLen < s then 0 else bitLen - s;
    Shl(Shl(a, r) + Low(Val(bytes[..x], 8), r), bitLen - r)
  }

  lemma PartialIs(a: nat, bytes: seq<nat>, x: nat, bitLen: nat, r: nat)
    requires bitLen > 0 && x <= |bytes|
    requires r == if bitLen < 8 * (|bytes| - x) then 0 else bitLen - 8 * (|bytes| - x)
    ensures Partial(a, bytes, x, bitLen) == Shl(Shl(a, r) + Low(Val(bytes[..x], 8), r), bitLen - r)
  {
  }

  lemma ValPrefix(bytes: seq<nat>, x: nat)
    requires x < |bytes|
    ensures Val(bytes[..x + 1], 8) == Shl(Val(bytes[..x], 8), 8) + bytes[x]
  {
    assert bytes[..x + 1] == bytes[..x] + [bytes[x]];
    ValAppend(bytes[..x], bytes[x], 8);
  }

  lemma PartialStep(acc: nat, a: nat, bytes: seq<nat>, x: nat, bitLen: nat)
    requires 0 < bitLen <= 32 && x < |bytes| == WidthBytes(bitLen) && bytes[x] < Pow2(8)
    requires acc == Partial(a, bytes, x, bitLen)
    ensures Or(acc, Shl32(And(bytes[x], ByteMask(bitLen, 8 * (|bytes| - x - 1))), 8 * (|bytes| - x - 1)))
         == Partial(a, bytes, x + 1, bitLen)
  {
    hide *;
    var s, m := BytePosition(bitLen, x);
    var v := Val(bytes[..x], 8);
    ValPrefix(bytes, x);
    var r := bitLen - s - m;
    PartialIs(a, bytes, x, bitLen, r);
    PartialIs(a, bytes, x + 1, bitLen, r + m);
    ByteMaskKeeps(bytes[x], s, bitLen - s);
    OrInto(Shl(a, r) + Low(v, r), s, m, Low(bytes[x], m));
    if m < 8 {
      assert bytes[..x] == [];
      ValNone(8);
    }
    NextByte(a, v, r, m, bytes[x]);
  }

  lemma PartialEnds(accValue: nat, bytes: seq<nat>, bitLen: nat)
    requires 0 < bitLen < 32 && |bytes| == WidthBytes(bitLen)
    ensures Partial(Low(accValue, 32 - bitLen), bytes, 0, bitLen) == Shl32(accValue, bitLen)
    ensures Partial(Low(accValue, 32 - bitLen), bytes, |bytes|, bitLen)
         == Shl32(accValue, bitLen) + Low(Val(bytes, 8), bitLen)
  {
    hide Val, Shl, Low, Shl32, Partial;
    Shl32IsShl(accValue, bitLen);
    assert bytes[..|bytes|] == bytes;
    PartialIs(Low(accValue, 32 - bitLen), bytes, 0, bitLen, 0);
    PartialIs(Low(accValue, 32 - bitLen), bytes, |bytes|, bitLen, bitLen);
    NoShift(Low(accValue, 32 - bitLen), Val(bytes[..0], 8));
    NoShift(Shl(Low(accValue, 32 - bitLen), bitLen) + Low(Val(bytes, 8), bitLen), 0);
  }

  lemma Shl32IsShl(acc: nat, n: nat)
    requires n <= 32
    ensures Shl32(acc, n) == Shl(Low(acc, 32 - n), n)
  {
    AppendLow(acc, 32 - n, n, 0);
  }

  lemma NoShift(v: nat, u: nat)
    ensures Shl(v, 0) == v && Low(u, 0) == 0
  {
  }

  lemma ByteBelow(b: byte)
    ensures b < Pow2(8)
  {
    assert Pow2(8) == 256;
  }

  /** The inner loop: shift the accumulator and OR one element into it. */
  method ReadElement(input: seq<byte>, j: nat, accValue: nat, bitLen: nat, bytePad: nat) returns (acc: nat)
    requires 0 < bitLen < 32
    requires j + bytePad + WidthBytes(bitLen) <= |input|
    ensures acc == Shl32(accValue, bitLen)
                 + Low(Val(input[j + bytePad..j + bytePad + WidthBytes(bitLen)], 8), bitLen)
  {
    hide *;
    ghost var bytes: seq<nat> := input[j + bytePad..j + bytePad + WidthBytes(bitLen)];
    ghost var a := Low(accValue, 32 - bitLen);
    PartialEnds(accValue, bytes, bitLen);
    var inWidth := WidthBytes(bitLen) + bytePad;
    acc := Shl32(accValue, bitLen);
    for x := bytePad to inWidth
      invariant acc == Partial(a, bytes, x - bytePad, bitLen)
    {
      assert bytes[x - bytePad] == input[j + x];
      ByteBelow(input[j + x]);
      var s := 8 * (inWidth - x - 1);
      PartialStep(acc, a, bytes, x - bytePad, bitLen);
      acc := Or(acc, Shl32(And(input[j + x], ByteMask(bitLen, s)), s));
    }
  }

  /** The loop state of `CompressArray` after `i` output bytes `done`, with the elements `es`
      read from the stream and `z` zero bits put behind them. */
  ghost predicate Compressing(es: seq<nat>, z: nat, a: nat, acc: nat, done: seq<nat>, bitLen: nat) {
    && a + 8 * |done| == Width(bitLen, |es|) + z
    && (FitsAccumulator(bitLen) ==> Streaming(Shl(Val(es, bitLen), z), a, acc, done, 8))
  }

  lemma CompressRead(es: seq<nat>, a: nat, acc: nat, done: seq<nat>, bitLen: nat, x: nat)
    requires Compressing(es, 0, a, acc, done, bitLen) && a < 8 && x < Pow2(bitLen)
    ensures Compressing(es + [x], 0, a + bitLen, Shl32(acc, bitLen) + x, done, bitLen)
  {
    hide Streaming, Shl, Val, Shl32, FitsAccumulator, Low, Pow2;
    ValAppend(es, x, bitLen);
    NoShift(Val(es, bitLen), 0);
    NoShift(Val(es + [x], bitLen), 0);
    if FitsAccumulator(bitLen) {
      RoomForElement(bitLen, |done|, |es|, a);
      StreamIn(Val(es, bitLen), a, acc, done, 8, bitLen, x);
    }
  }

  lemma CompressPad(es: seq<nat>, a: nat, acc: nat, done: seq<nat>, bitLen: nat)
    requires Compressing(es, 0, a, acc, done, bitLen) && a < 8
    ensures Compressing(es, 8 - a, 8, Shl32(acc, 8 - a), done, bitLen)
  {
    hide Streaming, Shl, Val, Shl32, FitsAccumulator, Low, Width;
    NoShift(Val(es, bitLen), 0);
    if FitsAccumulator(bitLen) {
      StreamIn(Val(es, bitLen), a, acc, done, 8, 8 - a, 0);
    }
  }

  lemma CompressEmit(es: seq<nat>, z: nat, a: nat, acc: nat, done: seq<nat>, bitLen: nat)
    requires Compressing(es, z, a + 8, acc, done, bitLen)
    ensures And(Shr(acc, a), 255) == Low(Shr(acc, a), 8) < 256
    ensures Compressing(es, z, a, acc, done + [Low(Shr(acc, a), 8)], bitLen)
  {
    hide Streaming, Shl, Val, And, Low, Shr, Width, FitsAccumulator;
    MaskByte(Shr(acc, a));
    if FitsAccumulator(bitLen) {
      StreamOut(Shl(Val(es, bitLen), z), a, acc, done, 8);
    }
  }

  lemma MaskByte(v: nat)
    ensures And(v, 255) == Low(v, 8) < 256
  {
    assert Pow2(8) - 1 == 255;
    AndMask(v, 8);
  }

  lemma ElementsStep(input: seq<nat>, j: nat, w: nat, bytePad: nat, bitLen: nat)
    requires bitLen > 0 && w == bytePad + WidthBytes(bitLen)
    requires j + w <= |input|
    ensures Elements(input[..j + w], bytePad, WidthBytes(bitLen), bitLen)
         == Elements(input[..j], bytePad, WidthBytes(bitLen), bitLen)
          + [Low(Val(input[j + bytePad..j + w], 8), bitLen)]
  {
    hide Low, Val, Width;
    var front := input[..j + w];
    assert front[..j] == input[..j];
    assert front[j + bytePad..] == input[j + bytePad..j + w];
  }

  lemma CompressEnd(es: seq<nat>, z: nat, a: nat, acc: nat, done: seq<nat>, bitLen: nat, e: nat)
    requires Compressing(es, z, a, acc, done, bitLen)
    requires bitLen > 0 && |es| <= e && Width(bitLen, e) <= 8 * |done| < Width(bitLen, e) + 8
    requires z == 0 || (|es| == e && a == 0)
    ensures |es| == e
    ensures FitsAccumulator(bitLen) ==> done == Compressed(es, bitLen, |done|)
  {
    hide FitsAccumulator, Low, Shl, Val, Digits;
    WidthMono(bitLen, |es|, e);
    if FitsAccumulator(bitLen) {
      assert a == 0;
      NoShiftRight(Shl(Val(es, bitLen), z));
    }
  }

  lemma NoShiftRight(v: nat)
    ensures Shr(v, 0) == v
  {
  }

  /** The loop state after some output bytes `done`: the word, its live bits, and how many elements were
      read. */
  datatype Packer = Packer(value: nat, bits: nat, read: nat, done: seq<nat>)

  /** Makes sure that there is a whole byte: by the next element, or by zero bits after the last. */
  function Refilled(p: Packer, es: seq<nat>, bitLen: nat): (q: Packer)
    requires bitLen >= 8
    ensures q.bits >= 8
  {
    if p.bits >= 8 then p
    else if p.read < |es| then Packer(Shl32(p.value, bitLen) + es[p.read], p.bits + bitLen, p.read + 1, p.done)
    else Packer(Shl32(p.value, 8 - p.bits), 8, p.read, p.done)
  }

  function CompressSteps(es: seq<nat>, bitLen: nat, n: nat): Packer
    requires bitLen >= 8
  {
    if n == 0 then Packer(0, 0, 0, [])
    else
      var q := Refilled(CompressSteps(es, bitLen, n - 1), es, bitLen);
      Packer(q.value, q.bits - 8, q.read, q.done + [Low(Shr(q.value, q.bits - 8), 8)])
  }

  /** The zero bits put behind the elements. */
  function Padding(p: Packer, bitLen: nat): int { p.bits + 8 * |p.done| - Width(bitLen, p.read) }

  /** While there is output to write, the loop is at the end of the stream of the elements read. */
  lemma {:induction false} CompressStepsFill(es: seq<nat>, bitLen: nat, n: nat)
    requires Below(es, bitLen) && 8 <= bitLen < 32 && 8 * n < Width(bitLen, |es|) + 8
    ensures var p := CompressSteps(es, bitLen, n);
      && |p.done| == n && p.read <= |es|
      && Padding(p, bitLen) >= 0
      && Compressing(es[..p.read], Padding(p, bitLen), p.bits, p.value, p.done, bitLen)
      && (Padding(p, bitLen) == 0 || (p.read == |es| && p.bits == 0 && 8 * n >= Width(bitLen, |es|)))
  {
    hide Compressing, Low, Shl32, Shr, Pow2, Val, Shl, CompressSteps, Width;
    CompressFirst(es, bitLen, n);
    if n == 0 {
      assert es[..0] == [];
    } else {
      CompressStepsFill(es, bitLen, n - 1);
      var p := CompressSteps(es, bitLen, n - 1);
      CompressingFill(es[..p.read], Padding(p, bitLen), p.bits, p.value, p.done, bitLen);
      if p.bits < 8 {
        if p.read < |es| {
          CompressRead(es[..p.read], p.bits, p.value, p.done, bitLen, es[p.read]);
          assert es[..p.read + 1] == es[..p.read] + [es[p.read]];
          WidthStep(bitLen, p.read);
        } else {
          CompressPad(es[..p.read], p.bits, p.value, p.done, bitLen);
        }
      }
      var q := Refilled(p, es, bitLen);
      CompressEmit(es[..q.read], Padding(q, bitLen), q.bits - 8, q.value, q.done, bitLen);
    }
  }

  lemma CompressFirst(es: seq<nat>, bitLen: nat, n: nat)
    requires bitLen >= 8
    ensures CompressSteps(es, bitLen, 0) == Packer(0, 0, 0, [])
    ensures Width(bitLen, 0) == 0 && Compressing([], 0, 0, 0, [], bitLen)
    ensures n > 0 ==>
      var q := Refilled(CompressSteps(es, bitLen, n - 1), es, bitLen);
      CompressSteps(es, bitLen, n) == Packer(q.value, q.bits - 8, q.read, q.done + [Low(Shr(q.value, q.bits - 8), 8)])
  {
    hide Shl32, Low, Shr;
    ShlOfZero(0);
  }

  lemma CompressingFill(es: seq<nat>, z: nat, a: nat, acc: nat, done: seq<nat>, bitLen: nat)
    requires Compressing(es, z, a, acc, done, bitLen)
    ensures a + 8 * |done| == Width(bitLen, |es|) + z
  {
  }

  /** In a wide enough word the loop writes the bit stream of the elements. */
  lemma CompressStepsAreExact(es: seq<nat>, bitLen: nat, n: nat)
    requires Below(es, bitLen) && 8 <= bitLen < 32 && FitsAccumulator(bitLen)
    requires Width(bitLen, |es|) <= 8 * n < Width(bitLen, |es|) + 8
    ensures CompressSteps(es, bitLen, n).done == Compressed(es, bitLen, n)
  {
    hide FitsAccumulator, CompressSteps, Width, Compressed, Compressing;
    CompressStepsFill(es, bitLen, n);
    var p := CompressSteps(es, bitLen, n);
    CompressingFill(es[..p.read], Padding(p, bitLen), p.bits, p.value, p.done, bitLen);
    WidthMono(bitLen, p.read, |es|);
    CompressEnd(es[..p.read], Padding(p, bitLen), p.bits, p.value, p.done, bitLen, |es|);
    assert es[..p.read] == es;
  }

  /** The element at position `t` of the input. */
  lemma {:induction false} ElementAt(input: seq<nat>, w: nat, bytePad: nat, bitLen: nat, e: nat, t: nat)
    requires bitLen > 0 && w == bytePad + WidthBytes(bitLen) && |input| == Width(w, e)
    ensures |Elements(input, bytePad, WidthBytes(bitLen), bitLen)| == e
    ensures t < e ==>
      && Width(w, t) + w <= |input|
      && Elements(input, bytePad, WidthBytes(bitLen), bitLen)[t]
         == Low(Val(input[Width(w, t) + bytePad..Width(w, t) + w], 8), bitLen)
    decreases e
  {
    hide Low, Val, Elements, Width;
    if e == 0 {
      NoElements(bytePad, WidthBytes(bitLen), bitLen, w);
      assert input == [];
    } else {
      WidthStep(w, e - 1);
      var j := Width(w, e - 1);
      ElementAt(input[..j], w, bytePad, bitLen, e - 1, t);
      ElementsStep(input, j, w, bytePad, bitLen);
      assert input[..j + w] == input;
      if t < e - 1 {
        WidthMono(w, t, e - 1);
        assert input[..j][Width(w, t) + bytePad..Width(w, t) + w] == input[Width(w, t) + bytePad..Width(w, t) + w];
      }
    }
  }

  lemma NoElements(pad: nat, width: nat, bitLen: nat, w: nat)
    requires width > 0
    ensures Elements([], pad, width, bitLen) == [] && Width(w, 0) == 0
  {
  }

  /** The accumulator loop over `e` whole input elements. */
  method CompressLoop(input: seq<byte>, out: array<byte>, outLen: nat, bitLen: nat, bytePad: nat, ghost e: nat)
    requires 8 <= bitLen < 32
    requires |input| == Width(bytePad + WidthBytes(bitLen), e)
    requires outLen <= out.Length
    modifies out
    ensures forall k :: outLen <= k < out.Length ==> out[k] == old(out[k])
    ensures |Elements(input, bytePad, WidthBytes(bitLen), bitLen)| == e
    ensures out[..outLen]
         == CompressSteps(Elements(input, bytePad, WidthBytes(bitLen), bitLen), bitLen, outLen).done
  {
    hide *;
    var inWidth := bytePad + WidthBytes(bitLen);
    var accBits: nat, accValue: nat, j: nat := 0, 0, 0;
    ghost var es: seq<nat>, t: nat := Elements(input, bytePad, WidthBytes(bitLen), bitLen), 0;
    ElementAt(input, inWidth, bytePad, bitLen, e, 0);
    CompressFirst(es, bitLen, 0);
    NoElements(0, 1, 1, inWidth);
    for i := 0 to outLen
      invariant j == Width(inWidth, t) && t <= e
      invariant CompressSteps(es, bitLen, i) == Packer(accValue, accBits, t, out[..i])
      invariant forall k :: outLen <= k < out.Length ==> out[k] == old(out[k])
    {
      CompressFirst(es, bitLen, i + 1);
      RefillCases(CompressSteps(es, bitLen, i), es, bitLen);
      WidthMono(inWidth, t, e);
      if accBits < 8 {
        if j < |input| {
          ElementAt(input, inWidth, bytePad, bitLen, e, t);
          WidthStep(inWidth, t);
          accValue := ReadElement(input, j, accValue, bitLen, bytePad);
          t := t + 1;
          j := j + inWidth;
          accBits := accBits + bitLen;
        } else {
          accValue := Shl32(accValue, 8 - accBits);
          accBits := 8;
        }
      }
      accBits := accBits - 8;
      MaskByte(Shr(accValue, accBits));
      out[i] := And(Shr(accValue, accBits), 255);
      assert out[..i + 1] == out[..i] + [out[i]];
    }
  }

  lemma RefillCases(p: Packer, es: seq<nat>, bitLen: nat)
    requires bitLen >= 8
    ensures p.bits >= 8 ==> Refilled(p, es, bitLen) == p
    ensures p.bits < 8 && p.read < |es| ==>
      Refilled(p, es, bitLen) == Packer(Shl32(p.value, bitLen) + es[p.read], p.bits + bitLen, p.read + 1, p.done)
    ensures p.bits < 8 && p.read >= |es| ==>
      Refilled(p, es, bitLen) == Packer(Shl32(p.value, 8 - p.bits), 8, p.read, p.done)
  {
  }

  lemma {:induction false} ElementsBelow(input: seq<nat>, pad: nat, width: nat, bitLen: nat)
    requires width > 0
    ensures Below(Elements(input, pad, width, bitLen), bitLen)
    decreases |input|
  {
    hide Low, Val, Pow2;
    if |input| >= pad + width {
      ElementsBelow(input[..|input| - pad - width], pad, width, bitLen);
    }
  }

  /** The output length the source asserts, in terms of the number of whole elements. */
  lemma CompressedLength(n: nat, w: nat, bitLen: nat, e: nat)
    requires w > 0 && n == w * e
    ensures n == Width(w, e) && bitLen * n / w == Width(bitLen, e)
  {
    WidthIsProduct(w, e);
    WidthIsProduct(bitLen, e);
    hide Width;
    MulSwap(bitLen, w, e);
    DivUnique(bitLen * n, w, bitLen * e, 0);
  }

  lemma WholeElements(n: nat, w: nat) returns (e: nat)
    requires w > 0 && n % w == 0
    ensures n == w * e
  {
    e := n / w;
  }

  lemma MulSwap(a: nat, b: nat, c: nat)
    ensures a * (b * c) == (a * c) * b
  {
  }

  method CompressArray(input: seq<byte>, out: array<byte>, outLen: nat, bitLen: nat, bytePad: nat)
    requires 8 <= bitLen < 32
    requires |input| % (bytePad + WidthBytes(bitLen)) == 0
    requires outLen == (bitLen * |input| / (bytePad + WidthBytes(bitLen)) + 7) / 8 && outLen <= out.Length
    modifies out
    ensures forall k :: outLen <= k < out.Length ==> out[k] == old(out[k])
    ensures Width(bitLen, |Elements(input, bytePad, WidthBytes(bitLen), bitLen)|) <= 8 * outLen
    ensures out[..outLen]
         == CompressSteps(Elements(input, bytePad, WidthBytes(bitLen), bitLen), bitLen, outLen).done
    ensures FitsAccumulator(bitLen) ==>
              out[..outLen] == Compressed(Elements(input, bytePad, WidthBytes(bitLen), bitLen), bitLen, outLen)
  {
    hide Width, Elements, FitsAccumulator, Compressed, CompressSteps;
    ghost var e := WholeElements(|input|, bytePad + WidthBytes(bitLen));
    CompressedLength(|input|, bytePad + WidthBytes(bitLen), bitLen, e);
    CompressLoop(input, out, outLen, bitLen, bytePad, e);
    if FitsAccumulator(bitLen) {
      ElementsBelow(input, bytePad, WidthBytes(bitLen), bitLen);
      CompressStepsAreExact(Elements(input, bytePad, WidthBytes(bitLen), bitLen), bitLen, outLen);
    }
  }
}
