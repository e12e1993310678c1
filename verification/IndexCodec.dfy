/** Packed index lists: `CompressArray` and `ExpandArray` undo each other, and so do
    `GetMinimalFromIndices` and `GetIndicesFromMinimal`. */
module IndexCodec {
  import opened Numbers
  import opened Radix
  import opened BitPacking

  // --- Mutual inverses ---

  /** Unpacking a packed list of in-range elements that fills whole bytes returns it. */
  lemma UnpackPack(es: seq<nat>, bitLen: nat, n: nat)
    requires bitLen > 0 && Below(es, bitLen) && Width(bitLen, |es|) == 8 * n
    ensures Expanded(Compressed(es, bitLen, n), bitLen) == es
  {
    hide Below, Shl, Shr, Low, Val, Digits, Pow2;
    var v := Val(es, bitLen);
    ValBound(es, bitLen);
    WidthIsProduct(8, n);
    WidthIsProduct(bitLen, |es|);
    NoShift(v, 0);
    ValDigits(v, 8, n);
    LowOfSmall(v, 8 * n);
    DivUnique(8 * n, bitLen, |es|, 0);
    NoShiftRight(v);
    DigitsVal(es, bitLen);
  }

  /** Packing what was unpacked from an exact-fit byte string returns the bytes. */
  lemma PackUnpack(bytes: seq<nat>, bitLen: nat)
    requires bitLen > 0 && Below(bytes, 8) && 8 * |bytes| % bitLen == 0
    ensures Width(bitLen, |Expanded(bytes, bitLen)|) == 8 * |bytes|
    ensures Compressed(Expanded(bytes, bitLen), bitLen, |bytes|) == bytes
  {
    hide Below, Shl, Shr, Low, Val, Digits, Pow2;
    var v, e := Val(bytes, 8), 8 * |bytes| / bitLen;
    WidthIsProduct(bitLen, e);
    WidthIsProduct(8, |bytes|);
    assert 8 * |bytes| == bitLen * e;
    NoShiftRight(v);
    ValDigits(v, bitLen, e);
    ValBound(bytes, 8);
    LowOfSmall(v, 8 * |bytes|);
    NoShift(v, 0);
    DigitsVal(bytes, 8);
  }

  /** Unpacking is injective on exact-fit byte strings of one length. */
  lemma UnpackInjective(a: seq<nat>, b: seq<nat>, bitLen: nat)
    requires bitLen > 0 && |a| == |b| && 8 * |a| % bitLen == 0
    requires Below(a, 8) && Below(b, 8)
    requires Expanded(a, bitLen) == Expanded(b, bitLen)
    ensures a == b
  {
    PackUnpack(a, bitLen);
    PackUnpack(b, bitLen);
  }

  lemma BytesBelow(s: seq<byte>)
    ensures Below(s, 8)
  {
    assert Pow2(8) == 256;
  }

  /** Element `j` of a bit stream is its `j`-th group of `w` bits, counted from the front. */
  lemma ElementIs(input: seq<nat>, w: nat, j: nat)
    requires w > 0 && j < 8 * |input| / w
    ensures |Expanded(input, w)| == 8 * |input| / w && w * (j + 1) <= 8 * |input|
    ensures Expanded(input, w)[j] == Val(input, 8) / Pow2(8 * |input| - w * (j + 1)) % Pow2(w)
  {
    hide Val, Digits, Low, Shr, Pow2, Width;
    var v, e, rest := Val(input, 8), 8 * |input| / w, 8 * |input| % w;
    DigitsAt(Shr(v, rest), w, e, j);
    WidthIsProduct(w, e - 1 - j);
    ShrPlus(v, rest, w * (e - 1 - j));
    GroupsLeft(8 * |input|, w, j);
    ShiftsAreDivision(v, 8 * |input| - w * (j + 1));
    ShiftsAreDivision(Shr(v, 8 * |input| - w * (j + 1)), w);
  }

  /** Compression writes the elements one after the other, and zero bits behind the last. */
  lemma CompressedIs(es: seq<nat>, w: nat, n: nat)
    requires Below(es, w) && w * |es| <= 8 * n
    ensures Width(w, |es|) <= 8 * n && |Compressed(es, w, n)| == n
    ensures Val(Compressed(es, w, n), 8) == Val(es, w) * Pow2(8 * n - w * |es|)
  {
    hide Val, Digits, Low, Shl, Pow2, Width;
    WidthIsProduct(w, |es|);
    WidthIsProduct(8, n);
    var v, rest := Val(es, w), 8 * n - w * |es|;
    ValDigits(Shl(v, rest), 8, n);
    ValBound(es, w);
    ZeroFits(rest);
    AppendBelow(v, w * |es|, rest, 0);
    LowOfSmall(Shl(v, rest), 8 * n);
    ShiftsAreDivision(v, rest);
  }

  lemma ZeroFits(n: nat)
    ensures 0 < Pow2(n)
  {
  }

  /** A number in digits: the first is worth the most. */
  lemma ValIs(s: seq<nat>, x: nat, w: nat)
    ensures Val([], w) == 0 && Val(s + [x], w) == Val(s, w) * Pow2(w) + x
    ensures ValLE([], w) == 0 && ValLE([x] + s, w) == ValLE(s, w) * Pow2(w) + x
  {
    hide Shl, Pow2;
    ValAppend(s, x, w);
    ShiftsAreDivision(Val(s, w), w);
    assert ([x] + s)[1..] == s;
    ShiftsAreDivision(ValLE(s, w), w);
  }

  lemma GroupsLeft(n: nat, w: nat, j: nat)
    requires w > 0 && j < n / w
    ensures n % w + w * (n / w - 1 - j) == n - w * (j + 1) >= 0
  {
    assert n == w * (n / w) + n % w;
    assert w * (n / w - 1 - j) == w * (n / w) - w * (j + 1);
  }

  // --- Index lists ---

  /** `EhIndexToArray`: four bytes, most significant first. */
  function EhIndexToArray(i: nat): (s: seq<nat>)
    ensures |s| == 4
  {
    Digits(i, 8, 4)
  }

  /** Most significant byte first. */
  lemma IndexBytesAre(i: nat)
    ensures EhIndexToArray(i) == [i / 0x100_0000 % 256, i / 0x1_0000 % 256, i / 0x100 % 256, i % 256]
  {
    hide Shr, Low, Pow2;
    PowersOf256();
    forall k: nat | k < 4
      ensures EhIndexToArray(i)[k] == i / Pow2(8 * (3 - k)) % 256
    {
      DigitsAt(i, 8, 4, k);
      WidthIsProduct(8, 3 - k);
      ShiftsAreDivision(i, 8 * (3 - k));
      ShiftsAreDivision(Shr(i, 8 * (3 - k)), 8);
    }
  }

  lemma PowersOf256()
    ensures Pow2(0) == 1 && Pow2(8) == 0x100 && Pow2(16) == 0x1_0000 && Pow2(24) == 0x100_0000
  {
    assert Pow2(4) == 16 && Pow2(8) == 256 && Pow2(12) == 0x1000 && Pow2(16) == 0x1_0000 && Pow2(20) == 0x10_0000;
  }

  /** `ArrayToEhIndex` of four bytes. */
  function ArrayToEhIndex(bytes: seq<nat>): nat { Val(bytes, 8) }

  lemma IndexRoundTrip(i: nat)
    requires i < Pow2(32)
    ensures ArrayToEhIndex(EhIndexToArray(i)) == i
  {
    ValDigits(i, 8, 4);
    assert Width(8, 4) == 32;
    LowOfSmall(i, 32);
  }

  /** Cutting serialized elements of `w` bytes off the end. */
  lemma SerializeLast(es: seq<nat>, pad: nat, width: nat)
    requires |es| > 0
    ensures Serialize(es, pad, width)[..Width(pad + width, |es| - 1)] == Serialize(es[..|es| - 1], pad, width)
    ensures Serialize(es, pad, width)[Width(pad + width, |es| - 1)..] == Zeros(pad) + Digits(es[|es| - 1], 8, width)
  {
  }

  /** `CompressArray` reads back the elements that `ExpandArray` writes. */
  lemma {:induction false} ElementsOfSerialize(es: seq<nat>, pad: nat, bitLen: nat)
    requires bitLen > 0 && Below(es, bitLen)
    ensures Elements(Serialize(es, pad, WidthBytes(bitLen)), pad, WidthBytes(bitLen), bitLen) == es
  {
    hide Serialize, Low, Val, Digits, WidthBytes, Width, Pow2;
    var w := WidthBytes(bitLen);
    assert w > 0 by { BytesNeeded(bitLen); }
    if |es| > 0 {
      var s, x, p := Serialize(es, pad, w), es[|es| - 1], es[..|es| - 1];
      WidthStep(pad + w, |p|);
      SerializeLast(es, pad, w);
      ElementsOfSerialize(p, pad, bitLen);
      ReadBack(x, bitLen);
      assert s[|s| - w..] == Digits(x, 8, w);
      assert s[..|s| - pad - w] == Serialize(p, pad, w);
    } else {
      NoWidth(pad + w);
    }
  }

  lemma BytesNeeded(bitLen: nat)
    ensures bitLen > 0 ==> WidthBytes(bitLen) > 0
  {
  }

  lemma ReadBack(x: nat, bitLen: nat)
    requires x < Pow2(bitLen)
    ensures Low(Val(Digits(x, 8, WidthBytes(bitLen)), 8), bitLen) == x
  {
    hide Low, Val, Digits, Pow2;
    var n := Width(8, WidthBytes(bitLen));
    ValDigits(x, 8, WidthBytes(bitLen));
    WidthIsProduct(8, WidthBytes(bitLen));
    Pow2Mono(bitLen, n);
    LowOfSmall(x, n);
    LowOfSmall(x, bitLen);
  }

  lemma {:induction false} ValLeadingZeros(pad: nat, s: seq<nat>)
    ensures Val(Zeros(pad) + s, 8) == Val(s, 8)
    decreases |s|, pad
  {
    hide Shl;
    if |s| > 0 {
      var p := s[..|s| - 1];
      ValLeadingZeros(pad, p);
      assert (Zeros(pad) + s)[..pad + |p|] == Zeros(pad) + p;
    } else if pad > 0 {
      assert (Zeros(pad) + s)[..pad - 1] == Zeros(pad - 1) + s;
      ValLeadingZeros(pad - 1, s);
      ShlOfZero(8);
    }
  }

  /** The four bytes of element `k`. */
  lemma {:induction false} SerializeAt(es: seq<nat>, pad: nat, width: nat, k: nat)
    requires k < |es| && pad + width == 4
    ensures 4 * |es| == |Serialize(es, pad, width)|
    ensures Serialize(es, pad, width)[4 * k..4 * k + 4] == Zeros(pad) + Digits(es[k], 8, width)
    decreases |es|
  {
    hide Digits, Width;
    WidthIsProduct(4, |es|);
    WidthIsProduct(4, |es| - 1);
    SerializeLast(es, pad, width);
    if k < |es| - 1 {
      SerializeAt(es[..|es| - 1], pad, width, k);
      hide Serialize;
      var s := Serialize(es, pad, width);
      assert s[4 * k..4 * k + 4] == s[..4 * (|es| - 1)][4 * k..4 * k + 4];
    }
  }

  lemma IndexAt(es: seq<nat>, bitLen: nat, k: nat)
    requires 0 < bitLen <= 32 && k < |es| && Below(es, bitLen)
    ensures 4 * |es| == |Serialize(es, 4 - WidthBytes(bitLen), WidthBytes(bitLen))|
    ensures ArrayToEhIndex(Serialize(es, 4 - WidthBytes(bitLen), WidthBytes(bitLen))[4 * k..4 * k + 4]) == es[k]
  {
    hide Serialize, Digits, Val, Low;
    var w := WidthBytes(bitLen);
    SerializeAt(es, 4 - w, w, k);
    ValLeadingZeros(4 - w, Digits(es[k], 8, w));
    ValDigits(es[k], 8, w);
    WidthIsProduct(8, w);
    Pow2Mono(bitLen, 8 * w);
    LowOfSmall(es[k], 8 * w);
  }

  /** With room for whole indices only, the index array is exactly filled. */
  lemma IndexArrayLength(n: nat, bitLen: nat)
    requires bitLen > 0 && (32 * n / bitLen) % 4 == 0
    ensures 32 * n / bitLen == 4 * (8 * n / bitLen)
  {
    var q, r := 8 * n / bitLen, 8 * n % bitLen;
    var c := 32 * n / bitLen / 4;
    assert 8 * n == bitLen * q + r;
    assert 32 * n == bitLen * (4 * c) + 32 * n % bitLen;
    MulScale4(bitLen, c);
    FourTimes(8 * n, bitLen, q, r, c, 32 * n % bitLen);
  }

  lemma MulScale4(b: nat, c: nat)
    ensures b * (4 * c) == 4 * (b * c)
  {
  }

  lemma FourTimes(x: nat, b: nat, q: nat, r: nat, c: nat, t: nat)
    requires x == b * q + r && r < b && 4 * x == 4 * (b * c) + t && t < b
    ensures q == c
  {
    if q < c {
      MulMono(q + 1, c, b);
      assert false;
    } else if c < q {
      MulMono(c + 1, q, b);
      assert false;
    }
  }

  lemma UnpackedLength(n: nat, bitLen: nat)
    requires 0 < bitLen <= 32 && (32 * n / bitLen) % 4 == 0
    ensures WidthBytes(bitLen) <= 4
    ensures 32 * n / bitLen == 4 * (8 * n / bitLen) == OutLen(n, bitLen, 4 - WidthBytes(bitLen))
    ensures 32 * n / bitLen == 8 * ((4 - WidthBytes(bitLen)) + WidthBytes(bitLen)) * n / bitLen
  {
    hide WidthBytes, Width;
    assert WidthBytes(bitLen) <= 4 by {
      AtMostFourBytes(bitLen);
    }
    IndexArrayLength(n, bitLen);
    WidthIsProduct(4, 8 * n / bitLen);
  }

  lemma AtMostFourBytes(bitLen: nat)
    requires bitLen <= 32
    ensures WidthBytes(bitLen) <= 4
  {
  }

  lemma NextIndex(content: seq<nat>, es: seq<nat>, bitLen: nat, n: nat)
    requires Below(es, bitLen) && 8 <= bitLen <= 32 && n < |es|
    requires content == Serialize(es, 4 - WidthBytes(bitLen), WidthBytes(bitLen))
    ensures 4 * n + 4 <= |content|
    ensures ArrayToEhIndex(content[4 * n..4 * n + 4]) == es[n]
    ensures es[..n + 1] == es[..n] + [es[n]]
  {
    hide Serialize, ArrayToEhIndex;
    IndexAt(es, bitLen, n);
  }

  method GetIndicesFromMinimal(minimal: seq<byte>, cBitLen: nat) returns (ret: seq<nat>)
    requires 7 <= cBitLen < 31
    requires 32 * |minimal| / (cBitLen + 1) % 4 == 0
    ensures |ret| == 8 * |minimal| / (cBitLen + 1)
    ensures FitsAccumulator(cBitLen + 1) ==> ret == Expanded(minimal, cBitLen + 1)
  {
    hide FitsAccumulator, Expanded, ExpandSteps, Serialize, Width, WidthBytes, OutLen, Below, ArrayToEhIndex;
    var bitLen := cBitLen + 1;
    var lenIndices := 32 * |minimal| / bitLen;
    UnpackedLength(|minimal|, bitLen);
    var bytePad := 4 - WidthBytes(bitLen);
    var arr := new byte[lenIndices];
    ExpandArray(minimal, arr, lenIndices, bitLen, bytePad);
    ghost var e := 8 * |minimal| / bitLen;
    ghost var es := Expanded(minimal, bitLen);
    ExpandedBelow(minimal, bitLen);
    ghost var content: seq<nat> := arr[..];
    assert FitsAccumulator(bitLen) ==> content == Serialize(es, bytePad, WidthBytes(bitLen));
    ret := [];
    var i := 0;
    while i < lenIndices
      invariant 0 <= i <= lenIndices && i == 4 * |ret| && |ret| <= e
      invariant arr[..] == content
      invariant FitsAccumulator(bitLen) ==> ret == es[..|ret|]
    {
      var bytes: seq<nat> := [arr[i], arr[i + 1], arr[i + 2], arr[i + 3]];
      assert bytes == content[i..i + 4];
      if FitsAccumulator(bitLen) {
        NextIndex(content, es, bitLen, |ret|);
      }
      ret := ret + [ArrayToEhIndex(bytes)];
      i := i + 4;
    }
  }

  lemma ExpandedBelow(minimal: seq<nat>, bitLen: nat)
    requires bitLen > 0
    ensures Below(Expanded(minimal, bitLen), bitLen) && |Expanded(minimal, bitLen)| == 8 * |minimal| / bitLen
  {
    DigitsBelow(Shr(Val(minimal, 8), 8 * |minimal| % bitLen), bitLen, 8 * |minimal| / bitLen);
  }

  /** The index bytes of a table row: four big-endian bytes per index. */
  function IndexBytes(idx: seq<nat>): (s: seq<nat>)
    ensures |s| == 4 * |idx|
  {
    WidthIsProduct(4, |idx|);
    Serialize(idx, 0, 4)
  }

  /** The packer keeps the low `bitLen` bits of each index. */
  function Truncated(idx: seq<nat>, bitLen: nat): (s: seq<nat>)
    ensures |s| == |idx| && Below(s, bitLen)
  {
    seq(|idx|, k requires 0 <= k < |idx| => Low(idx[k], bitLen))
  }

  lemma TruncatedInRange(idx: seq<nat>, bitLen: nat)
    requires Below(idx, bitLen)
    ensures Truncated(idx, bitLen) == idx
  {
    forall k | 0 <= k < |idx| ensures Low(idx[k], bitLen) == idx[k] {
      LowOfSmall(idx[k], bitLen);
    }
  }

  lemma {:induction false} DigitsSuffix(v: nat, n: nat, k: nat)
    requires k <= n
    ensures Digits(v, 8, n)[k..] == Digits(v, 8, n - k)
    decreases n
  {
    hide Shr, Low;
    if k < n { DigitsSuffix(Shr(v, 8), n - 1, k); }
  }

  /** What the packer reads from the four bytes of one index. */
  lemma ElementOfIndex(x: nat, bitLen: nat)
    requires 0 < bitLen <= 32
    ensures Low(Val(Digits(x, 8, 4)[4 - WidthBytes(bitLen)..], 8), bitLen) == Low(x, bitLen)
  {
    hide Low, Val, Digits;
    var w := WidthBytes(bitLen);
    DigitsSuffix(x, 4, 4 - w);
    ValDigits(x, 8, w);
    WidthIsProduct(8, w);
    LowLow(x, bitLen, 8 * w);
  }

  lemma {:induction false} ElementsOfIndices(idx: seq<nat>, bitLen: nat)
    requires 0 < bitLen <= 32
    ensures Elements(IndexBytes(idx), 4 - WidthBytes(bitLen), WidthBytes(bitLen), bitLen) == Truncated(idx, bitLen)
  {
    hide Low, Val, Digits, Serialize, WidthBytes;
    var w := WidthBytes(bitLen);
    AtMostFourBytes(bitLen);
    BytesNeeded(bitLen);
    if |idx| > 0 {
      var s, x, p := IndexBytes(idx), idx[|idx| - 1], idx[..|idx| - 1];
      WidthIsProduct(4, |p|);
      SerializeLast(idx, 0, 4);
      ElementsOfIndices(p, bitLen);
      ElementOfIndex(x, bitLen);
      assert s[|s| - 4..] == Digits(x, 8, 4);
      assert s[|s| - w..] == s[|s| - 4..][4 - w..];
      assert s[..|s| - 4] == IndexBytes(p);
    }
  }

  /** Unpacking a packed index list. */
  lemma IndexListRoundTrip(idx: seq<nat>, bitLen: nat, n: nat)
    requires bitLen > 0 && bitLen * |idx| == 8 * n && Below(idx, bitLen)
    ensures Width(bitLen, |idx|) == 8 * n
    ensures Expanded(Compressed(Truncated(idx, bitLen), bitLen, n), bitLen) == idx
  {
    WidthIsProduct(bitLen, |idx|);
    TruncatedInRange(idx, bitLen);
    UnpackPack(idx, bitLen, n);
  }

  /** `EhIndexToArray` into an array. */
  method StoreIndex(arr: array<byte>, at: nat, i: nat)
    requires at + 4 <= arr.Length
    modifies arr
    ensures arr[..at + 4] == old(arr[..at]) + EhIndexToArray(i)
    ensures arr[at + 4..] == old(arr[at + 4..])
  {
    hide EhIndexToArray;
    var bytes := EhIndexToArray(i);
    IndexIsBytes(i);
    arr[at], arr[at + 1], arr[at + 2], arr[at + 3] := bytes[0], bytes[1], bytes[2], bytes[3];
  }

  /** All index bytes of a list, in order. */
  method IndexArray(indices: seq<nat>) returns (arr: array<byte>)
    ensures fresh(arr) && arr.Length == 4 * |indices| && arr[..] == IndexBytes(indices)
  {
    hide IndexBytes, EhIndexToArray;
    arr := new byte[4 * |indices|];
    NoIndexBytes(indices[..0]);
    for i := 0 to |indices|
      invariant arr[..4 * i] == IndexBytes(indices[..i])
    {
      IndexBytesStep(indices, i);
      StoreIndex(arr, 4 * i, indices[i]);
    }
    assert indices[..|indices|] == indices;
    assert arr[..] == arr[..4 * |indices|];
  }

  method GetMinimalFromIndices(indices: seq<nat>, cBitLen: nat) returns (ret: seq<byte>)
    requires 7 <= cBitLen < 31
    requires (cBitLen + 1) * |indices| % 8 == 0
    requires forall k :: 0 <= k < |indices| ==> indices[k] < Pow2(32)
    ensures Width(cBitLen + 1, |indices|) == 8 * |ret|
    ensures FitsAccumulator(cBitLen + 1) ==>
              ret == Compressed(Truncated(indices, cBitLen + 1), cBitLen + 1, |ret|)
  {
    hide FitsAccumulator, Compressed, CompressSteps, Elements, Width, IndexBytes, Truncated;
    var bitLen := cBitLen + 1;
    MinimalLength(bitLen, |indices|);
    var minLen := bitLen * (4 * |indices|) / 32;
    var bytePad := 4 - WidthBytes(bitLen);
    var arr := IndexArray(indices);
    var out := new byte[minLen];
    CompressArray(arr[..], out, minLen, bitLen, bytePad);
    ElementsOfIndices(indices, bitLen);
    ret := out[..];
  }

  lemma IndexIsBytes(i: nat)
    ensures forall k :: 0 <= k < 4 ==> EhIndexToArray(i)[k] < 256
  {
    DigitsBelow(i, 8, 4);
    assert Pow2(8) == 256;
  }

  lemma NoIndexBytes(idx: seq<nat>)
    ensures idx == [] ==> IndexBytes(idx) == []
  {
  }

  lemma IndexBytesStep(idx: seq<nat>, i: nat)
    requires i < |idx|
    ensures IndexBytes(idx[..i + 1]) == IndexBytes(idx[..i]) + EhIndexToArray(idx[i])
  {
    hide Digits;
    assert idx[..i + 1][..i] == idx[..i];
  }

  lemma MinimalLength(bitLen: nat, n: nat)
    requires bitLen * n % 8 == 0
    ensures bitLen * (4 * n) / 32 == bitLen * n / 8
    ensures (bitLen * (4 * n) / 4 + 7) / 8 == bitLen * n / 8
    ensures Width(bitLen, n) == 8 * (bitLen * n / 8)
  {
    WidthIsProduct(bitLen, n);
    MulScale4(bitLen, n);
  }
}
