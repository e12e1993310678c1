/** What the element operations of BeamHash III do to bits and words, in plain arithmetic: the seven words
    of a leaf, the 512 bits that are lined up, the rotations of the mix, and the schedule of the rounds. */
module BeamWords {
  import opened Numbers
  import opened Radix
  import opened BeamTree
  import opened BeamHashIII
  import IndexCodec

  // --- Words ---

  /** The 64-bit word `i` of a number, counted from the low end. */
  function Word(v: nat, i: nat): nat {
    hide Pow2;
    v / Pow2(64 * i) % Pow2(64)
  }

  /** A 64-bit word rotated to the left: the `b` highest bits come in at the low end. */
  function Rotated(x: nat, b: nat): nat
    requires b <= 64
  {
    hide Pow2;
    x * Pow2(b) % Pow2(64) + x / Pow2(64 - b)
  }

  lemma WordIs(v: nat, i: nat)
    ensures Low(Shr(v, 64 * i), 64) == Word(v, i) < Pow2(64)
  {
    hide Shr, Low, Pow2;
    ShiftsAreDivision(v, 64 * i);
    ShiftsAreDivision(Shr(v, 64 * i), 64);
  }

  lemma RotlIs(x: nat, b: nat)
    requires x < Pow2(64) && 0 < b < 64
    ensures Rotl(x, b) == Rotated(x, b) < Pow2(64)
  {
    hide Rotl, Shr, Low, Shl, Pow2;
    RotlBelow(x, b);
    ShiftsAreDivision(x, b);
    ShiftsAreDivision(Shl(x, b), 64);
    ShiftsAreDivision(x, 64 - b);
  }

  lemma Pow2Product(a: nat, b: nat)
    ensures Pow2(a) * Pow2(b) == Pow2(a + b)
  {
    hide Pow2, Shl;
    ShlPow2(a, b);
    ShiftsAreDivision(Pow2(a), b);
  }

  /** Rotating moves bit `j` to bit `j + b`, around the end of the word. */
  lemma RotatedBit(j: nat, b: nat)
    requires j < 64 && 0 < b < 64
    ensures Rotated(Pow2(j), b) == Pow2((j + b) % 64)
  {
    hide Pow2;
    Pow2Product(j, b);
    if j + b < 64 {
      Pow2Mono(j + b, 64);
      Pow2Mono(j, 64 - b);
      DivUnique(Pow2(j + b), Pow2(64), 0, Pow2(j + b));
      DivUnique(Pow2(j), Pow2(64 - b), 0, Pow2(j));
    } else {
      Pow2Product(j + b - 64, 64);
      DivUnique(Pow2(j + b), Pow2(64), Pow2(j + b - 64), 0);
      Pow2Product(j + b - 64, 64 - b);
      DivUnique(Pow2(j), Pow2(64 - b), Pow2(j + b - 64), 0);
    }
  }

  // --- A leaf ---

  /** Word `i` of a leaf is word `8 * index + i` of the stream. */
  lemma LeafWord(sip: SipHash, index: nat, i: nat)
    requires SipOk(sip) && i < 7
    ensures LeafElem(sip, index).workBits < Pow2(448)
    ensures Word(LeafElem(sip, index).workBits, i) == sip(8 * index + i)
  {
    hide Shr, Low, Shl, Pow2, HashWords;
    HashWordsBelow(sip, index, 0);
    WidthIsProduct(64, 7);
    HighWords(sip, index, i);
    WordIs(HashWords(sip, index, 0), i);
    NextWord(sip, index, i);
    Append(HashWords(sip, index, i + 1), 64, sip(8 * index + i));
  }

  lemma {:induction false} HighWords(sip: SipHash, index: nat, i: nat)
    requires SipOk(sip) && i <= 7
    ensures Shr(HashWords(sip, index, 0), 64 * i) == HashWords(sip, index, i)
  {
    hide Shr, Shl, Low, Pow2, HashWords;
    if i == 0 {
      NoShiftDown(HashWords(sip, index, 0));
    } else {
      HighWords(sip, index, i - 1);
      NextWord(sip, index, i - 1);
      Append(HashWords(sip, index, i), 64, sip(8 * index + i - 1));
      ShrPlus(HashWords(sip, index, 0), 64 * (i - 1), 64);
    }
  }

  lemma NoShiftDown(v: nat)
    ensures Shr(v, 0) == v
  {
  }

  lemma NextWord(sip: SipHash, index: nat, i: nat)
    requires i < 7
    ensures HashWords(sip, index, i) == Shl(HashWords(sip, index, i + 1), 64) + sip(8 * index + i)
  {
  }

  // --- The bits that are lined up ---

  /** How many bits of index `i` reach into the 512. */
  function Reach(remLen: nat, i: nat): nat
    requires remLen + 25 * i < 512
  {
    if remLen + 25 * i + 25 <= 512 then 25 else 512 - remLen - 25 * i
  }

  /** The 512 bits are the work bits and, above them, the indices in 25 bits each; what goes beyond the 512
      is cut off, and what the indices do not reach is zero. */
  lemma LinedUp(e: StepElem, remLen: nat)
    requires remLen <= 448 && e.workBits < Pow2(remLen) && Below(e.indexTree, 25)
    ensures MixBits(e, remLen) < Pow2(512)
    ensures MixBits(e, remLen) % Pow2(remLen) == e.workBits
    ensures forall i: nat :: i < |e.indexTree| && remLen + 25 * i < 512 ==>
              MixBits(e, remLen) / Pow2(remLen + 25 * i) % Pow2(25) == e.indexTree[i] % Pow2(Reach(remLen, i))
    ensures MixBits(e, remLen) < Pow2(remLen + 25 * |e.indexTree|)
  {
    hide MixBits, Pow2, Below, Reach;
    LinedUpLow(e, remLen);
    LinedUpEnd(e, remLen);
    forall i: nat | i < |e.indexTree| && remLen + 25 * i < 512
      ensures MixBits(e, remLen) / Pow2(remLen + 25 * i) % Pow2(25) == e.indexTree[i] % Pow2(Reach(remLen, i))
    {
      LinedUpIndex(e, remLen, i);
    }
  }

  /** Enough indices are lined up to fill the 512 bits, or all of them. */
  lemma PadFills(e: StepElem, remLen: nat)
    requires remLen <= 512
    ensures PadNum(e, remLen) == |e.indexTree| || remLen + 25 * PadNum(e, remLen) >= 512
  {
  }

  lemma LinedUpLow(e: StepElem, remLen: nat)
    requires remLen <= 448 && e.workBits < Pow2(remLen)
    ensures MixBits(e, remLen) < Pow2(512) && MixBits(e, remLen) % Pow2(remLen) == e.workBits
  {
    hide Low, Shl, Shr, Pow2, ValLE, PadNum;
    var v := ValLE(e.indexTree[..PadNum(e, remLen)], 25);
    MixBitsDoNotOverlap(e, remLen);
    Pow2IsShl(remLen);
    AppendLow(v, 512 - remLen, remLen, 0);
    Append(Low(v, 512 - remLen), remLen, e.workBits);
    ShiftsAreDivision(MixBits(e, remLen), remLen);
  }

  lemma LinedUpEnd(e: StepElem, remLen: nat)
    requires remLen <= 448 && e.workBits < Pow2(remLen) && Below(e.indexTree, 25)
    ensures MixBits(e, remLen) < Pow2(remLen + 25 * |e.indexTree|)
  {
    hide Low, Shl, Pow2, ValLE, PadNum, Below;
    var n := PadNum(e, remLen);
    var v := ValLE(e.indexTree[..n], 25);
    BelowFront(e.indexTree, n);
    ValLEBound(e.indexTree[..n], 25);
    WidthIsProduct(25, n);
    MixBitsDoNotOverlap(e, remLen);
    AppendBelow(v, 25 * n, remLen, e.workBits);
    Pow2Mono(remLen + 25 * n, remLen + 25 * |e.indexTree|);
    LowAtMost(e.workBits + Shl(v, remLen), 512);
  }

  lemma LowAtMost(v: nat, n: nat)
    ensures Low(v, n) <= v
  {
    hide Low, Pow2;
    ShiftsAreDivision(v, n);
  }

  lemma BelowFront(s: seq<nat>, n: nat)
    requires Below(s, 25) && n <= |s|
    ensures Below(s[..n], 25)
  {
  }

  lemma LinedUpIndex(e: StepElem, remLen: nat, i: nat)
    requires remLen <= 448 && e.workBits < Pow2(remLen) && Below(e.indexTree, 25)
    requires i < |e.indexTree| && remLen + 25 * i < 512
    ensures MixBits(e, remLen) / Pow2(remLen + 25 * i) % Pow2(25) == e.indexTree[i] % Pow2(Reach(remLen, i))
  {
    hide Low, Shl, Shr, Pow2, ValLE, PadNum, Below;
    var n, m := PadNum(e, remLen), Reach(remLen, i);
    PadFills(e, remLen);
    assert i < n;
    var bits, s := MixBits(e, remLen), e.indexTree[..n];
    var v := ValLE(s, 25);
    MixBitsDoNotOverlap(e, remLen);
    var o := remLen + 25 * i;
    // the bits from `o` on are those of the indices from `i` on
    ShrLow(e.workBits + Shl(v, remLen), o, 512 - o);
    ShrPlus(e.workBits + Shl(v, remLen), remLen, 25 * i);
    Append(v, remLen, e.workBits);
    BelowFront(e.indexTree, n);
    DigitOfValLE(s, 25, i);
    WidthIsProduct(25, i);
    // and of those the first `m` bits belong to index `i`
    var rest := Shr(v, 25 * i);
    ShiftsAreDivision(bits, o);
    ShiftsAreDivision(Shr(bits, o), 25);
    ShiftsAreDivision(e.indexTree[i], m);
    CutTwice(rest, 512 - o, e.indexTree[i]);
  }

  lemma CutTwice(rest: nat, a: nat, x: nat)
    requires Low(rest, 25) == x
    ensures Low(Low(rest, a), 25) == Low(x, if a < 25 then a else 25)
  {
    hide Low, Pow2;
    if a < 25 {
      LowLow(rest, a, 25);
      Pow2Mono(a, 25);
      LowOfSmall(Low(rest, a), 25);
    } else {
      LowLow(rest, 25, a);
      LowLow(rest, 25, 25);
    }
  }

  lemma {:induction false} DigitOfValLE(s: seq<nat>, w: nat, i: nat)
    requires Below(s, w) && i < |s|
    ensures Low(Shr(ValLE(s, w), Width(w, i)), w) == s[i]
  {
    hide Low, Shl, Shr, Pow2;
    Append(ValLE(s[1..], w), w, s[0]);
    if i > 0 {
      DigitOfValLE(s[1..], w, i - 1);
      WidthStep(w, i - 1);
      ShrPlus(ValLE(s, w), w, Width(w, i - 1));
    } else {
      NoShiftDown(ValLE(s, w));
    }
  }

  // --- The mix ---

  lemma NextSum(bits: nat, i: nat, b: nat, before: nat)
    requires 0 < b < 64 && b == 29 * (i + 1) % 64
    requires WordSum(bits, i) == before % Pow2(64)
    ensures WordSum(bits, i + 1) == (before + Rotated(Word(bits, i), b)) % Pow2(64)
  {
    hide Low, Shr, Rotl, Pow2, Word, Rotated;
    WordIs(bits, i);
    RotlIs(Word(bits, i), b);
    var r := Rotated(Word(bits, i), b);
    ShiftsAreDivision(WordSum(bits, i) + r, 64);
    ModSum(before, r, Pow2(64));
  }

  lemma ModSum(a: nat, b: nat, m: nat)
    requires m > 0
    ensures (a % m + b) % m == (a + b) % m
  {
    var q, r := (a % m + b) / m, (a % m + b) % m;
    var p := a / m;
    assert a + b == p * m + q * m + r;
    assert p * m + q * m == (p + q) * m;
    DivUnique(a + b, m, p + q, r);
  }

  /** The sum of the eight words, each rotated by its own amount. */
  function Summed(bits: nat): nat {
    ( Rotated(Word(bits, 0), 29) + Rotated(Word(bits, 1), 58)
    + Rotated(Word(bits, 2), 23) + Rotated(Word(bits, 3), 52)
    + Rotated(Word(bits, 4), 17) + Rotated(Word(bits, 5), 46)
    + Rotated(Word(bits, 6), 11) + Rotated(Word(bits, 7), 40)) % Pow2(64)
  }

  lemma SumIs(bits: nat)
    ensures WordSum(bits, 8) == Summed(bits) < Pow2(64)
  {
    hide Rotated, Word, Pow2, WordSum;
    var s1 := Rotated(Word(bits, 0), 29);
    var s2 := s1 + Rotated(Word(bits, 1), 58);
    var s3 := s2 + Rotated(Word(bits, 2), 23);
    var s4 := s3 + Rotated(Word(bits, 3), 52);
    var s5 := s4 + Rotated(Word(bits, 4), 17);
    var s6 := s5 + Rotated(Word(bits, 5), 46);
    var s7 := s6 + Rotated(Word(bits, 6), 11);
    NoSum(bits);
    NextSum(bits, 0, 29, 0);
    NextSum(bits, 1, 58, s1);
    NextSum(bits, 2, 23, s2);
    NextSum(bits, 3, 52, s3);
    NextSum(bits, 4, 17, s4);
    NextSum(bits, 5, 46, s5);
    NextSum(bits, 6, 11, s6);
    NextSum(bits, 7, 40, s7);
  }

  lemma NoSum(bits: nat)
    ensures WordSum(bits, 0) == 0 % Pow2(64)
  {
  }

  /** `applyMix` puts the sum of the rotated words, rotated by 24, in place of the lowest word, and changes
      nothing else. */
  lemma MixIs(e: StepElem, remLen: nat)
    requires remLen <= 512
    ensures var mixed, bits := Mixed(e, remLen), MixBits(e, remLen);
      && mixed.indexTree == e.indexTree
      && mixed.workBits % Pow2(64) == Rotated(Summed(bits), 24)
      && mixed.workBits / Pow2(64) == e.workBits / Pow2(64)
  {
    hide Low, Shl, Shr, Rotl, Pow2, WordSum, Summed, Rotated, MixBits;
    var bits := MixBits(e, remLen);
    SumIs(bits);
    RotlIs(Summed(bits), 24);
    var r := Rotated(Summed(bits), 24);
    LowOfSmall(r, 64);
    Append(Shr(e.workBits, 64), 64, r);
    ShiftsAreDivision(Mixed(e, remLen).workBits, 64);
    ShiftsAreDivision(e.workBits, 64);
  }

  lemma WordsOfBit(i: nat, j: nat, q: nat)
    requires i < 8 && j < 64 && q < 8
    ensures Word(Pow2(64 * i + j), q) == if q == i then Pow2(j) else 0
  {
    hide Pow2;
    Pow2Mono(j, 64);
    if q == i {
      Pow2Product(j, 64 * i);
      DivUnique(Pow2(64 * i + j), Pow2(64 * i), Pow2(j), 0);
      DivUnique(Pow2(j), Pow2(64), 0, Pow2(j));
    } else if q < i {
      Pow2Product(64 * i + j - 64 * q, 64 * q);
      DivUnique(Pow2(64 * i + j), Pow2(64 * q), Pow2(64 * i + j - 64 * q), 0);
      Pow2Product(64 * i + j - 64 * q - 64, 64);
      DivUnique(Pow2(64 * i + j - 64 * q), Pow2(64), Pow2(64 * i + j - 64 * q - 64), 0);
    } else {
      Pow2Mono(64 * i + j, 64 * q);
      DivUnique(Pow2(64 * i + j), Pow2(64 * q), 0, Pow2(64 * i + j));
      DivUnique(0, Pow2(64), 0, 0);
    }
  }

  lemma RotatedZero(b: nat)
    requires b <= 64
    ensures Rotated(0, b) == 0
  {
    hide Pow2;
    DivUnique(0, Pow2(64), 0, 0);
    DivUnique(0, Pow2(64 - b), 0, 0);
  }

  lemma BitRotated(i: nat, j: nat, q: nat, b: nat)
    requires i < 8 && j < 64 && q < 8 && 0 < b < 64
    ensures Rotated(Word(Pow2(64 * i + j), q), b) == if q == i then Pow2((j + b) % 64) else 0
  {
    hide Pow2, Rotated, Word;
    WordsOfBit(i, j, q);
    RotatedZero(b);
    RotatedBit(j, b);
  }

  function Amount(i: nat): nat
    requires i < 8
  {
    [29, 58, 23, 52, 17, 46, 11, 40][i]
  }

  lemma SummedBit(i: nat, j: nat)
    requires i < 8 && j < 64
    ensures Summed(Pow2(64 * i + j)) == Pow2((j + Amount(i)) % 64)
  {
    hide Pow2, Rotated, Word;
    BitRotated(i, j, 0, 29);
    BitRotated(i, j, 1, 58);
    BitRotated(i, j, 2, 23);
    BitRotated(i, j, 3, 52);
    BitRotated(i, j, 4, 17);
    BitRotated(i, j, 5, 46);
    BitRotated(i, j, 6, 11);
    BitRotated(i, j, 7, 40);
    var k := (j + Amount(i)) % 64;
    Pow2Mono(k, 64);
    DivUnique(Pow2(k), Pow2(64), 0, Pow2(k));
  }

  lemma AmountIs(i: nat)
    requires i < 8
    ensures Amount(i) % 64 == 29 * (i + 1) % 64
  {
    assert i == 0 || i == 1 || i == 2 || i == 3 || i == 4 || i == 5 || i == 6 || i == 7;
  }

  lemma MoreWrapped(j: nat, a: nat, b: nat)
    requires a % 64 == b % 64
    ensures (j + a) % 64 == (j + b) % 64
  {
    ModSum(a, j, 64);
    ModSum(b, j, 64);
  }

  lemma WrapAround(a: nat, b: nat)
    requires a % 64 == b % 64
    ensures (a % 64 + 24) % 64 == (b + 24) % 64
  {
    ModSum(b, 24, 64);
  }

  /** A single bit among the 512, bit `j` of word `i`, ends up as a single bit of the low word. */
  lemma SingleBit(e: StepElem, remLen: nat, i: nat, j: nat)
    requires remLen <= 512 && i < 8 && j < 64 && MixBits(e, remLen) == Pow2(64 * i + j)
    ensures Mixed(e, remLen).workBits % Pow2(64) == Pow2((j + 29 * (i + 1) + 24) % 64)
  {
    hide Pow2, MixBits, Mixed, Rotated, Summed;
    MixIs(e, remLen);
    SummedBit(i, j);
    RotatedBit((j + Amount(i)) % 64, 24);
    AmountIs(i);
    MoreWrapped(j, Amount(i), 29 * (i + 1));
    WrapAround(j + Amount(i), j + 29 * (i + 1));
  }

  // --- A match, and the rounds ---

  /** The collision bits are the lowest 24; a match drops them from the XOR and keeps the next `remLen`. */
  lemma MatchIs(a: StepElem, b: StepElem, remLen: nat)
    requires |a.indexTree| > 0 && |b.indexTree| > 0
    ensures CollisionBits(a) == a.workBits % 0x100_0000
    ensures MergeElem(a, b, remLen).workBits == Xor(a.workBits, b.workBits) / 0x100_0000 % Pow2(remLen)
  {
    hide Shr, Low, Pow2, Xor;
    IndexCodec.PowersOf256();
    ShiftsAreDivision(a.workBits, 24);
    ShiftsAreDivision(Xor(a.workBits, b.workBits), 24);
    ShiftsAreDivision(Shr(Xor(a.workBits, b.workBits), 24), remLen);
  }

  /** The remaining lengths of the five rounds. */
  lemma Schedule()
    ensures seq(5, r requires 0 <= r < 5 => MixLen(r + 1)) == [448, 424, 400, 376, 288]
    ensures seq(5, r requires 0 <= r < 5 => MergeLen(r + 1)) == [424, 400, 376, 288, 24]
  {
  }

  // --- Solution bytes ---

  /** Index `i` of a solution: its `i`-th group of 25 bits, counted from the low end of the bytes. */
  lemma UnpackedIndex(bytes: seq<nat>, i: nat)
    requires i < 32
    ensures Unpacked(bytes)[i] == ValLE(bytes, 8) / Pow2(25 * i) % Pow2(25)
  {
    hide Low, Shr, Pow2, ValLE;
    DigitsLEAt(ValLE(bytes, 8), 25, 32, i);
    WidthIsProduct(25, i);
    ShiftsAreDivision(ValLE(bytes, 8), 25 * i);
    ShiftsAreDivision(Shr(ValLE(bytes, 8), 25 * i), 25);
  }

  lemma {:induction false} DigitsLEAt(v: nat, w: nat, n: nat, k: nat)
    requires k < n
    ensures DigitsLE(v, w, n)[k] == Low(Shr(v, Width(w, k)), w)
    decreases n
  {
    if k > 0 {
      DigitsLEAt(Shr(v, w), w, n - 1, k - 1);
      WidthStep(w, k - 1);
      ShrPlus(v, w, Width(w, k - 1));
    }
  }
}
