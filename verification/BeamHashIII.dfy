/** BeamHash III, the concrete part: 448 work bits per element, index bits mixed into them,
    25-bit index packing, and the verifier loop. `siphash24` is an arbitrary function. */
module BeamHashIII {
  import opened Numbers
  import opened Radix
  import opened BitPacking
  import IndexCodec
  import opened EquihashTree
  import opened BeamTree

  /** `siphash24` keyed with the state derived from the extra nonce: word `n` of the stream. */
  type SipHash = nat -> nat

  ghost predicate SipOk(sip: SipHash) {
    forall n: nat :: sip(n) < Pow2(64)
  }

  // --- Specification of the element operations ---

  /** Words `6, 5, ..., i` of an index, highest first. */
  function HashWords(sip: SipHash, index: nat, i: nat): nat
    requires i <= 7
    decreases 7 - i
  {
    if i == 7 then 0 else Shl(HashWords(sip, index, i + 1), 64) + sip(8 * index + i)
  }

  function LeafElem(sip: SipHash, index: nat): StepElem {
    StepElem(HashWords(sip, index, 0), [index])
  }

  /** How many indices are mixed in: those that reach into the 512 bits. */
  function PadNum(e: StepElem, remLen: nat): (n: nat)
    requires remLen <= 512
    ensures n <= |e.indexTree|
    ensures n > 0 ==> remLen + Width(25, n - 1) < 512
  {
    var n := (512 - remLen + COLLISION_BIT_SIZE) / (COLLISION_BIT_SIZE + 1);
    var m := if n < |e.indexTree| then n else |e.indexTree|;
    if m > 0 then (WidthIsProduct(25, m - 1); m) else m
  }

  /** The 512 bits that are mixed: the work bits, and the indices in 25 bits each above them. */
  function MixBits(e: StepElem, remLen: nat): nat
    requires remLen <= 512
  {
    e.workBits + Low(Shl(ValLE(e.indexTree[..PadNum(e, remLen)], 25), remLen), 512)
  }

  function Rotl(x: nat, b: nat): nat
    requires b <= 64
  {
    Or(Low(Shl(x, b), 64), Shr(x, 64 - b))
  }

  /** The sum of the first `i` rotated 64-bit words, in 64-bit arithmetic. */
  function WordSum(bits: nat, i: nat): nat
    decreases i
  {
    if i == 0 then 0
    else Low(WordSum(bits, i - 1) + Rotl(Low(Shr(bits, 64 * (i - 1)), 64), 29 * i % 64), 64)
  }

  /** `applyMix`: the lowest 64 work bits are replaced by the mix. */
  function Mixed(e: StepElem, remLen: nat): (r: StepElem)
    requires remLen <= 512
    ensures r.indexTree == e.indexTree
  {
    e.(workBits := Shl(Shr(e.workBits, 64), 64) + Low(Rotl(WordSum(MixBits(e, remLen), 8), 24), 64))
  }

  /** The scheme of one extra nonce. */
  ghost function BeamScheme(sip: SipHash): (s: Scheme)
    ensures SchemeOk(s)
  {
    Scheme((i: nat) => LeafElem(sip, i), (e: StepElem, n: nat) => if n <= 512 then Mixed(e, n) else e)
  }

  // --- Bounds ---

  lemma RotlBelow(x: nat, b: nat)
    requires x < Pow2(64) && 0 < b < 64
    ensures Rotl(x, b) == Low(Shl(x, b), 64) + Shr(x, 64 - b) < Pow2(64)
  {
    hide Pow2, Low, Shr, Shl, Or;
    AppendLow(x, 64 - b, b, 0);
    Pow2IsShl(b);
    ShrBelow(x, b, 64 - b);
    OrDisjoint(Low(x, 64 - b), b, Shr(x, 64 - b));
    AppendBelow(Low(x, 64 - b), 64 - b, b, Shr(x, 64 - b));
  }

  lemma {:induction false} HashWordsBelow(sip: SipHash, index: nat, i: nat)
    requires SipOk(sip) && i <= 7
    ensures HashWords(sip, index, i) < Pow2(Width(64, 7 - i))
    decreases 7 - i
  {
    hide Pow2, Shl;
    if i < 7 {
      HashWordsBelow(sip, index, i + 1);
      WidthStep(64, 6 - i);
      AppendBelow(HashWords(sip, index, i + 1), Width(64, 6 - i), 64, sip(8 * index + i));
    } else {
      ZeroBelow();
    }
  }

  lemma ZeroBelow()
    ensures 0 < Pow2(Width(64, 0))
  {
  }

  /** Mixing keeps the work bits within the remaining length. */
  lemma MixedBelow(e: StepElem, remLen: nat)
    requires 64 <= remLen <= 512 && e.workBits < Pow2(remLen)
    ensures Mixed(e, remLen).workBits < Pow2(remLen)
  {
    hide Pow2, Low, Shr, Shl, MixBits, WordSum, Rotl;
    ShrBelow(e.workBits, remLen - 64, 64);
    AppendBelow(Shr(e.workBits, 64), remLen - 64, 64, Low(Rotl(WordSum(MixBits(e, remLen), 8), 24), 64));
  }

  lemma MatchBelow(s: Scheme, a: StepElem, b: StepElem, h: nat)
    requires SchemeOk(s) && 1 <= h <= NUM_ROUNDS && |a.indexTree| > 0 && |b.indexTree| > 0
    ensures MatchElem(s, a, b, h).workBits < Pow2(MergeLen(h))
  {
    hide Pow2, Shr, Xor, Low;
  }

  /** At every mixing step of the verifier the work bits fit in the remaining length. */
  lemma WorkBitsFit(sip: SipHash, idx: seq<nat>, h: nat)
    requires SipOk(sip) && |idx| == Pow2(h) && h < NUM_ROUNDS
    ensures Rebuild(BeamScheme(sip), idx, h).workBits < Pow2(MixLen(h + 1))
  {
    hide MatchElem, HashWords, Mixed, Rebuild, Left, Right, Pow2;
    var s := BeamScheme(sip);
    if h > 0 {
      Halved(idx, h);
      RebuildSplit(s, idx, h);
      SomeIndex(h - 1);
      MatchBelow(s, Rebuild(s, Left(idx), h - 1), Rebuild(s, Right(idx), h - 1), h);
    } else {
      RebuildLeaf(s, idx);
      HashWordsBelow(sip, idx[0], 0);
      WidthIsProduct(64, 7);
    }
  }

  lemma SomeIndex(h: nat)
    ensures Pow2(h) > 0
  {
  }

  /** So OR-ing the index bits in never meets a work bit: the mixed bits are the work bits
      followed by the 25-bit indices, cut off at 512 bits. */
  lemma MixBitsDoNotOverlap(e: StepElem, remLen: nat)
    requires remLen <= 512 && e.workBits < Pow2(remLen)
    ensures MixBits(e, remLen) == Low(e.workBits + Shl(ValLE(e.indexTree[..PadNum(e, remLen)], 25), remLen), 512)
  {
    hide Low, Shl, Pow2, ValLE, PadNum;
    var v := ValLE(e.indexTree[..PadNum(e, remLen)], 25);
    AppendLow(v, 512 - remLen, remLen, 0);
    AppendLow(v, 512 - remLen, remLen, e.workBits);
    Pow2IsShl(remLen);
  }

  // --- The element operations as loops ---

  /** `stepElem(prePow, index)`. */
  method NewElem(sip: SipHash, index: nat) returns (e: StepElem)
    requires SipOk(sip)
    ensures e == LeafElem(sip, index)
  {
    hide Low, Shl, Or, Pow2;
    var workBits: nat := 0;
    var i := 7;
    while i > 0
      invariant 0 <= i <= 7
      invariant workBits == HashWords(sip, index, i)
    {
      i := i - 1;
      ShiftWord(sip, index, i);
      workBits := Low(Shl(workBits, 64), WORK_BIT_SIZE);
      var hash := sip(8 * index + i);
      workBits := Or(workBits, hash);
    }
    e := StepElem(workBits, [index]);
  }

  /** No bit leaves the 448 bits and the new word meets zeros only. */
  lemma ShiftWord(sip: SipHash, index: nat, i: nat)
    requires SipOk(sip) && i < 7
    ensures Or(Low(Shl(HashWords(sip, index, i + 1), 64), WORK_BIT_SIZE), sip(8 * index + i))
      == HashWords(sip, index, i)
  {
    hide Low, Shl, Or, Pow2;
    var v := HashWords(sip, index, i + 1);
    HashWordsBelow(sip, index, i + 1);
    WidthIsProduct(64, 6 - i);
    AppendBelow(v, 64 * (6 - i), 64, 0);
    Pow2Mono(64 * (7 - i), WORK_BIT_SIZE);
    LowOfSmall(Shl(v, 64), WORK_BIT_SIZE);
    OrDisjoint(v, 64, sip(8 * index + i));
  }

  /** The loop that lines the index bits up above the work bits. */
  method LineUp(e: StepElem, remLen: nat) returns (tempBits: nat)
    requires remLen <= 448 && e.workBits < Pow2(remLen) && Below(e.indexTree, 25)
    ensures tempBits == MixBits(e, remLen)
  {
    hide Low, Shl, Or, Pow2, ValLE, Below, PadNum;
    var padNum := PadNum(e, remLen);
    tempBits := e.workBits;
    LineUpStart(e, remLen);
    for i := 0 to padNum
      invariant tempBits == e.workBits + Low(Shl(ValLE(e.indexTree[..i], 25), remLen), 512)
    {
      LineUpStep(e, remLen, i);
      var tmp := Low(Shl(e.indexTree[i], remLen + i * 25), 512);
      tempBits := Or(tempBits, tmp);
    }
  }

  lemma LineUpStart(e: StepElem, remLen: nat)
    ensures Low(Shl(ValLE(e.indexTree[..0], 25), remLen), 512) == 0
  {
    ShlOfZero(remLen);
    LowOfSmall(0, 512);
  }

  lemma {:induction false} ValLEAppend(s: seq<nat>, x: nat, w: nat)
    ensures ValLE(s + [x], w) == ValLE(s, w) + Shl(x, Width(w, |s|))
  {
    hide Shl;
    if |s| > 0 {
      assert (s + [x])[1..] == s[1..] + [x];
      ValLEAppend(s[1..], x, w);
      ShlAdd(ValLE(s[1..], w), Shl(x, Width(w, |s| - 1)), w);
      ShlPlus(x, Width(w, |s| - 1), w);
    } else {
      assert s + [x] == [x];
      ShlOfZero(w);
      OneDigit(x, w);
    }
  }

  lemma OneDigit(x: nat, w: nat)
    ensures ValLE([x], w) == x + Shl(0, w) && Shl(x, Width(w, 0)) == x
  {
    assert [x][1..] == [];
  }

  /** Index `i` is OR-ed in above everything lined up so far. */
  lemma LineUpStep(e: StepElem, remLen: nat, i: nat)
    requires remLen <= 448 && e.workBits < Pow2(remLen) && Below(e.indexTree, 25) && i < PadNum(e, remLen)
    ensures Or(e.workBits + Low(Shl(ValLE(e.indexTree[..i], 25), remLen), 512),
               Low(Shl(e.indexTree[i], remLen + i * 25), 512))
         == e.workBits + Low(Shl(ValLE(e.indexTree[..i + 1], 25), remLen), 512)
  {
    hide Low, Shl, Or, Pow2, ValLE, PadNum;
    var done, x := e.indexTree[..i], e.indexTree[i];
    var v, n := ValLE(done, 25), remLen + i * 25;
    PadReaches(e, remLen, i);
    assert e.indexTree[..i + 1] == done + [x];
    ValLEAppend(done, x, 25);
    WidthIsProduct(25, i);
    ValLEBound(done, 25);
    LineUpAdd(e.workBits, v, x, remLen, i * 25);
  }

  lemma PadReaches(e: StepElem, remLen: nat, i: nat)
    requires remLen <= 512 && i < PadNum(e, remLen)
    ensures remLen + i * 25 < 512
  {
    hide PadNum;
    WidthIsProduct(25, PadNum(e, remLen) - 1);
  }

  lemma LineUpAdd(w: nat, v: nat, x: nat, remLen: nat, o: nat)
    requires w < Pow2(remLen) && v < Pow2(o) && remLen + o < 512
    ensures Or(w + Low(Shl(v, remLen), 512), Low(Shl(x, remLen + o), 512))
         == w + Low(Shl(v + Shl(x, o), remLen), 512)
  {
    hide Low, Shl, Or, Pow2;
    var n := remLen + o;
    // below 512 bits nothing of the part lined up so far is cut off
    AppendBelow(v, o, remLen, w);
    AppendBelow(v, o, remLen, 0);
    Pow2IsShl(remLen);
    Pow2Mono(n, 512);
    LowOfSmall(Shl(v, remLen), 512);
    // the new index loses its bits beyond 512, if any
    AppendLow(x, 512 - n, n, 0);
    OrCommutes(Shl(Low(x, 512 - n), n), w + Shl(v, remLen));
    OrDisjoint(Low(x, 512 - n), n, w + Shl(v, remLen));
    ShlAdd(v, Shl(x, o), remLen);
    ShlPlus(x, o, remLen);
    AppendLow(x, 512 - n, n, Shl(v, remLen));
  }

  /** `applyMix(remLen)`. */
  method ApplyMix(e: StepElem, remLen: nat) returns (mixed: StepElem)
    requires 64 <= remLen <= 448 && e.workBits < Pow2(remLen) && Below(e.indexTree, 25)
    ensures mixed == Mixed(e, remLen)
  {
    hide Low, Shl, Shr, Or, Pow2, MixBits, Below;
    var tempBits := LineUp(e, remLen);
    ghost var bits := tempBits;
    var result: nat := 0;
    NoShiftRight(bits);
    for i := 0 to 8
      invariant tempBits == Shr(bits, 64 * i)
      invariant result == WordSum(bits, i)
    {
      var tmp := Low(tempBits, 64);
      ShrPlus(bits, 64 * i, 64);
      tempBits := Shr(tempBits, 64);
      result := Low(result + Rotl(tmp, 29 * (i + 1) % 64), 64);
    }
    result := Low(Rotl(result, 24), 64);
    var workBits := Shr(e.workBits, 64);
    OrDisjoint(workBits, 64, result);
    workBits := Shl(workBits, 64);
    workBits := Or(workBits, result);
    mixed := e.(workBits := workBits);
  }

  method HasCollision(a: StepElem, b: StepElem) returns (r: bool)
    ensures r <==> CollisionBits(a) == CollisionBits(b)
  {
    hide And, Low, Pow2;
    AndMask(a.workBits, COLLISION_BIT_SIZE);
    AndMask(b.workBits, COLLISION_BIT_SIZE);
    var mask := Pow2(COLLISION_BIT_SIZE) - 1;
    r := And(a.workBits, mask) == And(b.workBits, mask);
  }

  method DistinctIndices(a: StepElem, b: StepElem) returns (r: bool)
    ensures r <==> Disjoint(a.indexTree, b.indexTree)
  {
    for i := 0 to |a.indexTree|
      invariant forall p, q :: 0 <= p < i && 0 <= q < |b.indexTree| ==> a.indexTree[p] != b.indexTree[q]
    {
      for j := 0 to |b.indexTree|
        invariant forall q :: 0 <= q < j ==> a.indexTree[i] != b.indexTree[q]
      {
        if a.indexTree[i] == b.indexTree[j] { return false; }
      }
    }
    return true;
  }

  /** `stepElem(a, b, remLen)`: shift, mask and concatenate. */
  method NewMatch(a: StepElem, b: StepElem, remLen: nat) returns (e: StepElem)
    requires |a.indexTree| > 0 && |b.indexTree| > 0 && remLen <= WORK_BIT_SIZE
    ensures e == MergeElem(a, b, remLen)
  {
    hide And, Low, Pow2, Shr, Xor;
    var workBits := Xor(a.workBits, b.workBits);
    workBits := Shr(workBits, COLLISION_BIT_SIZE);
    AllOnesShifted(remLen);
    var mask := Shr(Pow2(WORK_BIT_SIZE) - 1, WORK_BIT_SIZE - remLen);
    AndMask(workBits, remLen);
    workBits := And(workBits, mask);
    if a.indexTree[0] < b.indexTree[0] {
      e := StepElem(workBits, a.indexTree + b.indexTree);
    } else {
      e := StepElem(workBits, b.indexTree + a.indexTree);
    }
  }

  lemma AllOnesShifted(remLen: nat)
    requires remLen <= WORK_BIT_SIZE
    ensures Shr(Pow2(WORK_BIT_SIZE) - 1, WORK_BIT_SIZE - remLen) == Pow2(remLen) - 1
  {
    ShrMask(WORK_BIT_SIZE, WORK_BIT_SIZE - remLen);
  }

  // --- The verifier loop ---

  /** The element stands for subtree `b` of level `lvl`, which passed all checks. */
  ghost predicate ElemOk(s: Scheme, e: StepElem, idx: seq<nat>, lvl: nat, b: nat)
    requires SchemeOk(s) && lvl <= NUM_ROUNDS
  {
    Shl(b + 1, lvl) <= |idx| && Rebuilt(s, e, Block(idx, lvl, b), lvl)
  }

  /** `e` is the element of the checked subtree `idx`. */
  ghost predicate Rebuilt(s: Scheme, e: StepElem, idx: seq<nat>, h: nat)
    requires SchemeOk(s)
    ensures Rebuilt(s, e, idx, h) ==> |e.indexTree| > 0 && |idx| > 0
  {
    h <= NUM_ROUNDS && |idx| == Pow2(h) && Checks(s, idx, h) && e == Rebuild(s, idx, h)
  }

  ghost predicate LevelElems(s: Scheme, X: seq<StepElem>, idx: seq<nat>, lvl: nat)
    requires SchemeOk(s) && lvl <= NUM_ROUNDS
  {
    forall b: nat :: b < |X| ==> ElemOk(s, X[b], idx, lvl, b)
  }

  /** Every subtree of a checked tree is checked. */
  lemma {:induction false} SubtreeChecks(s: Scheme, idx: seq<nat>, k: nat, lvl: nat, b: nat)
    requires SchemeOk(s) && k <= NUM_ROUNDS && |idx| == Pow2(k) && Checks(s, idx, k)
    requires lvl <= k && Shl(b + 1, lvl) <= |idx|
    ensures Checks(s, Block(idx, lvl, b), lvl)
    decreases k - lvl
  {
    hide Shl, Pow2, Block, Left, Right, Checks, Rebuild, Disjoint, HalvesCollide;
    if lvl < k {
      var whole := b / 2;
      ParentBlock(|idx|, k, lvl, b);
      SubtreeChecks(s, idx, k, lvl + 1, whole);
      BlockHalves(idx, lvl, whole);
      Halved(Block(idx, lvl + 1, whole), lvl + 1);
      var parent := Block(idx, lvl + 1, whole);
      ChecksSplit(s, parent, Left(parent), Right(parent), lvl + 1);
      assert b == 2 * whole || b == 2 * whole + 1;
    } else {
      WholeBlock(idx, k);
      OnlyBlock(k, b);
    }
  }

  /** The checks on two sibling elements decide their parent. */
  lemma PairDecides(s: Scheme, l: seq<nat>, r: seq<nat>, a: StepElem, b: StepElem, h: nat)
    requires SchemeOk(s) && 0 < h <= NUM_ROUNDS && |l| == |r|
    requires Rebuilt(s, a, l, h - 1) && Rebuilt(s, b, r, h - 1)
    ensures a.indexTree == l && b.indexTree == r && |l + r| == Pow2(h)
    ensures CollideIn(s, a, b, h) && Disjoint(l, r) && l[0] < r[0] ==>
      Rebuilt(s, MatchElem(s, a, b, h), l + r, h)
    ensures Checks(s, l + r, h) ==> CollideIn(s, a, b, h) && Disjoint(l, r) && l[0] < r[0]
  {
    hide Left, Right, CollideIn, Disjoint, MatchElem, Checks, Rebuild;
    HalvesOf(l, r);
    RebuiltInOrder(s, a, l, h - 1);
    RebuiltInOrder(s, b, r, h - 1);
    ChecksSplit(s, l + r, l, r, h);
    RebuildSplit(s, l + r, h);
  }

  lemma RebuiltInOrder(s: Scheme, e: StepElem, idx: seq<nat>, h: nat)
    requires SchemeOk(s) && Rebuilt(s, e, idx, h)
    ensures e.indexTree == idx
  {
    hide Checks, Rebuild, Ordered, Pow2;
    ChecksAreOrdered(s, idx, h);
    RebuildKeepsOrder(s, idx, h);
  }

  lemma BlockBelow(idx: seq<nat>, lvl: nat, b: nat)
    requires Below(idx, 25) && Shl(b + 1, lvl) <= |idx|
    ensures Below(Block(idx, lvl, b), 25)
  {
    hide Pow2;
    ShlMono(b, b + 1, lvl);
  }

  lemma PairElems(s: Scheme, X: seq<StepElem>, idx: seq<nat>, lvl: nat, m: nat)
    requires SchemeOk(s) && lvl < NUM_ROUNDS && |idx| == Pow2(NUM_ROUNDS)
    requires LevelElems(s, X, idx, lvl) && |X| == Pow2(NUM_ROUNDS - lvl) && 2 * m < |X|
    ensures 2 * m + 1 < |X| && Shl(m + 1, lvl + 1) <= |idx|
    ensures Shl(2 * m + 1, lvl) <= |idx| && Shl(2 * m + 2, lvl) <= |idx|
    ensures Block(idx, lvl + 1, m) == Block(idx, lvl, 2 * m) + Block(idx, lvl, 2 * m + 1)
    ensures ElemOk(s, X[2 * m], idx, lvl, 2 * m) && ElemOk(s, X[2 * m + 1], idx, lvl, 2 * m + 1)
  {
    hide ElemOk, Shl, Left, Right;
    RoundBlock(lvl, m);
    BlockHalves(idx, lvl, m);
    HalvesTogether(Block(idx, lvl + 1, m));
  }

  lemma RoundBlock(lvl: nat, m: nat)
    requires lvl < NUM_ROUNDS && 2 * m < Pow2(NUM_ROUNDS - lvl)
    ensures 2 * m + 1 < Pow2(NUM_ROUNDS - lvl)
    ensures Shl(m + 1, lvl + 1) <= Pow2(NUM_ROUNDS)
  {
    ShlMono(m + 1, Pow2(NUM_ROUNDS - lvl - 1), lvl + 1);
    ShlPow2(NUM_ROUNDS - lvl - 1, lvl + 1);
  }

  lemma NoElems(s: Scheme, idx: seq<nat>, lvl: nat)
    requires SchemeOk(s) && lvl <= NUM_ROUNDS
    ensures LevelElems(s, [], idx, lvl)
  {
  }

  lemma OneMoreElem(s: Scheme, X: seq<StepElem>, e: StepElem, idx: seq<nat>, lvl: nat)
    requires SchemeOk(s) && lvl <= NUM_ROUNDS && LevelElems(s, X, idx, lvl) && ElemOk(s, e, idx, lvl, |X|)
    ensures LevelElems(s, X + [e], idx, lvl)
  {
    hide ElemOk;
  }

  /** Elements `2 * m` and `2 * m + 1` of a level: small enough to be mixed; if the checks on them succeed
      they make element `m` of the next level, and else the whole tree fails. */
  lemma PairOfLevel(sip: SipHash, X: seq<StepElem>, idx: seq<nat>, round: nat, m: nat)
    requires SipOk(sip) && 1 <= round <= NUM_ROUNDS && |idx| == Pow2(NUM_ROUNDS) && Below(idx, 25)
    requires LevelElems(BeamScheme(sip), X, idx, round - 1)
    requires |X| == Pow2(NUM_ROUNDS - (round - 1)) && 2 * m < |X|
    ensures 2 * m + 1 < |X|
    ensures Mixable(X[2 * m], round) && Mixable(X[2 * m + 1], round)
    ensures var s, a, b := BeamScheme(sip), X[2 * m], X[2 * m + 1];
      if CollideIn(s, a, b, round) && Disjoint(a.indexTree, b.indexTree) && a.indexTree[0] < b.indexTree[0]
      then ElemOk(s, MatchElem(s, a, b, round), idx, round, m)
      else !Checks(s, idx, NUM_ROUNDS)
  {
    hide Checks, Rebuild, Block, Shl, Disjoint, MatchElem, CollideIn, Below, Pow2, LevelElems, BeamScheme;
    var s, lvl := BeamScheme(sip), round - 1;
    PairElems(s, X, idx, lvl, m);
    var l, r := Block(idx, lvl, 2 * m), Block(idx, lvl, 2 * m + 1);
    PairDecides(s, l, r, X[2 * m], X[2 * m + 1], round);
    WorkBitsFit(sip, l, lvl);
    WorkBitsFit(sip, r, lvl);
    BlockBelow(idx, lvl, 2 * m);
    BlockBelow(idx, lvl, 2 * m + 1);
    if Checks(s, idx, NUM_ROUNDS) {
      SubtreeChecks(s, idx, NUM_ROUNDS, round, m);
    }
  }

  ghost predicate Mixable(e: StepElem, round: nat)
    requires 1 <= round <= NUM_ROUNDS
  {
    e.workBits < Pow2(MixLen(round)) && Below(e.indexTree, 25) && |e.indexTree| > 0
  }

  lemma PairReplaced(X: seq<StepElem>, X0: seq<StepElem>, i: nat, a: StepElem, b: StepElem)
    requires i + 1 < |X| == |X0| && X[i..] == X0[i..]
    ensures X[i] == X0[i] && X[i + 1] == X0[i + 1]
    ensures X[i := a][i + 1 := b][i + 2..] == X0[i + 2..]
  {
    assert X[i] == X[i..][0] && X[i + 1] == X[i..][1];
    assert X[i + 2..] == X[i..][2..];
  }

  /** One round: mix, check and merge every pair. */
  method CombineRound(sip: SipHash, X0: seq<StepElem>, round: nat, ghost idx: seq<nat>)
    returns (ok: bool, Xtmp: seq<StepElem>)
    requires SipOk(sip) && 1 <= round <= NUM_ROUNDS && |idx| == Pow2(NUM_ROUNDS) && Below(idx, 25)
    requires LevelElems(BeamScheme(sip), X0, idx, round - 1) && |X0| == Pow2(NUM_ROUNDS - (round - 1))
    ensures ok ==> LevelElems(BeamScheme(sip), Xtmp, idx, round) && |Xtmp| == Pow2(NUM_ROUNDS - round)
    ensures !ok ==> !Checks(BeamScheme(sip), idx, NUM_ROUNDS)
  {
    hide Checks, ElemOk, Disjoint, Mixed, MergeElem, CollisionBits, Below, Pow2, LevelElems;
    ghost var s := BeamScheme(sip);
    var X := X0;
    Xtmp := [];
    HalfRound(round);
    NoElems(s, idx, round);
    var i := 0;
    while i < |X|
      invariant |X| == |X0| && i == 2 * |Xtmp| <= |X|
      invariant X[i..] == X0[i..]
      invariant LevelElems(s, Xtmp, idx, round)
    {
      PairOfLevel(sip, X0, idx, round, |Xtmp|);
      var remLen := WORK_BIT_SIZE - (round - 1) * COLLISION_BIT_SIZE;
      if round == 5 { remLen := remLen - 64; }
      PairReplaced(X, X0, i, Mixed(X0[i], remLen), Mixed(X0[i + 1], remLen));
      var a := ApplyMix(X[i], remLen);
      var b := ApplyMix(X[i + 1], remLen);
      X := X[i := a][i + 1 := b];
      var collides := HasCollision(X[i], X[i + 1]);
      if !collides { return false, []; }
      var distinct := DistinctIndices(X[i], X[i + 1]);
      if !distinct { return false, []; }
      if !(X[i].indexTree[0] < X[i + 1].indexTree[0]) { return false, []; }
      remLen := WORK_BIT_SIZE - round * COLLISION_BIT_SIZE;
      if round == 4 { remLen := remLen - 64; }
      if round == 5 { remLen := COLLISION_BIT_SIZE; }
      var e := NewMatch(X[i], X[i + 1], remLen);
      OneMoreElem(s, Xtmp, e, idx, round);
      Xtmp := Xtmp + [e];
      i := i + 2;
    }
    ok := true;
  }

  lemma HalfRound(round: nat)
    requires 1 <= round <= NUM_ROUNDS
    ensures Pow2(NUM_ROUNDS - (round - 1)) == 2 * Pow2(NUM_ROUNDS - round)
  {
  }

  // --- 25-bit index packing in an 800-bit stream ---

  /** The 32 indices in the first 100 bytes of a solution. */
  function Unpacked(bytes: seq<nat>): seq<nat> { DigitsLE(ValLE(bytes, 8), 25, 32) }

  function Packed(idx: seq<nat>): seq<nat> { DigitsLE(ValLE(idx, 25), 8, 100) }

  method GetIndicesFromMinimal(soln: seq<byte>) returns (res: seq<nat>)
    requires |soln| >= 100
    ensures res == Unpacked(soln[..100])
  {
    hide Low, Shl, Shr, Or, And, DigitsLE, Below;
    ghost var bytes: seq<nat> := soln[..100];
    var inStream: nat := 0;
    var i := 100;
    IndexCodec.BytesBelow(soln[..100]);
    while i > 0
      invariant 0 <= i <= 100
      invariant inStream == ValLE(bytes[i..], 8)
    {
      i := i - 1;
      StreamStep(bytes, 8, i, 100 - i, 0);
      inStream := Low(Shl(inStream, 8), 800);
      inStream := Or(inStream, soln[i]);
    }
    assert bytes[0..] == bytes;
    res := [];
    var mask := Pow2(COLLISION_BIT_SIZE + 1) - 1;
    for k := 0 to 32
      invariant res + DigitsLE(inStream, 25, 32 - k) == Unpacked(bytes)
    {
      AndMask(inStream, 25);
      DigitsLEStep(inStream, 25, 32 - k);
      res := res + [And(inStream, mask)];
      inStream := Shr(inStream, COLLISION_BIT_SIZE + 1);
    }
    DigitsLENone(inStream, 25);
  }

  lemma DigitsLENone(v: nat, w: nat)
    ensures DigitsLE(v, w, 0) == []
  {
  }

  lemma DigitsLEStep(v: nat, w: nat, n: nat)
    requires n > 0
    ensures DigitsLE(v, w, n) == [Low(v, w)] + DigitsLE(Shr(v, w), w, n - 1)
  {
  }

  /** Shifting the stream by one digit of `w` bits and OR-ing digit `i` in, with `stray` bits above
      the `n - 1` digits read so far that may run out of the 800 bits. */
  lemma StreamStep(s: seq<nat>, w: nat, i: nat, n: nat, stray: nat)
    requires Below(s, w) && i < |s| && n == |s| - i && w * |s| == 800
    ensures var before := Low(ValLE(s[i + 1..], w) + Shl(stray, Width(w, n - 1)), 800);
            Or(Low(Shl(before, w), 800), s[i]) == Low(ValLE(s[i..], w) + Shl(stray, Width(w, n)), 800)
    ensures Low(ValLE(s[i..], w), 800) == ValLE(s[i..], w)
    ensures stray == 0 ==> Or(Low(Shl(ValLE(s[i + 1..], w), w), 800), s[i]) == ValLE(s[i..], w)
  {
    hide Low, Shl, Or, Pow2;
    WidthIsProduct(w, |s|);
    WidthMono(w, n, |s|);
    var v, o := ValLE(s[i + 1..], w), Width(w, n - 1);
    assert s[i..][1..] == s[i + 1..];
    WidthStep(w, n - 1);
    StreamValue(s, w, i, n);
    var u := v + Shl(stray, o);
    ShlAdd(v, Shl(stray, o), w);
    ShlPlus(stray, o, w);
    StreamOr(u, w, s[i]);
    if stray == 0 {
      ShlOfZero(o);
      ShlOfZero(Width(w, n));
      Pow2Mono(o, 800);
      LowOfSmall(v, 800);
    }
  }

  lemma StreamValue(s: seq<nat>, w: nat, i: nat, n: nat)
    requires Below(s, w) && i < |s| && n == |s| - i && Width(w, n) <= 800
    ensures ValLE(s[i..], w) < Pow2(Width(w, n)) && Low(ValLE(s[i..], w), 800) == ValLE(s[i..], w)
    ensures ValLE(s[i + 1..], w) < Pow2(Width(w, n - 1)) && Width(w, n - 1) <= 800
  {
    hide Low, Shl, Pow2, ValLE;
    assert Below(s[i..], w) && Below(s[i + 1..], w);
    ValLEBound(s[i..], w);
    ValLEBound(s[i + 1..], w);
    Pow2Mono(Width(w, n), 800);
    LowOfSmall(ValLE(s[i..], w), 800);
    WidthStep(w, n - 1);
  }

  /** One shift-and-OR in the 800-bit stream. */
  lemma StreamOr(u: nat, w: nat, x: nat)
    requires x < Pow2(w) && w <= 800
    ensures Or(Low(Shl(Low(u, 800), w), 800), x) == Low(Shl(u, w) + x, 800)
  {
    hide Low, Shl, Or, Pow2;
    Pow2IsShl(w);
    AppendLow(Low(u, 800), 800 - w, w, 0);
    AppendLow(u, 800 - w, w, x);
    LowLow(u, 800 - w, 800);
    OrDisjoint(Low(u, 800 - w), w, x);
  }

  /** `stray` is whatever 32-bit value the read one past the end of the list returns. */
  method GetMinimalFromIndices(sol: seq<nat>, stray: nat) returns (res: seq<byte>)
    requires |sol| == 32 && Below(sol, 25) && stray < Pow2(32)
    ensures res == Packed(sol)
  {
    hide Low, Shl, Shr, Or, Pow2, And, Below, ValLE, DigitsLE;
    FirstShift(stray);
    var inStream: nat := Or(Low(Shl(0, COLLISION_BIT_SIZE + 1), 800), stray);
    assert sol[32..] == [];
    var i := 32;
    while i > 0
      invariant 0 <= i <= 32
      invariant inStream == Low(ValLE(sol[i..], 25) + Shl(stray, Width(25, 32 - i)), 800)
    {
      i := i - 1;
      StreamStep(sol, 25, i, 32 - i, stray);
      inStream := Low(Shl(inStream, COLLISION_BIT_SIZE + 1), 800);
      inStream := Or(inStream, sol[i]);
    }
    assert sol[0..] == sol;
    StrayFallsOut(sol, stray);
    res := StreamBytes(inStream);
  }

  /** The second loop: 100 bytes off the low end of the stream. */
  method StreamBytes(stream: nat) returns (res: seq<byte>)
    ensures res == DigitsLE(stream, 8, 100)
  {
    hide Low, Shr, And, DigitsLE;
    res := [];
    var inStream := stream;
    for k := 0 to 100
      invariant res + DigitsLE(inStream, 8, 100 - k) == DigitsLE(stream, 8, 100)
    {
      MaskByte(inStream);
      DigitsLEStep(inStream, 8, 100 - k);
      res := res + [And(inStream, 0xFF)];
      inStream := Shr(inStream, 8);
    }
    DigitsLENone(inStream, 8);
  }

  lemma FirstShift(stray: nat)
    requires stray < Pow2(32)
    ensures Or(Low(Shl(0, COLLISION_BIT_SIZE + 1), 800), stray) == Low(ValLE([], 25) + Shl(stray, Width(25, 0)), 800)
  {
    hide Pow2;
    ShlOfZero(COLLISION_BIT_SIZE + 1);
    Pow2Mono(32, 800);
    LowOfSmall(0, 800);
    LowOfSmall(stray, 800);
  }

  /** After 32 shifts the stray value has left the stream. */
  lemma StrayFallsOut(sol: seq<nat>, stray: nat)
    requires |sol| == 32 && Below(sol, 25)
    ensures Low(ValLE(sol, 25) + Shl(stray, Width(25, 32)), 800) == ValLE(sol, 25)
  {
    hide Low, Shl, Pow2;
    WidthIsProduct(25, 32);
    ValLEBound(sol, 25);
    Append(stray, 800, ValLE(sol, 25));
  }

  /** Packing and unpacking are inverse to each other. */
  lemma UnpackedPacked(idx: seq<nat>)
    requires |idx| == 32 && Below(idx, 25)
    ensures Unpacked(Packed(idx)) == idx
  {
    hide Low, Pow2, Below;
    WidthIsProduct(25, 32);
    WidthIsProduct(8, 100);
    ValLEBound(idx, 25);
    ValOfDigitsLE(ValLE(idx, 25), 8, 100);
    LowOfSmall(ValLE(idx, 25), 800);
    DigitsOfValLE(idx, 25);
  }

  lemma PackedUnpacked(bytes: seq<nat>)
    requires |bytes| == 100 && Below(bytes, 8)
    ensures |Unpacked(bytes)| == 32 && Below(Unpacked(bytes), 25)
    ensures Packed(Unpacked(bytes)) == bytes
  {
    hide Low, Pow2, Below;
    WidthIsProduct(25, 32);
    WidthIsProduct(8, 100);
    ValLEBound(bytes, 8);
    ValOfDigitsLE(ValLE(bytes, 8), 25, 32);
    LowOfSmall(ValLE(bytes, 8), 800);
    DigitsLEBelow(ValLE(bytes, 8), 25, 32);
    DigitsOfValLE(bytes, 8);
  }

  // --- The whole verifier ---

  /** One element per index. */
  method LeafElems(sip: SipHash, indices: seq<nat>) returns (X: seq<StepElem>)
    requires SipOk(sip) && |indices| == 32
    ensures |X| == |indices| == Pow2(NUM_ROUNDS) && LevelElems(BeamScheme(sip), X, indices, 0)
  {
    hide HashWords, LevelElems;
    X := [];
    for i := 0 to |indices|
      invariant |X| == i && forall k :: 0 <= k < i ==> X[k] == LeafElem(sip, indices[k])
    {
      var e := NewElem(sip, indices[i]);
      X := X + [e];
    }
    FirstElems(sip, X, indices);
  }

  method IsValidSolution(sipOf: seq<byte> -> SipHash, soln: seq<byte>) returns (ok: bool)
    requires forall nonce :: SipOk(sipOf(nonce))
    ensures ok <==> |soln| == 104 && Accepts(BeamScheme(sipOf(soln[100..104])), Unpacked(soln[..100]))
  {
    hide Accepts, LevelElems, Unpacked, Below, BeamScheme, SipOk, Pow2;
    if |soln| != 104 { return false; }
    var sip := sipOf(soln[100..104]);
    var indices := GetIndicesFromMinimal(soln);
    IndexCodec.BytesBelow(soln[..100]);
    PackedUnpacked(soln[..100]);
    var X := LeafElems(sip, indices);
    ok := CheckRounds(sip, X, indices);
  }

  /** The rounds, starting from one element per index. */
  method CheckRounds(sip: SipHash, elems: seq<StepElem>, ghost idx: seq<nat>) returns (ok: bool)
    requires SipOk(sip) && |elems| == |idx| == Pow2(NUM_ROUNDS) && Below(idx, 25)
    requires LevelElems(BeamScheme(sip), elems, idx, 0)
    ensures ok <==> Accepts(BeamScheme(sip), idx)
  {
    hide Checks, Rebuild, LevelElems, Below, Pow2;
    ghost var s := BeamScheme(sip);
    var X := elems;
    var round := 1;
    RoundsLeft(round);
    while |X| > 1
      invariant 1 <= round <= NUM_ROUNDS + 1 && |X| == Pow2(NUM_ROUNDS - (round - 1))
      invariant LevelElems(s, X, idx, round - 1)
      decreases NUM_ROUNDS + 1 - round
    {
      RoundsLeft(round);
      var good, Xtmp := CombineRound(sip, X, round, idx);
      if !good { return false; }
      X := Xtmp;
      round := round + 1;
    }
    RoundsLeft(round);
    LastElem(s, X, idx);
    ok := X[0].workBits == 0;
  }

  lemma RoundsLeft(round: nat)
    requires 1 <= round <= NUM_ROUNDS + 1
    ensures Pow2(NUM_ROUNDS - (round - 1)) > 1 <==> round <= NUM_ROUNDS
    ensures Pow2(NUM_ROUNDS - (round - 1)) >= 1
  {
  }

  lemma FirstElems(sip: SipHash, X: seq<StepElem>, idx: seq<nat>)
    requires |X| == |idx| == 32 && forall k :: 0 <= k < |X| ==> X[k] == LeafElem(sip, idx[k])
    ensures LevelElems(BeamScheme(sip), X, idx, 0) && |idx| == Pow2(NUM_ROUNDS)
  {
    hide HashWords, Mixed;
    var s := BeamScheme(sip);
    forall b: nat | b < |X| ensures ElemOk(s, X[b], idx, 0, b) {
      assert Block(idx, 0, b) == [idx[b]];
    }
  }

  lemma LastElem(s: Scheme, X: seq<StepElem>, idx: seq<nat>)
    requires SchemeOk(s) && |idx| == Pow2(NUM_ROUNDS) && |X| == 1 && LevelElems(s, X, idx, NUM_ROUNDS)
    ensures Checks(s, idx, NUM_ROUNDS) && X[0] == Rebuild(s, idx, NUM_ROUNDS)
  {
    hide Checks, Rebuild, Pow2;
    assert ElemOk(s, X[0], idx, NUM_ROUNDS, 0);
    WholeBlock(idx, NUM_ROUNDS);
  }

  /** The accepted 100 index bytes are exactly the packed final elements of the solver with zero
      work bits and distinct indices. */
  lemma AcceptedBytesAreSolverElements(sip: SipHash, bytes: seq<byte>)
    requires |bytes| == 100
    ensures Accepts(BeamScheme(sip), Unpacked(bytes)) <==>
              exists e :: && SolverBuilds(BeamScheme(sip), e, NUM_ROUNDS) && AllDistinct(e.indexTree)
                          && e.workBits == 0 && bytes == Packed(e.indexTree)
  {
    hide Checks, Rebuild, SolverBuilds, Unpacked, Packed, Below, AllDistinct;
    var s := BeamScheme(sip);
    IndexCodec.BytesBelow(bytes);
    PackedUnpacked(bytes);
    AcceptsWhatTheSolverBuilds(s, Unpacked(bytes));
    if e :|
        SolverBuilds(s, e, NUM_ROUNDS) && AllDistinct(e.indexTree) && e.workBits == 0 && bytes == Packed(e.indexTree)
    {
      VerifierRebuilds(s, e, NUM_ROUNDS);
      FullRound();
      UnpackedPacked(e.indexTree);
    }
  }

  lemma FullRound()
    ensures Pow2(NUM_ROUNDS) == 32
  {
  }

  /** Two accepted byte strings whose trees differ only by swapped siblings are equal. */
  lemma AcceptedBytesAreCanonical(sip: SipHash, a: seq<byte>, b: seq<byte>)
    requires |a| == |b| == 100
    requires Accepts(BeamScheme(sip), Unpacked(a)) && Accepts(BeamScheme(sip), Unpacked(b))
    requires SwapEquivalent(Unpacked(a), Unpacked(b), NUM_ROUNDS)
    ensures a == b
  {
    hide Checks, Rebuild, Unpacked, Packed, Below, SwapEquivalent;
    AcceptedTreesAreCanonical(BeamScheme(sip), Unpacked(a), Unpacked(b), NUM_ROUNDS);
    IndexCodec.BytesBelow(a);
    IndexCodec.BytesBelow(b);
    PackedUnpacked(a);
    PackedUnpacked(b);
  }
}
