/** `EquihashR<N, K, R>::IsValidSolution`: the level-by-level loop over rows decides the
    declarative solution condition. `GenerateHash` is an arbitrary function. */
module EquihashVerifier {
  import opened Numbers
  import opened Radix
  import opened BitPacking
  import opened IndexCodec
  import opened EquihashTree
  import opened EquihashRows

  function SizeInBytes(n: nat): nat { (n + 7) / 8 }

  datatype Params = Params(n: nat, k: nat, r: nat) {
    function CollisionBitLength(): nat { n / (k + 1) }

    function CollisionByteLength(): nat { WidthBytes(CollisionBitLength()) }

    function HashLength(): nat { Width(CollisionByteLength(), k + 1) }

    function IndicesPerHashOutput(): (q: nat)
      requires n > 0
      ensures n <= 512 ==> q > 0
    {
      512 / n
    }

    function HashOutput(): nat
      requires n > 0
    {
      Width(SizeInBytes(n), IndicesPerHashOutput())
    }

    /** The hash output that holds the hash of index `i`, and where it starts there. */
    function HashIndex(i: nat): nat
      requires 0 < n <= 512
    {
      i / IndicesPerHashOutput()
    }

    function SliceStart(i: nat): (at: nat)
      requires 0 < n <= 512
      ensures at + SizeInBytes(n) <= HashOutput()
    {
      WidthMono(SizeInBytes(n), i % IndicesPerHashOutput(), IndicesPerHashOutput());
      Width(SizeInBytes(n), i % IndicesPerHashOutput())
    }

    function FinalFullWidth(): nat { 2 * CollisionByteLength() + 4 * Pow2(k) }

    function SolutionWidth(): nat { Pow2(k) * (CollisionBitLength() + 1) / 8 }

    function IndexLimit(): nat
      requires r <= CollisionBitLength() + 1
    {
      Pow2(CollisionBitLength() + 1 - r)
    }

    /** What the assertions on the template parameters, and the packers, demand. */
    predicate Valid() {
      && 0 < n <= 512
      && 8 <= CollisionBitLength() <= 30
      && FitsAccumulator(CollisionBitLength())
      && FitsAccumulator(CollisionBitLength() + 1)
      && 8 * SizeInBytes(n) / CollisionBitLength() == k + 1
      && 8 * CollisionByteLength() * SizeInBytes(n) / CollisionBitLength() == HashLength()
      && Pow2(k) * (CollisionBitLength() + 1) % 8 == 0
      && r <= CollisionBitLength() + 1
    }
  }

  /** The two instantiations in use, BeamHash I and II, are valid, and these are their sizes. */
  lemma InstantiationsValid(r: nat)
    requires r == 0 || r == 3
    ensures var p := Params(150, 5, r);
      && p.Valid()
      && p.CollisionBitLength() == 25 && p.CollisionByteLength() == 4 && p.HashLength() == 24
      && SizeInBytes(150) == 19 && p.IndicesPerHashOutput() == 3 && p.HashOutput() == 57
      && p.FinalFullWidth() == 136 && p.SolutionWidth() == 104 && p.IndexLimit() == Pow2(26 - r)
  {
    hide Pow2;
    FiveBits();
    WidthIsProduct(4, 6);
    WidthIsProduct(19, 3);
  }

  lemma FiveBits()
    ensures Pow2(5) == 32
  {
  }

  /** The range of the indices loses `r` bits. */
  lemma LimitIs(p: Params)
    requires p.r <= p.CollisionBitLength() + 1
    ensures p.IndexLimit() * Pow2(p.r) == Pow2(p.CollisionBitLength() + 1)
  {
    hide Pow2, Params.CollisionBitLength;
    ShlPow2(p.CollisionBitLength() + 1 - p.r, p.r);
    ShiftsAreDivision(p.IndexLimit(), p.r);
  }

  // --- The hash of one index ---

  ghost predicate GeneratorOk(p: Params, gen: nat -> seq<byte>)
    requires p.n > 0
  {
    forall g: nat :: |gen(g)| == p.HashOutput()
  }

  function LeafSlice(p: Params, gen: nat -> seq<byte>, i: nat): (s: seq<byte>)
    requires p.Valid() && GeneratorOk(p, gen)
    ensures |s| == SizeInBytes(p.n)
  {
    gen(p.HashIndex(i))[p.SliceStart(i)..p.SliceStart(i) + SizeInBytes(p.n)]
  }

  /** The expanded hash of index `i`. */
  function LeafHash(p: Params, gen: nat -> seq<byte>, i: nat): seq<nat>
    requires p.Valid() && GeneratorOk(p, gen)
  {
    Serialize(Expanded(LeafSlice(p, gen, i), p.CollisionBitLength()), 0, p.CollisionByteLength())
  }

  lemma LeafHashLength(p: Params, gen: nat -> seq<byte>, i: nat)
    requires p.Valid() && GeneratorOk(p, gen)
    ensures |LeafHash(p, gen, i)| == p.HashLength() == OutLen(SizeInBytes(p.n), p.CollisionBitLength(), 0)
  {
    hide FitsAccumulator;
    ExpandedBelow(LeafSlice(p, gen, i), p.CollisionBitLength());
  }

  function HashByte(p: Params, gen: nat -> seq<byte>, i: nat, t: nat): nat
    requires p.Valid() && GeneratorOk(p, gen)
  {
    if t < |LeafHash(p, gen, i)| then LeafHash(p, gen, i)[t] else 0
  }

  /** The hash function that solutions are about. */
  ghost function Hashes(p: Params, gen: nat -> seq<byte>): HashBytes
    requires p.Valid() && GeneratorOk(p, gen)
  {
    (i: nat, t: nat) => HashByte(p, gen, i, t)
  }

  // --- Rows of a level ---

  function HashLen(p: Params, lvl: nat): nat
    requires lvl <= p.k + 1
  {
    Width(p.CollisionByteLength(), p.k + 1 - lvl)
  }

  /** The row stands for the subtree `blk` of `2^lvl` leaves: what is left of its hash XOR,
      and its indices. */
  ghost predicate Represents(p: Params, h: HashBytes, row: Row, blk: seq<nat>, lvl: nat)
    requires lvl <= p.k
  {
    && |row| == p.FinalFullWidth()
    && |blk| == Pow2(lvl)
    && HashLen(p, lvl) <= |row|
    && (forall t :: 0 <= t < HashLen(p, lvl) ==> row[t] == XorAt(h, blk, Width(p.CollisionByteLength(), lvl) + t))
    && HoldsIndices(row, HashLen(p, lvl), blk)
  }

  lemma {:induction false} RoomAt(p: Params, lvl: nat)
    requires p.CollisionByteLength() <= 4 && lvl <= p.k
    ensures HashLen(p, lvl) + 4 * Pow2(lvl) <= p.FinalFullWidth()
    decreases p.k - lvl
  {
    hide WidthBytes;
    if lvl < p.k {
      RoomAt(p, lvl + 1);
      WidthStep(p.CollisionByteLength(), p.k - lvl);
    } else {
      WidthStep(p.CollisionByteLength(), 0);
      NoWidth(p.CollisionByteLength());
    }
  }

  lemma LeafRepresents(p: Params, gen: nat -> seq<byte>, row: Row, i: nat)
    requires p.Valid() && GeneratorOk(p, gen) && i < Pow2(32)
    requires |row| == p.FinalFullWidth() && p.HashLength() + 4 <= |row|
    requires row[..p.HashLength()] == LeafHash(p, gen, i)
    requires row[p.HashLength()..p.HashLength() + 4] == EhIndexToArray(i)
    ensures Represents(p, Hashes(p, gen), row, [i], 0)
  {
    hide FitsAccumulator, LeafHash, EhIndexToArray, WidthBytes, Xor;
    var h := Hashes(p, gen);
    LeafHashLength(p, gen, i);
    forall t | 0 <= t < HashLen(p, 0) ensures row[t] == XorAt(h, [i], t) {
      XorZero(h(i, t));
      assert XorAt(h, [i], t) == Xor(h(i, t), XorAt(h, [], t));
      assert row[t] == row[..p.HashLength()][t] == h(i, t);
    }
    OneIndexBytes(i);
  }

  lemma OneIndexBytes(i: nat)
    ensures IndexBytes([i]) == EhIndexToArray(i)
  {
    hide EhIndexToArray, IndexBytes;
    IndexBytesFront([i]);
    NoIndexBytes([i][1..]);
    assert EhIndexToArray(i) + [] == EhIndexToArray(i);
  }

  lemma LeafLengths(p: Params)
    requires p.Valid()
    ensures 0 < p.n <= 512 && 8 <= p.CollisionBitLength() < 32 && FitsAccumulator(p.CollisionBitLength())
    ensures p.HashLength() == 8 * (0 + WidthBytes(p.CollisionBitLength())) * SizeInBytes(p.n) / p.CollisionBitLength()
    ensures p.HashLength() + 4 <= p.FinalFullWidth()
  {
    hide FitsAccumulator, WidthBytes, SizeInBytes;
    AtMostFourBytes(p.CollisionBitLength());
    RoomAt(p, 0);
  }

  /** The row of index `i`, from the hash output it shares with its neighbours. */
  method LeafRow(p: Params, ghost gen: nat -> seq<byte>, tmpHash: seq<byte>, i: nat) returns (row: Row)
    requires p.Valid() && GeneratorOk(p, gen) && i < Pow2(32)
    requires tmpHash == gen(p.HashIndex(i))
    ensures Represents(p, Hashes(p, gen), row, [i], 0)
  {
    hide FitsAccumulator, Serialize, Expanded, ExpandSteps, EhIndexToArray, Width, Represents, Pow2, WidthBytes, OutLen,
      SizeInBytes, Hashes, Params.Valid, Params.HashIndex, Params.SliceStart, Params.HashOutput, Params.HashLength,
      Params.IndicesPerHashOutput, Params.CollisionBitLength, Params.FinalFullWidth;
    LeafLengths(p);
    LeafHashLength(p, gen, i);
    var size, at := SizeInBytes(p.n), p.SliceStart(i);
    var hash := new byte[p.FinalFullWidth()];
    ExpandArray(tmpHash[at..at + size], hash, p.HashLength(), p.CollisionBitLength(), 0);
    ghost var expanded := hash[..p.HashLength()];
    StoreIndex(hash, p.HashLength(), i);
    row := hash[..];
    assert row[..p.HashLength() + 4] == expanded + EhIndexToArray(i);
    assert row[..p.HashLength()] == expanded;
    assert row[p.HashLength()..p.HashLength() + 4] == EhIndexToArray(i);
    LeafRepresents(p, gen, row, i);
  }

  // --- One pair of sibling rows ---

  /** Equal leading chunks of two rows: the joint XOR of that chunk vanishes. */
  lemma CollisionIsChunkZero(p: Params, h: HashBytes, a: Row, b: Row, l: seq<nat>, r: seq<nat>, lvl: nat)
    requires lvl < p.k && Represents(p, h, a, l, lvl) && Represents(p, h, b, r, lvl)
    ensures p.CollisionByteLength() <= HashLen(p, lvl)
    ensures a[..p.CollisionByteLength()] == b[..p.CollisionByteLength()]
       <==> ChunkZero(h, p.CollisionByteLength(), l + r, lvl)
  {
    hide HoldsIndices, WidthBytes, Xor, XorAt;
    var c := p.CollisionByteLength();
    var o := Width(c, lvl);
    WidthStep(c, lvl);
    WidthStep(c, p.k - lvl);
    forall t | 0 <= t < c
      ensures a[t] == b[t] <==> XorAt(h, l + r, o + t) == 0
    {
      XorAtConcat(h, l, r, o + t);
      XorZeroIffEqual(XorAt(h, l, o + t), XorAt(h, r, o + t));
    }
    if a[..c] == b[..c] {
      forall t: nat | o <= t < o + c ensures XorAt(h, l + r, t) == 0 {
        assert a[t - o] == a[..c][t - o] == b[t - o];
      }
    }
    if ChunkZero(h, c, l + r, lvl) {
      forall t | 0 <= t < c ensures a[..c][t] == b[..c][t] {
        assert XorAt(h, l + r, o + t) == 0;
      }
    }
  }

  /** Comparing the index bytes of two rows compares their lists. */
  lemma RowOrder(a: Row, b: Row, len: nat, l: seq<nat>, r: seq<nat>)
    requires HoldsIndices(a, len, l) && HoldsIndices(b, len, r) && |l| == |r|
    ensures IndicesBefore(a, b, len, 4 * |l|) <==> LexLess(l, r)
  {
    hide IndexBytes, LexLess;
    LexIndexBytes(l, r);
  }

  /** The merged list, smaller one first. */
  function JoinLists(l: seq<nat>, r: seq<nat>): (s: seq<nat>)
    requires |l| == |r|
    ensures |s| == |l| + |r|
  {
    if LexLess(l, r) then l + r else r + l
  }

  lemma {:induction false} IndexBytesConcat(l: seq<nat>, r: seq<nat>)
    ensures IndexBytes(l + r) == IndexBytes(l) + IndexBytes(r)
  {
    hide EhIndexToArray, IndexBytes;
    if |l| == 0 {
      NoIndexBytes(l);
      assert l + r == r;
      EmptyPrefix(IndexBytes(l), IndexBytes(r));
    } else {
      IndexBytesFront(l);
      IndexBytesFront(l + r);
      assert (l + r)[1..] == l[1..] + r;
      IndexBytesConcat(l[1..], r);
    }
  }

  lemma MergedIndices(a: Row, b: Row, len: nat, l: seq<nat>, r: seq<nat>, trim: nat)
    requires HoldsIndices(a, len, l) && HoldsIndices(b, len, r) && |l| == |r| && |a| == |b|
    requires trim <= len && len - trim + 8 * |l| <= |a|
    ensures HoldsIndices(Merged(a, b, len, 4 * |l|, trim), len - trim, JoinLists(l, r))
  {
    hide IndexBytes, LexLess, XorBytes, Pow2;
    RowOrder(a, b, len, l, r);
    IndexBytesConcat(l, r);
    IndexBytesConcat(r, l);
    var x := XorBytes(a[trim..len], b[trim..len]);
    var j := JoinIndices(a[len..len + 4 * |l|], b[len..len + 4 * |l|]);
    var rest := a[len - trim + 8 * |l|..];
    assert Merged(a, b, len, 4 * |l|, trim) == x + j + rest;
    assert (x + j + rest)[len - trim..len - trim + 8 * |l|] == j;
  }

  /** Merging the rows of two subtrees gives the row of their parent. */
  lemma MergeRepresents(p: Params, h: HashBytes, a: Row, b: Row, l: seq<nat>, r: seq<nat>, lvl: nat)
    requires p.CollisionByteLength() <= 4
    requires lvl < p.k && Represents(p, h, a, l, lvl) && Represents(p, h, b, r, lvl)
    ensures p.CollisionByteLength() <= HashLen(p, lvl)
    ensures HashLen(p, lvl) - p.CollisionByteLength() == HashLen(p, lvl + 1)
    ensures HashLen(p, lvl + 1) + 8 * |l| <= p.FinalFullWidth() && HashLen(p, lvl) + 4 * |l| <= p.FinalFullWidth()
    ensures Represents(p, h, Merged(a, b, HashLen(p, lvl), 4 * |l|, p.CollisionByteLength()), JoinLists(l, r), lvl + 1)
  {
    hide HoldsIndices, WidthBytes, Xor, XorAt, LexLess, Merged;
    var c := p.CollisionByteLength();
    RoomAt(p, lvl);
    RoomAt(p, lvl + 1);
    WidthStep(c, lvl);
    WidthStep(c, p.k - lvl);
    var m := Merged(a, b, HashLen(p, lvl), 4 * |l|, c);
    MergedIndices(a, b, HashLen(p, lvl), l, r, c);
    forall t | 0 <= t < HashLen(p, lvl + 1)
      ensures m[t] == XorAt(h, JoinLists(l, r), Width(c, lvl + 1) + t)
    {
      MergedAt(a, b, HashLen(p, lvl), 4 * |l|, c, t);
      XorAtConcat(h, l, r, Width(c, lvl + 1) + t);
      XorAtConcat(h, r, l, Width(c, lvl + 1) + t);
      XorCommutes(a[c + t], b[c + t]);
    }
  }

  /** With disjoint lists and the right one not smaller, the parent is left then right. */
  lemma JoinInOrder(l: seq<nat>, r: seq<nat>)
    requires |l| == |r| > 0 && Disjoint(l, r) && !LexLess(r, l)
    ensures JoinLists(l, r) == l + r
  {
  }

  // --- One level ---

  lemma BlockInRange(k: nat, lvl: nat, b: nat)
    requires lvl <= k && b < Pow2(k - lvl)
    ensures Shl(b + 1, lvl) <= Pow2(k)
  {
    ShlMono(b + 1, Pow2(k - lvl), lvl);
    ShlPow2(k - lvl, lvl);
  }

  ghost predicate RowOk(p: Params, h: HashBytes, row: Row, idx: seq<nat>, lvl: nat, b: nat)
    requires lvl <= p.k
  {
    && Shl(b + 1, lvl) <= |idx|
    && Represents(p, h, row, Block(idx, lvl, b), lvl)
    && TreeOk(h, p.CollisionByteLength(), Block(idx, lvl, b), lvl)
  }

  /** The rows `X` stand for the first subtrees of the level, all accepted so far. */
  ghost predicate LevelRows(p: Params, h: HashBytes, X: seq<Row>, idx: seq<nat>, lvl: nat)
    requires lvl <= p.k
  {
    && |idx| == Pow2(p.k)
    && forall b: nat :: b < |X| ==> RowOk(p, h, X[b], idx, lvl, b)
  }

  /** The widths that the operations on a pair need. */
  lemma PairWidths(p: Params, h: HashBytes, a: Row, l: seq<nat>, lvl: nat)
    requires p.CollisionByteLength() <= 4 && lvl < p.k && Represents(p, h, a, l, lvl)
    ensures |a| == p.FinalFullWidth() && |l| == Pow2(lvl)
    ensures p.CollisionByteLength() <= HashLen(p, lvl)
    ensures HashLen(p, lvl) - p.CollisionByteLength() == HashLen(p, lvl + 1)
    ensures HashLen(p, lvl) + 4 * |l| <= |a| && HashLen(p, lvl + 1) + 8 * |l| <= |a|
    ensures HoldsIndices(a, HashLen(p, lvl), l)
  {
    hide HoldsIndices, WidthBytes;
    RoomAt(p, lvl);
    RoomAt(p, lvl + 1);
    WidthStep(p.CollisionByteLength(), p.k - lvl);
  }

  /** The three checks on a pair succeed exactly when the parent subtree is accepted. */
  lemma PairDecides(p: Params, h: HashBytes, a: Row, b: Row, l: seq<nat>, r: seq<nat>, lvl: nat, hl: nat, c: nat)
    requires p.CollisionByteLength() == c <= 4 && lvl < p.k && hl == HashLen(p, lvl)
    requires Represents(p, h, a, l, lvl) && TreeOk(h, c, l, lvl)
    requires Represents(p, h, b, r, lvl) && TreeOk(h, c, r, lvl)
    requires c <= hl && hl + 4 * |l| <= |a| == |b| && |l| == |r| && hl - c + 8 * |l| <= |a|
    ensures TreeOk(h, c, l + r, lvl + 1) <==>
              (a[..c] == b[..c] && !IndicesBefore(b, a, hl, 4 * |l|) && Disjoint(l, r))
    ensures TreeOk(h, c, l + r, lvl + 1) ==> Represents(p, h, Merged(a, b, hl, 4 * |l|, c), l + r, lvl + 1)
  {
    hide HoldsIndices, WidthBytes, Xor, XorAt, LexLess, Merged, Left, Right, Disjoint, ChunkZero, IndicesBefore,
      HashLen, JoinLists;
    PairWidths(p, h, a, l, lvl);
    PairWidths(p, h, b, r, lvl);
    HalvesOf(l, r);
    CollisionIsChunkZero(p, h, a, b, l, r, lvl);
    RowOrder(b, a, hl, r, l);
    MergeRepresents(p, h, a, b, l, r, lvl);
    if Disjoint(l, r) && !LexLess(r, l) {
      JoinInOrder(l, r);
    }
  }

  /** The rows under node `m` of the next level. */
  lemma PairRows(p: Params, h: HashBytes, X: seq<Row>, idx: seq<nat>, lvl: nat, m: nat)
    requires p.CollisionByteLength() <= 4 && lvl < p.k
    requires LevelRows(p, h, X, idx, lvl) && |X| == Pow2(p.k - lvl) && 2 * m < |X|
    ensures 2 * m + 1 < |X| && Shl(m + 1, lvl + 1) <= |idx|
    ensures Shl(2 * m + 1, lvl) <= |idx| && Shl(2 * m + 2, lvl) <= |idx|
    ensures Block(idx, lvl + 1, m) == Block(idx, lvl, 2 * m) + Block(idx, lvl, 2 * m + 1)
    ensures RowOk(p, h, X[2 * m], idx, lvl, 2 * m) && RowOk(p, h, X[2 * m + 1], idx, lvl, 2 * m + 1)
  {
    hide RowOk, WidthBytes;
    BlockInRange(p.k, lvl + 1, m);
    BlockHalves(idx, lvl, m);
    HalvesTogether(Block(idx, lvl + 1, m));
  }

  /** One round of the loop: check every pair of siblings and merge it. */
  method CombineLevel(p: Params, ghost h: HashBytes, X: seq<Row>, hashLen: nat, lenIndices: nat, ghost idx: seq<nat>,
                      ghost lvl: nat)
    returns (ok: bool, Xc: seq<Row>)
    requires p.CollisionByteLength() <= 4 && lvl < p.k
    requires hashLen == HashLen(p, lvl) && lenIndices == 4 * Pow2(lvl)
    requires LevelRows(p, h, X, idx, lvl) && |X| == Pow2(p.k - lvl)
    ensures ok ==> LevelRows(p, h, Xc, idx, lvl + 1) && |Xc| == Pow2(p.k - lvl - 1)
    ensures !ok ==> !TreeOk(h, p.CollisionByteLength(), idx, p.k)
  {
    hide Represents, TreeOk, HashLen, Merged, IndicesBefore, HoldsIndices, Disjoint, Block, WidthBytes, LexLess, Shl;
    var c := p.CollisionByteLength();
    Xc := [];
    var i := 0;
    while i < |X|
      invariant i == 2 * |Xc| <= |X|
      invariant LevelRows(p, h, Xc, idx, lvl + 1)
    {
      ghost var m := |Xc|;
      PairRows(p, h, X, idx, lvl, m);
      var a, b := X[i], X[i + 1];
      ghost var l, r := Block(idx, lvl, 2 * m), Block(idx, lvl, 2 * m + 1);
      PairWidths(p, h, a, l, lvl);
      PairWidths(p, h, b, r, lvl);
      PairDecides(p, h, a, b, l, r, lvl, hashLen, c);
      if TreeOk(h, c, idx, p.k) { SubtreeOk(h, c, idx, p.k, lvl + 1, m); }
      var collides := HasCollision(a, b, c);
      if !collides { return false, []; }
      if IndicesBefore(b, a, hashLen, lenIndices) { return false, []; }
      var distinct := DistinctIndices(a, b, hashLen, lenIndices, l, r);
      if !distinct { return false, []; }
      var row := MergeRows(a, b, hashLen, lenIndices, c);
      Xc := Xc + [row];
      i := i + 2;
    }
    ok := true;
  }

  // --- The whole verifier ---

  /** The condition the verifier decides, on the unpacked indices. */
  ghost predicate Solution(p: Params, gen: nat -> seq<byte>, idx: seq<nat>)
    requires p.Valid() && GeneratorOk(p, gen)
  {
    && (forall i :: 0 <= i < |idx| ==> idx[i] < p.IndexLimit())
    && TreeOk(Hashes(p, gen), p.CollisionByteLength(), idx, p.k)
    && ChunkZero(Hashes(p, gen), p.CollisionByteLength(), idx, p.k)
  }

  lemma IndexLimitFits(p: Params)
    requires p.Valid()
    ensures 0 < p.n <= 512 && p.r <= p.CollisionBitLength() + 1 && p.IndexLimit() <= Pow2(32)
  {
    hide FitsAccumulator, WidthBytes, Pow2;
    Pow2Mono(p.CollisionBitLength() + 1 - p.r, 32);
  }

  lemma SolutionLengths(p: Params, n: nat)
    requires p.Valid() && n == p.SolutionWidth()
    ensures 32 * n / (p.CollisionBitLength() + 1) == 4 * Pow2(p.k)
    ensures 8 * n / (p.CollisionBitLength() + 1) == Pow2(p.k)
    ensures 8 * n % (p.CollisionBitLength() + 1) == 0
  {
    var b, l := p.CollisionBitLength() + 1, Pow2(p.k);
    hide Pow2, FitsAccumulator;
    assert 8 * n == l * b;
    DivUnique(8 * n, b, l, 0);
    MulScale4(b, l);
    DivUnique(32 * n, b, 4 * l, 0);
  }

  lemma FirstRows(p: Params, gen: nat -> seq<byte>, X: seq<Row>, idx: seq<nat>)
    requires p.Valid() && GeneratorOk(p, gen)
    requires |idx| == Pow2(p.k) && |X| <= |idx|
    requires forall i :: 0 <= i < |X| ==> Represents(p, Hashes(p, gen), X[i], [idx[i]], 0)
    ensures LevelRows(p, Hashes(p, gen), X, idx, 0)
  {
    hide Represents, FitsAccumulator, WidthBytes;
    forall b: nat | b < |X| ensures RowOk(p, Hashes(p, gen), X[b], idx, 0, b) {
      assert Block(idx, 0, b) == [idx[b]];
    }
  }

  lemma LastRow(p: Params, h: HashBytes, X: seq<Row>, idx: seq<nat>)
    requires LevelRows(p, h, X, idx, p.k) && |X| == 1
    ensures Represents(p, h, X[0], idx, p.k) && TreeOk(h, p.CollisionByteLength(), idx, p.k)
  {
    hide Represents, TreeOk, WidthBytes;
    assert RowOk(p, h, X[0], idx, p.k, 0);
    WholeBlock(idx, p.k);
  }

  lemma LastChunk(p: Params, h: HashBytes, row: Row, idx: seq<nat>)
    requires Represents(p, h, row, idx, p.k)
    ensures HashLen(p, p.k) <= |row|
    ensures (forall t :: 0 <= t < HashLen(p, p.k) ==> row[t] == 0) <==> ChunkZero(h, p.CollisionByteLength(), idx, p.k)
  {
    hide HoldsIndices, WidthBytes, XorAt;
    var c := p.CollisionByteLength();
    var o := Width(c, p.k);
    WidthStep(c, p.k);
    assert HashLen(p, p.k) == c by { WidthStep(c, 0); NoWidth(c); }
    if forall t :: 0 <= t < c ==> row[t] == 0 {
      forall t: nat | o <= t < o + c ensures XorAt(h, idx, t) == 0 {
        assert row[t - o] == XorAt(h, idx, o + (t - o));
      }
    }
    if ChunkZero(h, c, idx, p.k) {
      forall t | 0 <= t < c ensures row[t] == 0 {
        assert XorAt(h, idx, o + t) == 0;
      }
    }
  }

  /** One row per index, unless an index is out of range. */
  method LeafRows(p: Params, gen: nat -> seq<byte>, indices: seq<nat>) returns (ok: bool, X: seq<Row>)
    requires p.Valid() && GeneratorOk(p, gen) && |indices| == Pow2(p.k)
    ensures ok <==> forall k :: 0 <= k < |indices| ==> indices[k] < p.IndexLimit()
    ensures ok ==> LevelRows(p, Hashes(p, gen), X, indices, 0) && |X| == |indices|
  {
    hide Represents, Hashes, LevelRows, GeneratorOk, Params.Valid, Params.IndexLimit, Params.HashIndex,
      Pow2, WidthBytes;
    IndexLimitFits(p);
    X := [];
    for i := 0 to |indices|
      invariant |X| == i
      invariant forall k :: 0 <= k < i ==> indices[k] < p.IndexLimit()
      invariant forall k :: 0 <= k < i ==> Represents(p, Hashes(p, gen), X[k], [indices[k]], 0)
    {
      if indices[i] >= p.IndexLimit() { return false, []; }
      var tmpHash := gen(p.HashIndex(indices[i]));
      var row := LeafRow(p, gen, tmpHash, indices[i]);
      X := X + [row];
    }
    FirstRows(p, gen, X, indices);
    ok := true;
  }

  lemma ValidWidths(p: Params)
    requires p.Valid()
    ensures 7 <= p.CollisionBitLength() < 31 && FitsAccumulator(p.CollisionBitLength() + 1)
    ensures p.CollisionByteLength() <= 4
  {
    hide FitsAccumulator;
  }

  method IsValidSolution(p: Params, gen: nat -> seq<byte>, soln: seq<byte>) returns (ok: bool)
    requires p.Valid() && GeneratorOk(p, gen)
    ensures ok <==> |soln| == p.SolutionWidth() && Solution(p, gen, Expanded(soln, p.CollisionBitLength() + 1))
  {
    hide TreeOk, ChunkZero, Expanded, LevelRows, Hashes, GeneratorOk, Pow2, FitsAccumulator, WidthBytes,
      Params.Valid, Params.CollisionBitLength, Params.SolutionWidth;
    ValidWidths(p);
    if |soln| != p.SolutionWidth() { return false; }
    SolutionLengths(p, |soln|);
    var indices := GetIndicesFromMinimal(soln, p.CollisionBitLength());
    var inRange, X := LeafRows(p, gen, indices);
    if !inRange { return false; }
    ok := CheckTree(p, Hashes(p, gen), X, indices);
  }

  /** The rounds, starting from one row per index. */
  method CheckTree(p: Params, ghost h: HashBytes, rows: seq<Row>, ghost idx: seq<nat>) returns (ok: bool)
    requires p.CollisionByteLength() <= 4
    requires LevelRows(p, h, rows, idx, 0) && |rows| == |idx| == Pow2(p.k)
    ensures ok <==> TreeOk(h, p.CollisionByteLength(), idx, p.k) && ChunkZero(h, p.CollisionByteLength(), idx, p.k)
  {
    hide TreeOk, ChunkZero, LevelRows, WidthBytes;
    var X := rows;
    var hashLen: nat, lenIndices: nat := p.HashLength(), 4;
    ghost var lvl := 0;
    while |X| > 1
      invariant lvl <= p.k && |X| == Pow2(p.k - lvl)
      invariant hashLen == HashLen(p, lvl) && lenIndices == 4 * Pow2(lvl)
      invariant LevelRows(p, h, X, idx, lvl)
      decreases |X|
    {
      WidthStep(p.CollisionByteLength(), p.k - lvl);
      var good, Xc := CombineLevel(p, h, X, hashLen, lenIndices, idx, lvl);
      if !good { return false; }
      X := Xc;
      hashLen := hashLen - p.CollisionByteLength();
      lenIndices := lenIndices * 2;
      lvl := lvl + 1;
    }
    LastRow(p, h, X, idx);
    LastChunk(p, h, X[0], idx);
    ok := IsZero(X[0], hashLen);
  }

  // --- What acceptance means ---

  /** The verifier's condition, stated flat over all subtrees: indices in range and distinct,
      every left subtree before its right sibling, every chunk zero where it must be. */
  lemma SolutionIsShape(p: Params, gen: nat -> seq<byte>, idx: seq<nat>)
    requires p.Valid() && GeneratorOk(p, gen)
    ensures Solution(p, gen, idx) <==>
              && (forall i :: 0 <= i < |idx| ==> idx[i] < p.IndexLimit())
              && SolutionShape(Hashes(p, gen), p.CollisionByteLength(), idx, p.k)
              && ChunkZero(Hashes(p, gen), p.CollisionByteLength(), idx, p.k)
  {
    hide TreeOk, SolutionShape, ChunkZero, Hashes, GeneratorOk, Params.Valid;
    TreeOkIsShape(Hashes(p, gen), p.CollisionByteLength(), idx, p.k);
  }

  /** The XOR of all leaf hashes of a solution is zero on every byte. */
  lemma SolutionXorIsZero(p: Params, gen: nat -> seq<byte>, idx: seq<nat>, t: nat)
    requires p.Valid() && GeneratorOk(p, gen) && Solution(p, gen, idx) && t < p.HashLength()
    ensures XorAt(Hashes(p, gen), idx, t) == 0
  {
    hide TreeOk, XorAt, Hashes, GeneratorOk, Params.Valid, WidthBytes;
    var h, c := Hashes(p, gen), p.CollisionByteLength();
    TreeLength(h, c, idx, p.k);
    TreeOkIsOrderedBirthday(h, c, idx, p.k);
    if t < Width(c, p.k) {
      TotalXorZero(h, c, idx, p.k, t);
    }
  }

  lemma TreeLength(h: HashBytes, c: nat, idx: seq<nat>, lvl: nat)
    requires TreeOk(h, c, idx, lvl)
    ensures |idx| == Pow2(lvl)
  {
  }

  /** Two accepted byte strings whose trees differ only by swapped siblings are the same bytes. */
  lemma AcceptedBytesAreCanonical(p: Params, gen: nat -> seq<byte>, a: seq<byte>, b: seq<byte>)
    requires p.Valid() && GeneratorOk(p, gen)
    requires |a| == |b| == p.SolutionWidth()
    requires Solution(p, gen, Expanded(a, p.CollisionBitLength() + 1))
    requires Solution(p, gen, Expanded(b, p.CollisionBitLength() + 1))
    requires SwapEquivalent(Expanded(a, p.CollisionBitLength() + 1), Expanded(b, p.CollisionBitLength() + 1), p.k)
    ensures a == b
  {
    hide TreeOk, ChunkZero, Expanded, Hashes, SwapEquivalent, Below;
    var bitLen := p.CollisionBitLength() + 1;
    AcceptedIsCanonical(Hashes(p, gen), p.CollisionByteLength(), Expanded(a, bitLen), Expanded(b, bitLen), p.k);
    SolutionLengths(p, |a|);
    BytesBelow(a);
    BytesBelow(b);
    UnpackInjective(a, b, bitLen);
  }
}
