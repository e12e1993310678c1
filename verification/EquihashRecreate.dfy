/** The recreate phase of `OptimisedSolve`: for one truncated solution the full rows are
    rebuilt leaf by leaf, merging lists like the carries of a binary counter. */
module EquihashRecreate {
  import opened Numbers
  import opened Radix
  import opened BitPacking
  import opened IndexCodec
  import opened EquihashTree
  import opened EquihashRows
  import opened EquihashVerifier
  import opened EquihashCollide
  import opened Wrappers

  // --- Binary counter ---

  predicate Bit(n: nat, r: nat)
    decreases r
  {
    if r == 0 then n % 2 == 1 else Bit(n / 2, r - 1)
  }

  function BitLength(n: nat): nat { if n == 0 then 0 else 1 + BitLength(n / 2) }

  /** Counting up: trailing ones become zeros, the first zero becomes a one. */
  lemma {:induction false} Increment(n: nat, r: nat)
    requires r <= BitLength(n) && !Bit(n, r) && forall q: nat :: q < r ==> Bit(n, q)
    ensures forall q: nat {:trigger Bit(n + 1, q)} :: Bit(n + 1, q) <==> q == r || (q > r && Bit(n, q))
    ensures BitLength(n + 1) == if r == BitLength(n) then r + 1 else BitLength(n)
    decreases r
  {
    if r > 0 {
      assert Bit(n, 0);
      forall q: nat | q < r - 1 ensures Bit(n / 2, q) { assert Bit(n, q + 1); }
      Increment(n / 2, r - 1);
      forall q: nat ensures Bit(n + 1, q) <==> q == r || (q > r && Bit(n, q)) {
        if q > 0 { assert Bit(n + 1, q) == Bit(n / 2 + 1, q - 1); }
      }
    } else {
      forall q: nat ensures Bit(n + 1, q) <==> q == 0 || (q > 0 && Bit(n, q)) {
        if q > 0 { assert Bit(n + 1, q) == Bit(n / 2, q - 1); }
      }
    }
  }

  lemma {:induction false} BitLengthBound(n: nat, k: nat)
    requires n < Pow2(k)
    ensures BitLength(n) <= k
    decreases k
  {
    if k > 0 { BitLengthBound(n / 2, k - 1); }
  }

  lemma {:induction false} NoBitBeyond(n: nat, r: nat)
    requires r >= BitLength(n)
    ensures !Bit(n, r)
    decreases r
  {
    if r > 0 { NoBitBeyond(n / 2, r - 1); }
  }

  lemma {:induction false} PowerBits(k: nat)
    ensures BitLength(Pow2(k)) == k + 1 && Bit(Pow2(k), k)
  {
    hide Pow2;
    if k > 0 {
      PowerBits(k - 1);
      Pow2Step(k - 1);
    } else {
      NoBits();
    }
  }

  lemma {:induction false} AllOnes(k: nat, n: nat)
    requires n + 1 == Pow2(k)
    ensures !Bit(n, k) && forall q: nat :: q < k ==> Bit(n, q)
    decreases k
  {
    if k > 0 {
      AllOnes(k - 1, n / 2);
      forall q: nat | q < k ensures Bit(n, q) {
        if q > 0 { assert Bit(n / 2, q - 1); }
      }
    }
  }

  /** `rti` with its low `r` bits cleared still has bit `r` to subtract. */
  lemma {:induction false} ClearBit(n: nat, r: nat)
    requires Bit(n, r)
    ensures Shl(Shr(n, r), r) >= Pow2(r)
    ensures Shl(Shr(n, r), r) - Pow2(r) == Shl(Shr(n, r + 1), r + 1)
    decreases r
  {
    if r > 0 {
      ClearBit(n / 2, r - 1);
    } else {
      assert Shr(n, 1) == n / 2 && Shl(n / 2, 1) == 2 * (n / 2);
    }
  }

  // --- Rows of a slot ---

  /** The row stands for a subtree of `2^r` distinct indices that passes every check of the
      verifier up to its level. */
  ghost predicate GoodRow(p: Params, h: HashBytes, row: Row, r: nat)
    requires r <= p.k
  {
    exists blk :: Stands(p, h, row, blk, r)
  }

  ghost predicate Stands(p: Params, h: HashBytes, row: Row, blk: seq<nat>, r: nat)
    requires r <= p.k
  {
    && Represents(p, h, row, blk, r)
    && TreeOk(h, p.CollisionByteLength(), blk, r)
    && Below(blk, p.CollisionBitLength() + 1)
  }

  ghost predicate AllGood(p: Params, h: HashBytes, rows: seq<Row>, r: nat)
    requires r <= p.k
  {
    forall row :: row in rows ==> GoodRow(p, h, row, r)
  }

  ghost predicate SlotOk(p: Params, h: HashBytes, slot: Option<seq<Row>>, n: nat, r: nat)
    requires r <= p.k
  {
    && (slot.Some? <==> Bit(n, r))
    && (slot.Some? ==> |slot.value| > 0 && AllGood(p, h, slot.value, r))
  }

  /** The slots after `n` leaves: slot `r` is occupied exactly when bit `r` of `n` is set. */
  ghost predicate Slots(p: Params, h: HashBytes, X: seq<Option<seq<Row>>>, n: nat) {
    && |X| == BitLength(n) <= p.k + 1
    && forall r: nat :: r < |X| ==> SlotOk(p, h, X[r], n, r)
  }

  // --- Sorting ---

  function Insert(row: Row, X: seq<Row>, len: nat): seq<Row>
    requires len <= |row| && forall i :: 0 <= i < |X| ==> len <= |X[i]|
  {
    if |X| == 0 || LexLess(row[..len], X[0][..len]) then [row] + X
    else [X[0]] + Insert(row, X[1..], len)
  }

  /** A sort by the first `len` bytes, standing for `std::sort` with `CompareSR(len)`. */
  function Sort(X: seq<Row>, len: nat): (s: seq<Row>)
    requires forall i :: 0 <= i < |X| ==> len <= |X[i]|
    ensures multiset(s) == multiset(X)
  {
    if |X| == 0 then [] else
      var s := Sort(X[1..], len);
      SameLengths(X[1..], s, len);
      InsertKeeps(X[0], s, len);
      assert X == [X[0]] + X[1..];
      Insert(X[0], s, len)
  }

  lemma SameLengths(X: seq<Row>, s: seq<Row>, len: nat)
    requires multiset(s) == multiset(X) && forall i :: 0 <= i < |X| ==> len <= |X[i]|
    ensures forall i :: 0 <= i < |s| ==> len <= |s[i]|
  {
    forall i | 0 <= i < |s| ensures len <= |s[i]| {
      assert s[i] in multiset(s);
      assert s[i] in X;
    }
  }

  lemma {:induction false} InsertKeeps(row: Row, X: seq<Row>, len: nat)
    requires len <= |row| && forall i :: 0 <= i < |X| ==> len <= |X[i]|
    ensures multiset(Insert(row, X, len)) == multiset{row} + multiset(X)
    ensures forall i :: 0 <= i < |Insert(row, X, len)| ==> len <= |Insert(row, X, len)[i]|
  {
    if |X| > 0 && !LexLess(row[..len], X[0][..len]) {
      InsertKeeps(row, X[1..], len);
      assert X == [X[0]] + X[1..];
    }
  }

  lemma {:induction false} LexAsymmetric(a: seq<nat>, b: seq<nat>)
    requires |a| == |b| && LexLess(a, b)
    ensures !LexLess(b, a)
  {
    if a[0] == b[0] { LexAsymmetric(a[1..], b[1..]); }
  }

  lemma {:induction false} LexTransitive(a: seq<nat>, b: seq<nat>, c: seq<nat>)
    requires |a| == |b| == |c| && !LexLess(b, a) && !LexLess(c, b)
    ensures !LexLess(c, a)
  {
    if |a| > 0 && c[0] == a[0] && b[0] == a[0] {
      LexTransitive(a[1..], b[1..], c[1..]);
    }
  }

  /** Sorted, seen from its first element. */
  lemma SortedCons(x: Row, X: seq<Row>, len: nat)
    requires len <= |x| && forall i :: 0 <= i < |X| ==> len <= |X[i]|
    requires SortedRows(X, len) && (forall i :: 0 <= i < |X| ==> !LexLess(X[i][..len], x[..len]))
    ensures SortedRows([x] + X, len)
  {
    hide LexLess;
    var s := [x] + X;
    forall i, j | 0 <= i < j < |s| ensures !LexLess(s[j][..len], s[i][..len]) {
      assert s[j] == X[j - 1];
      if i > 0 { assert s[i] == X[i - 1]; }
    }
  }

  lemma {:induction false} InsertAbove(row: Row, X: seq<Row>, len: nat, y: Row)
    requires len <= |row| && len <= |y| && forall i :: 0 <= i < |X| ==> len <= |X[i]|
    requires !LexLess(row[..len], y[..len]) && forall i :: 0 <= i < |X| ==> !LexLess(X[i][..len], y[..len])
    ensures forall i :: 0 <= i < |Insert(row, X, len)| ==>
              len <= |Insert(row, X, len)[i]| && !LexLess(Insert(row, X, len)[i][..len], y[..len])
  {
    hide LexLess;
    if |X| > 0 && !LexLess(row[..len], X[0][..len]) {
      InsertAbove(row, X[1..], len, y);
    }
  }

  lemma {:induction false} InsertSorts(row: Row, X: seq<Row>, len: nat)
    requires len <= |row| && forall i :: 0 <= i < |X| ==> len <= |X[i]|
    requires SortedRows(X, len)
    ensures forall i :: 0 <= i < |Insert(row, X, len)| ==> len <= |Insert(row, X, len)[i]|
    ensures SortedRows(Insert(row, X, len), len)
  {
    hide LexLess;
    InsertKeeps(row, X, len);
    if |X| == 0 {
      SortedCons(row, X, len);
    } else if LexLess(row[..len], X[0][..len]) {
      LexAsymmetric(row[..len], X[0][..len]);
      forall i | 0 <= i < |X| ensures !LexLess(X[i][..len], row[..len]) {
        if i > 0 { LexTransitive(row[..len], X[0][..len], X[i][..len]); }
      }
      SortedCons(row, X, len);
    } else {
      InsertSorts(row, X[1..], len);
      InsertAbove(row, X[1..], len, X[0]);
      SortedCons(X[0], Insert(row, X[1..], len), len);
    }
  }

  lemma {:induction false} SortSorts(X: seq<Row>, len: nat)
    requires forall i :: 0 <= i < |X| ==> len <= |X[i]|
    ensures forall i :: 0 <= i < |Sort(X, len)| ==> len <= |Sort(X, len)[i]|
    ensures SortedRows(Sort(X, len), len)
  {
    hide LexLess, Insert;
    SameLengths(X, Sort(X, len), len);
    if |X| > 0 {
      SortSorts(X[1..], len);
      InsertSorts(X[0], Sort(X[1..], len), len);
    }
  }

  // --- One join of two lists ---

  function JoinAt(p: Params, r: nat, lt: byte, rt: byte): Join
    requires r <= p.k
  {
    Join(HashLen(p, r), 4 * Pow2(r), p.CollisionByteLength(), p.CollisionBitLength() + 1, lt, rt, p.FinalFullWidth())
  }

  lemma JoinAtValid(p: Params, r: nat, lt: byte, rt: byte)
    requires p.CollisionByteLength() <= 4 && 7 <= p.CollisionBitLength() < 31 && r < p.k
    ensures JoinAt(p, r, lt, rt).Valid()
    ensures HashLen(p, r) - p.CollisionByteLength() == HashLen(p, r + 1)
  {
    hide WidthBytes, Params.CollisionBitLength;
    RoomAt(p, r);
    RoomAt(p, r + 1);
    WidthStep(p.CollisionByteLength(), p.k - r);
  }

  lemma {:induction false} IndexBytesInjective(a: seq<nat>, b: seq<nat>)
    requires Below(a, 32) && Below(b, 32) && |a| == |b| && IndexBytes(a) == IndexBytes(b)
    ensures a == b
  {
    hide EhIndexToArray, IndexBytes, Pow2;
    forall k | 0 <= k < |a| ensures a[k] == b[k] {
      IndexBytesAt(a, k);
      IndexBytesAt(b, k);
      IndexRoundTrip(a[k]);
      IndexRoundTrip(b[k]);
    }
  }

  /** The index list that `CollideBranches` compares is the list the row stands for. */
  lemma IndicesOfRow(b: Join, row: Row, blk: seq<nat>)
    requires b.Valid() && |row| == b.width && b.lenIndices == 4 * |blk|
    requires HoldsIndices(row, b.hlen, blk)
    ensures IndicesOf(b, row) == blk
  {
    hide IndexBytes, RowIndices, Below;
    RowHoldsIndices(b, row);
    IndexBytesInjective(IndicesOf(b, row), blk);
  }

  /** Joining two accepted, disjoint, colliding subtrees gives an accepted one. */
  lemma JoinTree(h: HashBytes, c: nat, l: seq<nat>, r: seq<nat>, lvl: nat)
    requires TreeOk(h, c, l, lvl) && TreeOk(h, c, r, lvl)
    requires Disjoint(l, r) && ChunkZero(h, c, l + r, lvl)
    ensures |l| == |r| && TreeOk(h, c, JoinLists(l, r), lvl + 1)
  {
    hide XorAt, LexLess, Disjoint, Left, Right, Pow2;
    TreeLength(h, c, l, lvl);
    TreeLength(h, c, r, lvl);
    HalvesOf(l, r);
    HalvesOf(r, l);
    Pow2Step(lvl);
    if LexLess(l, r) {
      LexAsymmetric(l, r);
    } else {
      DisjointSymmetric(l, r);
      forall t: nat | Width(c, lvl) <= t < Width(c, lvl + 1) ensures XorAt(h, r + l, t) == 0 {
        XorAtConcat(h, l, r, t);
        XorAtConcat(h, r, l, t);
        XorCommutes(XorAt(h, l, t), XorAt(h, r, t));
      }
    }
  }

  lemma DisjointSymmetric(a: seq<nat>, b: seq<nat>)
    requires Disjoint(a, b)
    ensures Disjoint(b, a)
  {
  }

  lemma BelowJoin(l: seq<nat>, r: seq<nat>, w: nat)
    requires |l| == |r| && Below(l, w) && Below(r, w)
    ensures Below(JoinLists(l, r), w)
  {
    hide LexLess, Pow2;
  }

  lemma MergedStands(p: Params, h: HashBytes, x: Row, y: Row, l: seq<nat>, m: seq<nat>, r: nat, b: Join)
    requires p.CollisionByteLength() <= 4 && r < p.k && b.Valid()
    requires b.hlen == HashLen(p, r) && b.lenIndices == 4 * Pow2(r)
    requires b.clen == p.CollisionByteLength() && b.width == p.FinalFullWidth()
    requires Stands(p, h, x, l, r) && Stands(p, h, y, m, r) && x[..b.clen] == y[..b.clen] && Disjoint(l, m)
    ensures |l| == |m| && |x| == |y| == b.width
    ensures Stands(p, h, Merged(x, y, b.hlen, b.lenIndices, b.clen), JoinLists(l, m), r + 1)
  {
    hide TreeOk, HoldsIndices, Below, Disjoint, ChunkZero, WidthBytes, Merged, JoinLists, Params.CollisionBitLength;
    CollisionIsChunkZero(p, h, x, y, l, m, r);
    JoinTree(h, p.CollisionByteLength(), l, m, r);
    MergeRepresents(p, h, x, y, l, m, r);
    BelowJoin(l, m, p.CollisionBitLength() + 1);
  }

  lemma EmitGood(p: Params, h: HashBytes, x: Row, y: Row, r: nat, b: Join)
    requires p.CollisionByteLength() <= 4 && r < p.k && b.Valid()
    requires b.hlen == HashLen(p, r) && b.lenIndices == 4 * Pow2(r)
    requires b.clen == p.CollisionByteLength() && b.width == p.FinalFullWidth()
    requires GoodRow(p, h, x, r) && GoodRow(p, h, y, r)
    requires |x| == |y| == b.width && Collides(b, x, y)
    ensures forall row :: row in Emit(b, x, y) ==> GoodRow(p, h, row, r + 1)
  {
    hide TreeOk, HoldsIndices, Below, Disjoint, WidthBytes, Merged, JoinLists, IndicesOf, IsValidBranch,
      Params.CollisionBitLength;
    var l :| Stands(p, h, x, l, r);
    var m :| Stands(p, h, y, m, r);
    IndicesOfRow(b, x, l);
    IndicesOfRow(b, y, m);
    if Disjoint(l, m) {
      DisjointSymmetric(l, m);
      MergedStands(p, h, x, y, l, m, r, b);
      MergedStands(p, h, y, x, m, l, r, b);
    }
  }

  lemma JoinGood(p: Params, h: HashBytes, X: seq<Row>, r: nat, b: Join)
    requires p.CollisionByteLength() <= 4 && r < p.k && b.Valid() && Rows(b, X)
    requires b.hlen == HashLen(p, r) && b.lenIndices == 4 * Pow2(r)
    requires b.clen == p.CollisionByteLength() && b.width == p.FinalFullWidth()
    requires AllGood(p, h, X, r)
    ensures AllGood(p, h, AllMerges(b, X), r + 1)
  {
    hide GoodRow, Emit, Collides, RunMerges, HashLen, Pow2, WidthBytes;
    forall row | row in AllMerges(b, X) ensures GoodRow(p, h, row, r + 1) {
      MergesMembers(b, X, |X|, row);
      var i, j :| 0 <= i < |X| && i < j < |X| && Collides(b, X[i], X[j]) && row in Emit(b, X[i], X[j]);
      EmitGood(p, h, X[i], X[j], r, b);
    }
  }

  lemma GoodWidth(p: Params, h: HashBytes, row: Row, r: nat)
    requires r <= p.k && GoodRow(p, h, row, r)
    ensures |row| == p.FinalFullWidth() && HashLen(p, r) <= |row|
  {
    hide TreeOk, HoldsIndices, Below;
  }

  /** The join of two lists: sorted somehow, all valid pairs merged, in any order. */
  ghost predicate Joined(b: Join, left: seq<Row>, right: seq<Row>, ic: seq<Row>) {
    exists sorted :: JoinedVia(b, left, right, sorted, ic)
  }

  ghost predicate JoinedVia(b: Join, left: seq<Row>, right: seq<Row>, sorted: seq<Row>, ic: seq<Row>) {
    && b.Valid() && Rows(b, sorted)
    && multiset(sorted) == multiset(left + right)
    && SortedRows(sorted, b.hlen)
    && multiset(ic) == multiset(AllMerges(b, sorted))
  }

  /** 2c) Put the two lists together, sort and join them. */
  method MergeLists(p: Params, ghost h: HashBytes, left: seq<Row>, right: seq<Row>, ghost r: nat, hashLen: nat,
                    lenIndices: nat, lt: byte, rt: byte)
    returns (ic: seq<Row>)
    requires p.CollisionByteLength() <= 4 && 7 <= p.CollisionBitLength() < 31 && r < p.k
    requires hashLen == HashLen(p, r) && lenIndices == 4 * Pow2(r)
    requires |left| > 0 && AllGood(p, h, left, r) && AllGood(p, h, right, r)
    ensures AllGood(p, h, ic, r + 1)
    ensures Joined(JoinAt(p, r, lt, rt), left, right, ic)
  {
    hide GoodRow, HashLen, Pow2, WidthBytes, Sort, AllMerges, SortedRows, Params.CollisionBitLength,
      Params.FinalFullWidth;
    var both := left + right;
    forall i | 0 <= i < |both| ensures hashLen <= |both[i]| == p.FinalFullWidth() {
      assert both[i] in both;
      GoodWidth(p, h, both[i], r);
    }
    var sorted := Sort(both, hashLen);
    SortSorts(both, hashLen);
    var b := Join(hashLen, lenIndices, p.CollisionByteLength(), p.CollisionBitLength() + 1, lt, rt, p.FinalFullWidth());
    JoinAtValid(p, r, lt, rt);
    SameGood(p, h, both, sorted, r);
    SameMembers(b, both, sorted);
    ic := CollideBranches(sorted, b);
    JoinGood(p, h, sorted, r, b);
    SameGood(p, h, AllMerges(b, sorted), ic, r + 1);
    assert JoinedVia(b, left, right, sorted, ic);
  }

  lemma SameGood(p: Params, h: HashBytes, s: seq<Row>, t: seq<Row>, r: nat)
    requires r <= p.k && AllGood(p, h, s, r) && multiset(t) == multiset(s)
    ensures AllGood(p, h, t, r) && |s| == |t|
  {
    hide GoodRow;
    assert |multiset(s)| == |s| && |multiset(t)| == |t|;
    forall row | row in t ensures GoodRow(p, h, row, r) {
      assert row in multiset(t);
      assert row in s;
    }
  }

  // --- One leaf ---

  lemma UntruncatedIndex(t: byte, j: nat, ilen: nat)
    requires ilen >= 8 && j < Pow2(ilen - 8)
    ensures UntruncateIndex(t, j, ilen) == Shl(t, ilen - 8) + j < Pow2(ilen)
  {
    ByteBelow(t);
    hide Shl, Pow2, Or;
    OrDisjoint(t, ilen - 8, j);
    AppendBelow(t, 8, ilen - 8, j);
  }

  lemma LeafStands(p: Params, h: HashBytes, row: Row, i: nat)
    requires Represents(p, h, row, [i], 0) && i < Pow2(p.CollisionBitLength() + 1)
    ensures Stands(p, h, row, [i], 0)
  {
    hide Represents;
  }

  /** One row for every full index with the truncation `t`. */
  ghost predicate Candidates(p: Params, h: HashBytes, icv: seq<Row>, t: byte)
    requires p.CollisionBitLength() >= 7
  {
    && |icv| == Pow2(p.CollisionBitLength() - 7)
    && forall j :: 0 <= j < |icv| ==> CandidateOk(p, h, icv[j], t, j)
  }

  ghost predicate CandidateOk(p: Params, h: HashBytes, row: Row, t: byte, j: nat)
    requires p.CollisionBitLength() >= 7
  {
    Stands(p, h, row, [UntruncateIndex(t, j, p.CollisionBitLength() + 1)], 0)
  }

  lemma CandidatesAreGood(p: Params, h: HashBytes, icv: seq<Row>, t: byte)
    requires p.CollisionBitLength() >= 7 && Candidates(p, h, icv, t)
    ensures AllGood(p, h, icv, 0) && |icv| > 0
  {
    hide Stands, UntruncateIndex;
    forall row | row in icv
      ensures GoodRow(p, h, row, 0)
    {
      var j :| 0 <= j < |icv| && icv[j] == row;
      assert CandidateOk(p, h, icv[j], t, j);
    }
  }

  /** The next index reads the same hash output unless it starts one. */
  lemma SameHashOutput(i: nat, ipo: nat)
    requires ipo > 0 && (i + 1) % ipo != 0
    ensures (i + 1) / ipo == i / ipo
  {
    var q, r := i / ipo, i % ipo;
    if r + 1 == ipo {
      assert i + 1 == (q + 1) * ipo;
      DivUnique(i + 1, ipo, q + 1, 0);
      assert false;
    }
    DivUnique(i + 1, ipo, q, r + 1);
  }

  lemma NextHashIndex(p: Params, i: nat)
    requires 0 < p.n <= 512 && (i + 1) % p.IndicesPerHashOutput() != 0
    ensures p.HashIndex(i + 1) == p.HashIndex(i)
  {
    SameHashOutput(i, p.IndicesPerHashOutput());
  }

  /** 1) All full indices with the truncation `t`, hashing once per hash output. */
  method LeafCandidates(p: Params, gen: nat -> seq<byte>, t: byte) returns (icv: seq<Row>)
    requires p.Valid() && GeneratorOk(p, gen)
    ensures p.CollisionBitLength() >= 7 && Candidates(p, Hashes(p, gen), icv, t)
  {
    hide Stands, Represents, Hashes, GeneratorOk, UntruncateIndex, Shl, Pow2, FitsAccumulator, WidthBytes,
      SizeInBytes, Params.Valid, Params.HashIndex, Params.CollisionBitLength, Params.IndicesPerHashOutput,
      Params.HashLength, Params.FinalFullWidth;
    LeafLengths(p);
    var ilen := p.CollisionBitLength() + 1;
    var recreateSize := UntruncateIndex(1, 0, ilen);
    UntruncatedIndex(1, 0, ilen);
    Pow2IsShl(ilen - 8);
    Pow2Mono(ilen, 32);
    icv := [];
    var tmpHash: seq<byte> := [];
    for j := 0 to recreateSize
      invariant |icv| == j
      invariant forall q :: 0 <= q < j ==> CandidateOk(p, Hashes(p, gen), icv[q], t, q)
      invariant j > 0 ==> tmpHash == gen(p.HashIndex(Shl(t, ilen - 8) + j - 1))
    {
      UntruncatedIndex(t, j, ilen);
      var newIndex := UntruncateIndex(t, j, ilen);
      if j == 0 || newIndex % p.IndicesPerHashOutput() == 0 {
        tmpHash := gen(p.HashIndex(newIndex));
      } else {
        NextHashIndex(p, newIndex - 1);
      }
      var row := LeafRow(p, gen, tmpHash, newIndex);
      LeafStands(p, Hashes(p, gen), row, newIndex);
      icv := icv + [row];
    }
  }

  /** The state inside the carry loop at slot `r`: the slots below were merged into `ic`. */
  ghost predicate Carrying(p: Params, h: HashBytes, X: seq<Option<seq<Row>>>, ic: seq<Row>, n: nat, r: nat)
    requires r <= p.k
  {
    && |X| == BitLength(n) <= p.k && r <= |X|
    && |ic| > 0 && AllGood(p, h, ic, r)
    && (forall q: nat :: q < r ==> Bit(n, q) && X[q] == None)
    && (forall q: nat :: r <= q < |X| ==> SlotOk(p, h, X[q], n, q))
  }

  lemma StartCarry(p: Params, h: HashBytes, X: seq<Option<seq<Row>>>, ic: seq<Row>, n: nat)
    requires Slots(p, h, X, n) && n < Pow2(p.k) && |ic| > 0 && AllGood(p, h, ic, 0)
    ensures Carrying(p, h, X, ic, n, 0)
  {
    hide AllGood;
    BitLengthBound(n, p.k);
  }

  lemma CarryStep(p: Params, h: HashBytes, X: seq<Option<seq<Row>>>, ic: seq<Row>, n: nat, r: nat, ic1: seq<Row>)
    requires r < p.k && Carrying(p, h, X, ic, n, r) && r < |X| && X[r].Some?
    requires |ic1| > 0 && AllGood(p, h, ic1, r + 1)
    ensures Carrying(p, h, X[r := None], ic1, n, r + 1)
  {
    hide AllGood, Bit, BitLength;
    assert SlotOk(p, h, X[r], n, r);
  }

  lemma CarryEnd(p: Params, h: HashBytes, X: seq<Option<seq<Row>>>, ic: seq<Row>, n: nat, r: nat)
    requires r <= p.k && Carrying(p, h, X, ic, n, r)
    requires r < |X| ==> X[r] == None
    ensures !Bit(n, r)
    ensures Slots(p, h, if r < |X| then X[r := Some(ic)] else X + [Some(ic)], n + 1)
  {
    hide AllGood, Bit, BitLength;
    if r < |X| {
      assert SlotOk(p, h, X[r], n, r);
    } else {
      NoBitBeyond(n, r);
    }
    Increment(n, r);
    var Y := if r < |X| then X[r := Some(ic)] else X + [Some(ic)];
    forall q: nat | q < |Y| ensures SlotOk(p, h, Y[q], n + 1, q) {
      assert Bit(n + 1, q) <==> q == r || (q > r && Bit(n, q));
      if q > r { assert SlotOk(p, h, X[q], n, q); }
    }
  }

  /** The leaf whose truncation stands for the subtree of height `q` that ends at leaf `n`. */
  function LeafAt(n: nat, q: nat): nat { Shl(Shr(n, q), q) }

  /** One merge of the carry loop. */
  ghost predicate CarriedOnce(p: Params, partial: seq<byte>, X0: seq<Option<seq<Row>>>, n: nat, ic: seq<Row>,
                              next: seq<Row>, q: nat)
    requires q <= p.k
  {
    && ic != [] && q < |X0| && X0[q].Some?
    && LeafAt(n, q) < |partial| && LeafAt(n, q + 1) < |partial|
    && Joined(JoinAt(p, q, partial[LeafAt(n, q + 1)], partial[LeafAt(n, q)]), ic, X0[q].value, next)
  }

  /** The lists that the carry loop goes through, merging one full slot after the other. */
  ghost predicate Carried(p: Params, partial: seq<byte>, X0: seq<Option<seq<Row>>>, icv: seq<Row>, n: nat,
                          levels: seq<seq<Row>>)
  {
    && 0 < |levels| <= p.k + 1 && levels[0] == icv
    && forall q :: 0 <= q < |levels| - 1 ==> CarriedOnce(p, partial, X0, n, levels[q], levels[q + 1], q)
  }

  function Top(levels: seq<seq<Row>>): seq<Row>
    requires |levels| > 0
  {
    levels[|levels| - 1]
  }

  /** The slots with the first `r` emptied. */
  function Cleared(X: seq<Option<seq<Row>>>, r: nat): seq<Option<seq<Row>>> {
    seq(|X|, i requires 0 <= i < |X| => if i < r then None else X[i])
  }

  /** The slots after filling slot `r`, which is empty or new. */
  function Filled(X: seq<Option<seq<Row>>>, r: nat, ic: seq<Row>): seq<Option<seq<Row>>> {
    if r < |X| then Cleared(X, r)[r := Some(ic)] else Cleared(X, r) + [Some(ic)]
  }

  lemma ClearedStep(X: seq<Option<seq<Row>>>, r: nat)
    requires r < |X|
    ensures Cleared(X, r)[r := None] == Cleared(X, r + 1)
  {
  }

  lemma ClearedNone(X: seq<Option<seq<Row>>>)
    ensures Cleared(X, 0) == X
  {
  }

  lemma CarriedMore(p: Params, partial: seq<byte>, X0: seq<Option<seq<Row>>>, icv: seq<Row>, n: nat,
                    levels: seq<seq<Row>>, next: seq<Row>)
    requires Carried(p, partial, X0, icv, n, levels) && |levels| <= p.k
    requires CarriedOnce(p, partial, X0, n, Top(levels), next, |levels| - 1)
    ensures Carried(p, partial, X0, icv, n, levels + [next])
  {
    hide CarriedOnce;
    var more := levels + [next];
    forall q | 0 <= q < |more| - 1
      ensures CarriedOnce(p, partial, X0, n, more[q], more[q + 1], q)
    {
      if q < |levels| - 1 {
        assert CarriedOnce(p, partial, X0, n, levels[q], levels[q + 1], q);
      }
    }
  }

  /** The carry loop of leaf `n`: `None` stands for the jump to `invalidsolution`. Slot `r` is
      the one that gets filled. */
  method AddLeaf(p: Params, ghost h: HashBytes, partial: seq<byte>, X0: seq<Option<seq<Row>>>, icv: seq<Row>, n: nat)
    returns (out: Option<seq<Option<seq<Row>>>>, hashLen: nat, lenIndices: nat, ghost r: nat,
             ghost levels: seq<seq<Row>>)
    requires p.Valid() && n < |partial| == Pow2(p.k)
    requires Slots(p, h, X0, n) && |icv| > 0 && AllGood(p, h, icv, 0)
    ensures out.Some? ==> Slots(p, h, out.value, n + 1)
    ensures out.Some? ==> r <= p.k && !Bit(n, r) && (forall q: nat :: q < r ==> Bit(n, q))
    ensures out.Some? ==> hashLen == HashLen(p, r) && lenIndices == 4 * Pow2(r)
    ensures Carried(p, partial, X0, icv, n, levels) && (out.Some? <==> Top(levels) != [])
    ensures out.Some? ==> r == |levels| - 1 && Free(X0, r) && out.value == Filled(X0, r, Top(levels))
  {
    hide Joined, CarriedOnce, LeafAt, Carried, Cleared, AllGood, Slots, Bit, BitLength, WidthBytes, FitsAccumulator,
      Shl, Shr, HashLen, Pow2, Params.CollisionBitLength,
      Params.FinalFullWidth, Params.Valid, Params.HashLength;
    ValidWidths(p);
    StartCarry(p, h, X0, icv, n);
    var X, ic := X0, icv;
    hashLen, lenIndices := p.HashLength(), 4;
    var rti := n;
    var slot := 0;
    levels := [icv];
    CarryStart(p, n);
    ClearedNone(X0);
    NothingCarried(p, partial, X0, icv, n);
    while true
      invariant Carried(p, partial, X0, icv, n, levels) && |levels| == slot + 1 && Top(levels) == ic != []
      invariant X == Cleared(X0, slot)
      invariant slot <= p.k && Carrying(p, h, X, ic, n, slot)
      invariant hashLen == HashLen(p, slot) && lenIndices == 4 * Pow2(slot)
      invariant rti == LeafAt(n, slot) <= n
      decreases p.k - slot
    {
      ClearedAt(X0, slot);
      if slot < |X| {
        assert SlotOk(p, h, X[slot], n, slot);
        if X[slot].Some? {
          LeafBefore(n, slot);
          var lti := rti - Pow2(slot);
          var merged := MergeLists(p, h, ic, X[slot].value, slot, hashLen, lenIndices, partial[lti], partial[rti]);
          MergeCarries(p, partial, X0, n, ic, merged, slot);
          CarriedMore(p, partial, X0, icv, n, levels, merged);
          levels := levels + [merged];
          if |merged| == 0 { return None, hashLen, lenIndices, slot, levels; }
          ClearedStep(X0, slot);
          JoinAtValid(p, slot, 0, 0);
          Pow2Step(slot);
          CarryStep(p, h, X, ic, n, slot, merged);
          X, ic := X[slot := None], merged;
          hashLen := hashLen - p.CollisionByteLength();
          lenIndices := lenIndices * 2;
          rti := lti;
        } else {
          CarryEnd(p, h, X, ic, n, slot);
          return Some(X[slot := Some(ic)]), hashLen, lenIndices, slot, levels;
        }
      } else {
        CarryEnd(p, h, X, ic, n, slot);
        return Some(X + [Some(ic)]), hashLen, lenIndices, slot, levels;
      }
      slot := slot + 1;
    }
  }

  lemma NothingCarried(p: Params, partial: seq<byte>, X0: seq<Option<seq<Row>>>, icv: seq<Row>, n: nat)
    ensures Carried(p, partial, X0, icv, n, [icv])
  {
  }

  lemma ClearedAt(X: seq<Option<seq<Row>>>, r: nat)
    ensures |Cleared(X, r)| == |X| && (r < |X| ==> Cleared(X, r)[r] == X[r])
  {
  }

  /** `lti` is where the left sibling subtree begins. */
  lemma LeafBefore(n: nat, q: nat)
    requires Bit(n, q)
    ensures LeafAt(n, q) >= Pow2(q) && LeafAt(n, q) - Pow2(q) == LeafAt(n, q + 1)
  {
    ClearBit(n, q);
  }

  lemma MergeCarries(p: Params, partial: seq<byte>, X0: seq<Option<seq<Row>>>, n: nat, ic: seq<Row>,
                     merged: seq<Row>, q: nat)
    requires q <= p.k && ic != [] && q < |X0| && X0[q].Some?
    requires LeafAt(n, q) < |partial| && LeafAt(n, q + 1) < |partial|
    requires Joined(JoinAt(p, q, partial[LeafAt(n, q + 1)], partial[LeafAt(n, q)]), ic, X0[q].value, merged)
    ensures CarriedOnce(p, partial, X0, n, ic, merged, q)
  {
    hide Joined;
  }

  lemma CarryStart(p: Params, n: nat)
    ensures LeafAt(n, 0) == n && Pow2(0) == 1 && p.HashLength() == HashLen(p, 0)
  {
  }

  // --- All leaves ---

  /** What one leaf does to the slots: its candidates are carried, and the last list fills the first
      empty slot. */
  ghost predicate LeafAdded(p: Params, h: HashBytes, partial: seq<byte>, X: seq<Option<seq<Row>>>, n: nat,
                            X': seq<Option<seq<Row>>>)
    requires n < |partial| && p.CollisionBitLength() >= 7
  {
    exists icv, levels ::
      && Candidates(p, h, icv, partial[n]) && Carried(p, partial, X, icv, n, levels)
      && Top(levels) != [] && Free(X, |levels| - 1) && X' == Filled(X, |levels| - 1, Top(levels))
  }

  predicate Free(X: seq<Option<seq<Row>>>, r: nat) { r <= |X| && (r < |X| ==> X[r] == None) }

  /** The leaf leaves nothing: the truncated solution is invalid. */
  ghost predicate LeafFails(p: Params, h: HashBytes, partial: seq<byte>, X: seq<Option<seq<Row>>>, n: nat)
    requires n < |partial| && p.CollisionBitLength() >= 7
  {
    exists icv, levels ::
      Candidates(p, h, icv, partial[n]) && Carried(p, partial, X, icv, n, levels) && Top(levels) == []
  }

  /** The slots after each leaf. */
  ghost predicate Recreated(p: Params, h: HashBytes, partial: seq<byte>, trace: seq<seq<Option<seq<Row>>>>)
    requires p.CollisionBitLength() >= 7
  {
    && 0 < |trace| <= |partial| + 1 && trace[0] == []
    && forall i :: 0 < i < |trace| ==> LeafAdded(p, h, partial, trace[i - 1], i - 1, trace[i])
  }

  /** The recreate loop. `None` is an invalid truncated solution; otherwise the rows of the top
      slot, which is the last of `k + 1`, and their widths. */
  method Recreate(p: Params, gen: nat -> seq<byte>, partial: seq<byte>)
    returns (top: Option<seq<Row>>, hashLen: nat, lenIndices: nat, ghost trace: seq<seq<Option<seq<Row>>>>)
    requires p.Valid() && GeneratorOk(p, gen) && |partial| == Pow2(p.k)
    ensures p.CollisionBitLength() >= 7 && Recreated(p, Hashes(p, gen), partial, trace)
    ensures top.Some? ==> |trace| == |partial| + 1 && |trace[|partial|]| == p.k + 1 && top == trace[|partial|][p.k]
    ensures top.None? ==> |trace| <= |partial| && LeafFails(p, Hashes(p, gen), partial, trace[|trace| - 1], |trace| - 1)
    ensures top.Some? ==> |top.value| > 0 && AllGood(p, Hashes(p, gen), top.value, p.k)
    ensures top.Some? ==> hashLen == HashLen(p, p.k) && lenIndices == 4 * Pow2(p.k)
  {
    hide Candidates, Carried, LeafAdded, LeafFails, AllGood, Slots, Bit, BitLength, Hashes, GeneratorOk, HashLen, Pow2,
      Params.Valid, Params.CollisionBitLength;
    ghost var h := Hashes(p, gen);
    var X: seq<Option<seq<Row>>> := [];
    hashLen, lenIndices := 0, 0;
    trace := [X];
    ValidBits(p);
    EmptySlots(p, h);
    AllOnes(p.k, Pow2(p.k) - 1);
    for i := 0 to |partial|
      invariant Slots(p, h, X, i)
      invariant |trace| == i + 1 && trace[i] == X && Recreated(p, h, partial, trace)
      invariant i == |partial| ==> hashLen == HashLen(p, p.k) && lenIndices == 4 * Pow2(p.k)
    {
      var icv := LeafCandidates(p, gen, partial[i]);
      CandidatesAreGood(p, h, icv, partial[i]);
      ghost var r, levels;
      var out;
      out, hashLen, lenIndices, r, levels := AddLeaf(p, h, partial, X, icv, i);
      if out == None {
        LeafHasFailed(p, h, partial, X, i, icv, levels);
        return None, hashLen, lenIndices, trace;
      }
      LeafIsAdded(p, h, partial, X, i, icv, levels, out.value);
      X := out.value;
      trace := trace + [X];
    }
    TopSlot(p, h, X);
    top := X[p.k];
  }

  lemma ValidBits(p: Params)
    requires p.Valid()
    ensures p.CollisionBitLength() >= 7
  {
  }

  lemma LeafIsAdded(p: Params, h: HashBytes, partial: seq<byte>, X: seq<Option<seq<Row>>>, n: nat, icv: seq<Row>,
                    levels: seq<seq<Row>>, X': seq<Option<seq<Row>>>)
    requires n < |partial| && p.CollisionBitLength() >= 7
    requires Candidates(p, h, icv, partial[n]) && Carried(p, partial, X, icv, n, levels)
    requires Top(levels) != [] && Free(X, |levels| - 1) && X' == Filled(X, |levels| - 1, Top(levels))
    ensures LeafAdded(p, h, partial, X, n, X')
  {
    hide Candidates;
  }

  lemma LeafHasFailed(p: Params, h: HashBytes, partial: seq<byte>, X: seq<Option<seq<Row>>>, n: nat, icv: seq<Row>,
                      levels: seq<seq<Row>>)
    requires n < |partial| && p.CollisionBitLength() >= 7
    requires Candidates(p, h, icv, partial[n]) && Carried(p, partial, X, icv, n, levels) && Top(levels) == []
    ensures LeafFails(p, h, partial, X, n)
  {
    hide Candidates;
  }

  lemma EmptySlots(p: Params, h: HashBytes)
    ensures Slots(p, h, [], 0)
  {
  }

  /** The assertion `X.size() == K + 1` after the last leaf. */
  lemma TopSlot(p: Params, h: HashBytes, X: seq<Option<seq<Row>>>)
    requires Slots(p, h, X, Pow2(p.k))
    ensures |X| == p.k + 1 && X[p.k].Some?
    ensures |X[p.k].value| > 0 && AllGood(p, h, X[p.k].value, p.k)
  {
    hide AllGood, Bit, BitLength;
    PowerBits(p.k);
    assert SlotOk(p, h, X[p.k], Pow2(p.k), p.k);
  }

  // --- The solution bytes ---

  lemma IndicesHeld(row: Row, len: nat, idx: seq<nat>)
    requires HoldsIndices(row, len, idx)
    ensures len + 4 * |idx| <= |row|
    ensures var held: seq<nat> := row[len..len + 4 * |idx|]; held == IndexBytes(idx)
  {
    hide IndexBytes;
  }

  method GetIndices(p: Params, row: Row, len: nat, lenIndices: nat, ghost idx: seq<nat>) returns (ret: seq<byte>)
    requires p.Valid() && |idx| == Pow2(p.k) && lenIndices == 4 * |idx|
    requires HoldsIndices(row, len, idx)
    ensures |ret| == p.SolutionWidth()
    ensures Width(p.CollisionBitLength() + 1, |idx|) == 8 * |ret|
    ensures ret == Compressed(Truncated(idx, p.CollisionBitLength() + 1), p.CollisionBitLength() + 1, |ret|)
  {
    hide HoldsIndices, IndexBytes, Pow2, FitsAccumulator, Elements, Compressed, CompressSteps, Truncated, Below, Width,
      Params.CollisionBitLength, Params.SolutionWidth, Params.Valid;
    ghost var n := |idx|;
    var bitLen := p.CollisionBitLength() + 1;
    PackedWidth(p, n);
    MinimalLength(bitLen, n);
    var minLen := bitLen * lenIndices / 32;
    var bytePad := 4 - WidthBytes(bitLen);
    var out := new byte[minLen];
    IndicesHeld(row, len, idx);
    CompressArray(row[len..len + lenIndices], out, minLen, bitLen, bytePad);
    ElementsOfIndices(idx, bitLen);
    ret := out[..];
  }

  lemma PackedWidth(p: Params, n: nat)
    requires p.Valid() && n == Pow2(p.k)
    ensures 8 <= p.CollisionBitLength() <= 30 && FitsAccumulator(p.CollisionBitLength() + 1)
    ensures (p.CollisionBitLength() + 1) * n % 8 == 0
    ensures (p.CollisionBitLength() + 1) * n / 8 == p.SolutionWidth()
  {
    hide FitsAccumulator;
    assert n * (p.CollisionBitLength() + 1) == (p.CollisionBitLength() + 1) * n;
  }

  /** `soln` is the index list at the solution width. */
  predicate Packs(p: Params, idx: seq<nat>, soln: seq<byte>) {
    var bitLen := p.CollisionBitLength() + 1;
    Width(bitLen, |idx|) == 8 * |soln| && soln == Compressed(Truncated(idx, bitLen), bitLen, |soln|)
  }

  /** A recreated row, packed, is a solution exactly when its indices are in range and the one
      chunk that the join did not compare is zero. */
  lemma RecreatedRowAccepted(p: Params, gen: nat -> seq<byte>, row: Row, idx: seq<nat>, soln: seq<byte>)
    requires p.Valid() && GeneratorOk(p, gen)
    requires Stands(p, Hashes(p, gen), row, idx, p.k)
    requires Packs(p, idx, soln)
    ensures HashLen(p, p.k) <= |row|
    ensures Expanded(soln, p.CollisionBitLength() + 1) == idx
    ensures Solution(p, gen, Expanded(soln, p.CollisionBitLength() + 1)) <==>
              && (forall i :: 0 <= i < |idx| ==> idx[i] < p.IndexLimit())
              && (forall t :: 0 <= t < HashLen(p, p.k) ==> row[t] == 0)
  {
    hide TreeOk, ChunkZero, Hashes, GeneratorOk, FitsAccumulator, Pow2, Expanded, Compressed, Truncated, Represents,
      Width,
      Below, Params.CollisionBitLength, WidthBytes, HashLen;
    var bitLen := p.CollisionBitLength() + 1;
    WidthIsProduct(bitLen, |idx|);
    IndexListRoundTrip(idx, bitLen, |soln|);
    LastChunk(p, Hashes(p, gen), row, idx);
  }
}
