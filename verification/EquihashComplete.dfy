/** The recreate phase finds everything it is for: every solution whose indices have the given
    truncations is among the rows of the top slot, and no leaf on the way to it fails. */
module EquihashComplete {
  import opened Numbers
  import opened Radix
  import opened BitPacking
  import opened IndexCodec
  import opened EquihashTree
  import opened EquihashRows
  import opened EquihashVerifier
  import opened EquihashCollide
  import opened EquihashRecreate
  import opened Wrappers

  /** The full indices `idx` have the truncations `partial`. */
  ghost predicate Refines(p: Params, idx: seq<nat>, partial: seq<byte>)
    requires p.CollisionBitLength() >= 7
  {
    && |idx| == |partial| && Below(idx, p.CollisionBitLength() + 1)
    && forall i :: 0 <= i < |idx| ==> TruncateIndex(idx[i], p.CollisionBitLength() + 1) == partial[i]
  }

  /** Some row stands for the subtree `blk`. */
  ghost predicate Finds(p: Params, h: HashBytes, rows: seq<Row>, blk: seq<nat>, r: nat)
    requires r <= p.k
  {
    exists row :: row in rows && Stands(p, h, row, blk, r)
  }

  // --- One leaf's candidates ---

  /** A full index is its truncation followed by the remaining bits. */
  lemma UntruncateTruncated(i: nat, ilen: nat)
    requires ilen >= 8 && i < Pow2(ilen)
    ensures Low(i, ilen - 8) < Pow2(ilen - 8)
    ensures UntruncateIndex(TruncateIndex(i, ilen), Low(i, ilen - 8), ilen) == i
  {
    hide Pow2, Shr, Low, Shl, Or;
    ShrBelow(i, 8, ilen - 8);
    LowOfSmall(Shr(i, ilen - 8), 8);
    OrDisjoint(Shr(i, ilen - 8), ilen - 8, Low(i, ilen - 8));
    Split(i, ilen - 8);
  }

  lemma LeafFinds(p: Params, h: HashBytes, icv: seq<Row>, t: byte, i: nat)
    requires p.CollisionBitLength() >= 7 && Candidates(p, h, icv, t)
    requires i < Pow2(p.CollisionBitLength() + 1) && TruncateIndex(i, p.CollisionBitLength() + 1) == t
    ensures Finds(p, h, icv, [i], 0)
  {
    hide Stands, UntruncateIndex, TruncateIndex, Low, Pow2, Params.CollisionBitLength;
    var j := Low(i, p.CollisionBitLength() - 7);
    UntruncateTruncated(i, p.CollisionBitLength() + 1);
    assert CandidateOk(p, h, icv[j], t, j);
  }

  // --- One merge ---

  lemma FirstIndexOfRow(row: Row, len: nat, blk: seq<nat>)
    requires HoldsIndices(row, len, blk) && |blk| > 0
    ensures len + 4 <= |row| && ArrayToEhIndex(row[len..len + 4]) == blk[0]
  {
    hide IndexBytes, ArrayToEhIndex, EhIndexToArray, Pow2;
    IndexInRow(row, len, blk, 0);
    IndexRoundTrip(blk[0]);
  }

  /** A pair of colliding rows of two disjoint subtrees emits the row of both, the branch with `lt` in
      front, in whichever order the table has them. */
  lemma EmitFinds(p: Params, h: HashBytes, b: Join, x: Row, y: Row, l: seq<nat>, m: seq<nat>, r: nat)
    requires p.CollisionByteLength() <= 4 && r < p.k && b.Valid()
    requires b.hlen == HashLen(p, r) && b.lenIndices == 4 * Pow2(r)
    requires b.clen == p.CollisionByteLength() && b.width == p.FinalFullWidth()
    requires Stands(p, h, x, l, r) && Stands(p, h, y, m, r)
    requires |x| == |y| == b.width && x[..b.clen] == y[..b.clen]
    requires Disjoint(l, m) && |l| > 0 && |m| > 0 && l[0] < m[0]
    requires TruncateIndex(l[0], b.ilen) == b.lt && TruncateIndex(m[0], b.ilen) == b.rt
    ensures exists row :: row in Emit(b, x, y) && Stands(p, h, row, l + m, r + 1)
    ensures exists row :: row in Emit(b, y, x) && Stands(p, h, row, l + m, r + 1)
  {
    hide TreeOk, HoldsIndices, Below, Disjoint, Stands, Merged, WidthBytes, TruncateIndex, ArrayToEhIndex, HashLen,
      IndicesOf, JoinLists, Pow2, Params.CollisionBitLength, Params.FinalFullWidth;
    StandsFor(p, h, x, l, r);
    StandsFor(p, h, y, m, r);
    IndicesOfRow(b, x, l);
    IndicesOfRow(b, y, m);
    FirstIndexOfRow(x, b.hlen, l);
    FirstIndexOfRow(y, b.hlen, m);
    DisjointSymmetric(l, m);
    MergedStands(p, h, x, y, l, m, r, b);
    MergedStands(p, h, y, x, m, l, r, b);
    InOrder(l, m);
    assert Emit(b, x, y)[0] in Emit(b, x, y) && Emit(b, y, x)[0] in Emit(b, y, x);
  }

  /** A pair emits a row exactly when its indices are distinct and the truncations of the two first indices
      are the two that are asked for, in one order or the other. */
  lemma EmitsExactly(b: Join, x: Row, y: Row, l: seq<nat>, m: seq<nat>)
    requires b.Valid() && |x| == |y| == b.width && b.lenIndices == 4 * |l| == 4 * |m|
    requires HoldsIndices(x, b.hlen, l) && HoldsIndices(y, b.hlen, m)
    ensures |l| > 0 && |m| > 0
    ensures Emit(b, x, y) != [] <==>
      var i, j := l[0] / Pow2(b.ilen - 8) % 256, m[0] / Pow2(b.ilen - 8) % 256;
      Disjoint(l, m) && ((i == b.lt && j == b.rt) || (j == b.lt && i == b.rt))
  {
    hide HoldsIndices, Disjoint, Merged, TruncateIndex, ArrayToEhIndex, IndicesOf, Pow2;
    IndicesOfRow(b, x, l);
    IndicesOfRow(b, y, m);
    FirstIndexOfRow(x, b.hlen, l);
    FirstIndexOfRow(y, b.hlen, m);
    TruncateIs(l[0], b.ilen);
    TruncateIs(m[0], b.ilen);
  }

  lemma InOrder(l: seq<nat>, m: seq<nat>)
    requires |l| == |m| > 0 && l[0] < m[0]
    ensures JoinLists(l, m) == JoinLists(m, l) == l + m
  {
  }

  lemma StandsFor(p: Params, h: HashBytes, row: Row, blk: seq<nat>, r: nat)
    requires r <= p.k && Stands(p, h, row, blk, r)
    ensures |blk| == Pow2(r) && |row| == p.FinalFullWidth() && HoldsIndices(row, HashLen(p, r), blk)
  {
    hide TreeOk, HoldsIndices, Below, HashLen, Pow2;
  }

  lemma DifferentRows(p: Params, h: HashBytes, b: Join, x: Row, y: Row, l: seq<nat>, m: seq<nat>, r: nat)
    requires r <= p.k && b.Valid() && b.hlen == HashLen(p, r) && b.lenIndices == 4 * Pow2(r)
    requires b.width == p.FinalFullWidth() && Stands(p, h, x, l, r) && Stands(p, h, y, m, r) && l != m
    ensures |x| == |y| == b.width && x != y
  {
    hide TreeOk, HoldsIndices, Stands, HashLen, Pow2, IndicesOf, Params.FinalFullWidth;
    StandsFor(p, h, x, l, r);
    StandsFor(p, h, y, m, r);
    IndicesOfRow(b, x, l);
    IndicesOfRow(b, y, m);
  }

  lemma RowsCollide(p: Params, h: HashBytes, x: Row, y: Row, l: seq<nat>, m: seq<nat>, r: nat)
    requires r < p.k && Stands(p, h, x, l, r) && Stands(p, h, y, m, r)
    requires ChunkZero(h, p.CollisionByteLength(), l + m, r)
    ensures p.CollisionByteLength() <= |x| && p.CollisionByteLength() <= |y|
    ensures x[..p.CollisionByteLength()] == y[..p.CollisionByteLength()]
  {
    hide TreeOk, HoldsIndices, HashLen, Pow2, ChunkZero, WidthBytes, Params.FinalFullWidth;
    CollisionIsChunkZero(p, h, x, y, l, m, r);
  }

  lemma InBoth(x: Row, X: seq<Row>, Y: seq<Row>)
    requires multiset(X) == multiset(Y) && x in Y
    ensures x in X
  {
    assert x in multiset(Y);
  }

  /** A pair of rows that collide is merged, in the order in which the table has them. */
  lemma PairIsMerged(b: Join, X: seq<Row>, x: Row, y: Row)
    requires b.Valid() && Rows(b, X) && x in X && y in X && x != y
    requires |x| == |y| == b.width && x[..b.clen] == y[..b.clen]
    ensures (forall row :: row in Emit(b, x, y) ==> row in AllMerges(b, X))
         || (forall row :: row in Emit(b, y, x) ==> row in AllMerges(b, X))
  {
    hide Emit, RunMerges;
    var i :| 0 <= i < |X| && X[i] == x;
    var j :| 0 <= j < |X| && X[j] == y;
    var first, second := if i < j then i else j, if i < j then j else i;
    assert Collides(b, X[first], X[second]);
    forall row | row in Emit(b, X[first], X[second])
      ensures row in AllMerges(b, X)
    {
      MergesMembers(b, X, |X|, row);
    }
  }

  /** The join of the lists of two siblings finds their parent. */
  lemma MergeFinds(p: Params, h: HashBytes, lt: byte, rt: byte, ic: seq<Row>, slot: seq<Row>, next: seq<Row>,
                   l: seq<nat>, m: seq<nat>, r: nat)
    requires p.CollisionByteLength() <= 4 && r < p.k
    requires Joined(JoinAt(p, r, lt, rt), ic, slot, next)
    requires Finds(p, h, slot, l, r) && Finds(p, h, ic, m, r)
    requires Disjoint(l, m) && |l| > 0 && |m| > 0 && l[0] < m[0] && ChunkZero(h, p.CollisionByteLength(), l + m, r)
    requires p.CollisionBitLength() >= 7
    requires TruncateIndex(l[0], p.CollisionBitLength() + 1) == lt
    requires TruncateIndex(m[0], p.CollisionBitLength() + 1) == rt
    ensures Finds(p, h, next, l + m, r + 1)
  {
    hide Stands, Disjoint, ChunkZero, TruncateIndex, Emit, AllMerges, SortedRows, HashLen, WidthBytes, Pow2,
      Params.CollisionBitLength, Params.FinalFullWidth;
    var b := JoinAt(p, r, lt, rt);
    var x :| x in slot && Stands(p, h, x, l, r);
    var y :| y in ic && Stands(p, h, y, m, r);
    var sorted :| JoinedVia(b, ic, slot, sorted, next);
    InBoth(x, sorted, ic + slot);
    InBoth(y, sorted, ic + slot);
    DifferentRows(p, h, b, x, y, l, m, r);
    RowsCollide(p, h, x, y, l, m, r);
    EmitFinds(p, h, b, x, y, l, m, r);
    PairIsMerged(b, sorted, x, y);
    var row :| row in AllMerges(b, sorted) && Stands(p, h, row, l + m, r + 1);
    InBoth(row, next, AllMerges(b, sorted));
  }

  // --- The binary counter ---

  /** Shifting out the lowest bits of a number, one at a time. */
  lemma {:induction false} ShrBit(n: nat, r: nat)
    ensures Shr(n, r) == 2 * Shr(n, r + 1) + if Bit(n, r) then 1 else 0
  {
    if r > 0 {
      ShrBit(n / 2, r - 1);
    } else {
      assert Shr(n, 1) == n / 2;
    }
  }

  /** Adding one reaches no bit above the first zero. */
  lemma {:induction false} ShrNext(n: nat, r: nat, q: nat)
    requires !Bit(n, r) && (forall s: nat :: s < r ==> Bit(n, s)) && q > r
    ensures Shr(n + 1, q) == Shr(n, q)
    decreases r
  {
    if r > 0 {
      assert Bit(n, 0);
      forall s: nat | s < r - 1 ensures Bit(n / 2, s) { assert Bit(n, s + 1); }
      assert (n + 1) / 2 == n / 2 + 1;
      ShrNext(n / 2, r - 1, q - 1);
    } else {
      assert (n + 1) / 2 == n / 2;
    }
  }

  /** After `n` leaves, slot `r` has a row for the last complete left subtree of `2^r` leaves. */
  ghost predicate SlotFinds(p: Params, h: HashBytes, slot: Option<seq<Row>>, idx: seq<nat>, n: nat, r: nat)
    requires r <= p.k
  {
    && (slot.Some? <==> Bit(n, r))
    && (slot.Some? ==> BlockFound(p, h, slot.value, idx, r, 2 * Shr(n, r + 1)))
  }

  ghost predicate BlockFound(p: Params, h: HashBytes, rows: seq<Row>, idx: seq<nat>, r: nat, b: nat)
    requires r <= p.k
  {
    Shl(b + 1, r) <= |idx| && Finds(p, h, rows, Block(idx, r, b), r)
  }

  ghost predicate SlotsFind(p: Params, h: HashBytes, X: seq<Option<seq<Row>>>, idx: seq<nat>, n: nat) {
    && |X| == BitLength(n) <= p.k + 1
    && forall r: nat :: r < |X| ==> SlotFinds(p, h, X[r], idx, n, r)
  }

  /** What a solution is, as far as the merges are concerned. */
  ghost predicate Target(p: Params, h: HashBytes, partial: seq<byte>, idx: seq<nat>) {
    && 7 <= p.CollisionBitLength() && p.CollisionByteLength() <= 4
    && Refines(p, idx, partial) && TreeOk(h, p.CollisionByteLength(), idx, p.k)
  }

  lemma FirstOfBlock(idx: seq<nat>, lvl: nat, b: nat)
    requires Shl(b + 1, lvl) <= |idx|
    ensures Shl(b, lvl) < |idx| && Block(idx, lvl, b)[0] == idx[Shl(b, lvl)]
  {
    hide Shl, Pow2;
    ShlAdd(b, 1, lvl);
    Pow2IsShl(lvl);
  }

  lemma SiblingsOf(h: HashBytes, c: nat, idx: seq<nat>, k: nat, q: nat, m: nat)
    requires TreeOk(h, c, idx, k) && q < k && Shl(2 * m + 2, q) <= |idx|
    ensures Shl(m + 1, q + 1) <= |idx| && Shl(2 * m + 1, q) <= |idx|
    ensures var a, b := Block(idx, q, 2 * m), Block(idx, q, 2 * m + 1);
      && Block(idx, q + 1, m) == a + b && |a| == |b| > 0
      && Disjoint(a, b) && a[0] < b[0] && ChunkZero(h, c, a + b, q)
  {
    hide Shl, Disjoint, ChunkZero, Pow2;
    BlockBounds(q, m);
    BlockHalves(idx, q, m);
    SubtreeOk(h, c, idx, k, q + 1, m);
    var s := Block(idx, q + 1, m);
    assert s == Left(s) + Right(s);
    RootOk(h, c, s, q);
  }

  lemma RootOk(h: HashBytes, c: nat, s: seq<nat>, q: nat)
    requires TreeOk(h, c, s, q + 1)
    ensures |Left(s)| == |Right(s)| == Pow2(q)
    ensures Disjoint(Left(s), Right(s)) && Left(s)[0] < Right(s)[0] && ChunkZero(h, c, s, q)
  {
    hide Disjoint, ChunkZero, Left, Right;
    TreeOkIsOrderedBirthday(h, c, s, q + 1);
  }

  // --- One leaf ---

  /** The lists of the carry loop of leaf `n`: list `q` finds the subtree of `2^q` leaves that ends there. */
  lemma {:induction false} CarryFinds(p: Params, h: HashBytes, partial: seq<byte>, X: seq<Option<seq<Row>>>,
                                      icv: seq<Row>, n: nat, levels: seq<seq<Row>>, idx: seq<nat>, q: nat)
    requires Target(p, h, partial, idx) && n < |partial| && q < |levels|
    requires SlotsFind(p, h, X, idx, n) && Candidates(p, h, icv, partial[n]) && Carried(p, partial, X, icv, n, levels)
    ensures forall s: nat :: s < q ==> Bit(n, s)
    ensures BlockFound(p, h, levels[q], idx, q, Shr(n, q))
  {
    hide Target, SlotFinds, BlockFound, Candidates, CarriedOnce, Bit, BitLength, Shr;
    if q == 0 {
      FirstListFinds(p, h, partial, icv, n, idx);
    } else {
      CarryFinds(p, h, partial, X, icv, n, levels, idx, q - 1);
      assert CarriedOnce(p, partial, X, n, levels[q - 1], levels[q], q - 1);
      CarryStepFinds(p, h, partial, X, n, levels[q - 1], levels[q], idx, q - 1);
    }
  }

  lemma FirstListFinds(p: Params, h: HashBytes, partial: seq<byte>, icv: seq<Row>, n: nat, idx: seq<nat>)
    requires Target(p, h, partial, idx) && n < |partial| && Candidates(p, h, icv, partial[n])
    ensures BlockFound(p, h, icv, idx, 0, Shr(n, 0))
  {
    hide Candidates, TreeOk, TruncateIndex, Pow2, WidthBytes, Params.CollisionBitLength;
    LeafFinds(p, h, icv, partial[n], idx[n]);
    assert Block(idx, 0, n) == [idx[n]];
  }

  lemma CarryStepFinds(p: Params, h: HashBytes, partial: seq<byte>, X: seq<Option<seq<Row>>>, n: nat, ic: seq<Row>,
                       next: seq<Row>, idx: seq<nat>, q: nat)
    requires Target(p, h, partial, idx) && q < p.k
    requires SlotsFind(p, h, X, idx, n) && BlockFound(p, h, ic, idx, q, Shr(n, q))
    requires CarriedOnce(p, partial, X, n, ic, next, q)
    ensures Bit(n, q) && BlockFound(p, h, next, idx, q + 1, Shr(n, q + 1))
  {
    hide Joined, Finds, TreeOk, Disjoint, ChunkZero, Block, Bit, BitLength, Shl, Shr, TruncateIndex, WidthBytes,
      Below, Params.CollisionBitLength;
    assert SlotFinds(p, h, X[q], idx, n, q);
    ShrBit(n, q);
    var m := Shr(n, q + 1);
    SiblingsOf(h, p.CollisionByteLength(), idx, p.k, q, m);
    FirstOfBlock(idx, q, 2 * m);
    FirstOfBlock(idx, q, 2 * m + 1);
    BlockBounds(q, m);
    var l, r := Block(idx, q, 2 * m), Block(idx, q, 2 * m + 1);
    MergeFinds(p, h, partial[LeafAt(n, q + 1)], partial[LeafAt(n, q)], ic, X[q].value, next, l, r, q);
  }

  lemma FoundIsSome(p: Params, h: HashBytes, rows: seq<Row>, idx: seq<nat>, r: nat, b: nat)
    requires r <= p.k && BlockFound(p, h, rows, idx, r, b)
    ensures rows != []
  {
    hide Stands, Block;
  }

  /** A leaf does not fail on the way to a solution, and keeps all of its subtrees. */
  lemma LeafKeepsSolution(p: Params, h: HashBytes, partial: seq<byte>, X: seq<Option<seq<Row>>>, n: nat,
                          idx: seq<nat>)
    requires Target(p, h, partial, idx) && n < |partial| && SlotsFind(p, h, X, idx, n)
    ensures !LeafFails(p, h, partial, X, n)
    ensures forall X' :: LeafAdded(p, h, partial, X, n, X') ==> SlotsFind(p, h, X', idx, n + 1)
  {
    hide Refines, TreeOk, WidthBytes, SlotsFind, BlockFound, Candidates, CarriedOnce, Free, Filled, Bit,
      Params.CollisionBitLength;
    forall icv, levels | Candidates(p, h, icv, partial[n]) && Carried(p, partial, X, icv, n, levels)
      ensures Top(levels) != []
    {
      CarryFinds(p, h, partial, X, icv, n, levels, idx, |levels| - 1);
      FoundIsSome(p, h, Top(levels), idx, |levels| - 1, Shr(n, |levels| - 1));
    }
    forall X' | LeafAdded(p, h, partial, X, n, X')
      ensures SlotsFind(p, h, X', idx, n + 1)
    {
      var icv, levels :|
        && Candidates(p, h, icv, partial[n]) && Carried(p, partial, X, icv, n, levels)
        && Top(levels) != [] && Free(X, |levels| - 1) && X' == Filled(X, |levels| - 1, Top(levels));
      CarryFinds(p, h, partial, X, icv, n, levels, idx, |levels| - 1);
      FilledFinds(p, h, X, n, |levels| - 1, Top(levels), idx);
    }
  }

  lemma FilledFinds(p: Params, h: HashBytes, X: seq<Option<seq<Row>>>, n: nat, r: nat, top: seq<Row>, idx: seq<nat>)
    requires SlotsFind(p, h, X, idx, n) && r <= p.k && Free(X, r)
    requires (forall s: nat :: s < r ==> Bit(n, s)) && BlockFound(p, h, top, idx, r, Shr(n, r))
    ensures SlotsFind(p, h, Filled(X, r, top), idx, n + 1)
  {
    hide BlockFound, Bit, BitLength, Shr;
    if r < |X| {
      assert SlotFinds(p, h, X[r], idx, n, r);
    } else {
      NoBitBeyond(n, r);
    }
    Increment(n, r);
    var Y := Filled(X, r, top);
    forall q: nat | q < |Y|
      ensures SlotFinds(p, h, Y[q], idx, n + 1, q)
    {
      assert Bit(n + 1, q) <==> q == r || (q > r && Bit(n, q));
      if q == r {
        ShrNext(n, r, q + 1);
        ShrBit(n, r);
      } else if q > r {
        ShrNext(n, r, q + 1);
        assert SlotFinds(p, h, X[q], idx, n, q);
      }
    }
  }

  // --- All leaves ---

  /** After every leaf the slots have a row for each of the solution's subtrees they are for. */
  lemma {:induction false} TraceFinds(p: Params, h: HashBytes, partial: seq<byte>,
                                      trace: seq<seq<Option<seq<Row>>>>, idx: seq<nat>, i: nat)
    requires Target(p, h, partial, idx) && Recreated(p, h, partial, trace) && i < |trace|
    ensures SlotsFind(p, h, trace[i], idx, i)
  {
    hide LeafAdded, SlotsFind, Refines, TreeOk, WidthBytes, Params.CollisionBitLength;
    if i == 0 {
      NothingFound(p, h, idx);
    } else {
      TraceFinds(p, h, partial, trace, idx, i - 1);
      LeafKeepsSolution(p, h, partial, trace[i - 1], i - 1, idx);
      assert LeafAdded(p, h, partial, trace[i - 1], i - 1, trace[i]);
    }
  }

  lemma NothingFound(p: Params, h: HashBytes, idx: seq<nat>)
    ensures SlotsFind(p, h, [], idx, 0)
  {
  }

  /** No leaf fails while there is a solution with the given truncations, and after the last one the
      top slot has a row for it. */
  lemma SolutionIsRecreated(p: Params, h: HashBytes, partial: seq<byte>, trace: seq<seq<Option<seq<Row>>>>,
                            idx: seq<nat>)
    requires Target(p, h, partial, idx) && Recreated(p, h, partial, trace)
    ensures |trace| <= |partial| ==> !LeafFails(p, h, partial, trace[|trace| - 1], |trace| - 1)
    ensures |trace| == |partial| + 1 ==>
      var X := trace[|partial|];
      |X| == p.k + 1 && X[p.k].Some? && Finds(p, h, X[p.k].value, idx, p.k)
  {
    hide LeafAdded, LeafFails, SlotsFind, Refines, WidthBytes, Finds, Params.CollisionBitLength;
    TraceFinds(p, h, partial, trace, idx, |trace| - 1);
    if |trace| <= |partial| {
      LeafKeepsSolution(p, h, partial, trace[|trace| - 1], |trace| - 1, idx);
    } else {
      SameLength(p, idx, partial);
      TopFinds(p, h, trace[|partial|], idx);
    }
  }

  lemma SameLength(p: Params, idx: seq<nat>, partial: seq<byte>)
    requires p.CollisionBitLength() >= 7 && Refines(p, idx, partial)
    ensures |idx| == |partial|
  {
  }

  lemma TopFinds(p: Params, h: HashBytes, X: seq<Option<seq<Row>>>, idx: seq<nat>)
    requires |idx| == Pow2(p.k) && SlotsFind(p, h, X, idx, Pow2(p.k))
    ensures |X| == p.k + 1 && X[p.k].Some? && Finds(p, h, X[p.k].value, idx, p.k)
  {
    hide Finds, Block, Bit, BitLength, Pow2, Shr, Shl;
    PowerBits(p.k);
    assert SlotFinds(p, h, X[p.k], idx, Pow2(p.k), p.k);
    Pow2Step(p.k);
    LowOfSmall(Pow2(p.k), p.k + 1);
    WholeBlock(idx, p.k);
  }

  /** Every solution that the verifier accepts is found from its truncated indices: the recreate loop
      ends with a row of exactly its indices, whose remaining hash is zero. */
  lemma AcceptedSolutionIsRecreated(p: Params, gen: nat -> seq<byte>, idx: seq<nat>, partial: seq<byte>,
                                    trace: seq<seq<Option<seq<Row>>>>)
    requires p.Valid() && GeneratorOk(p, gen) && Solution(p, gen, idx)
    requires p.CollisionBitLength() >= 7 && Refines(p, idx, partial)
    requires Recreated(p, Hashes(p, gen), partial, trace)
    ensures |trace| <= |partial| ==> !LeafFails(p, Hashes(p, gen), partial, trace[|trace| - 1], |trace| - 1)
    ensures |trace| == |partial| + 1 ==>
      var X := trace[|partial|];
      && |X| == p.k + 1 && X[p.k].Some?
      && exists row :: row in X[p.k].value && HashLen(p, p.k) <= |row| && HoldsIndices(row, HashLen(p, p.k), idx)
                       && forall t :: 0 <= t < HashLen(p, p.k) ==> row[t] == 0
  {
    hide LeafFails, Recreated, Refines, TreeOk, ChunkZero, Hashes, GeneratorOk, HoldsIndices, HashLen, FitsAccumulator,
      WidthBytes, Pow2, Params.Valid, Params.CollisionBitLength, Params.IndexLimit;
    var h := Hashes(p, gen);
    ValidWidths(p);
    SolutionIsRecreated(p, h, partial, trace, idx);
    if |trace| == |partial| + 1 {
      var row :| row in trace[|partial|][p.k].value && Stands(p, h, row, idx, p.k);
      StandsFor(p, h, row, idx, p.k);
      LastChunk(p, h, row, idx);
    }
  }
}
