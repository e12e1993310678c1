/** `CollideBranches`: the join of one solver step. It scans a sorted table for runs of rows
    with equal leading bytes and writes the merged rows back into the table it is still
    scanning. */
module EquihashCollide {
  import opened Numbers
  import opened Radix
  import opened BitPacking
  import opened IndexCodec
  import opened EquihashTree
  import opened EquihashRows

  /** The arguments of one call besides the table. */
  datatype Join = Join(hlen: nat, lenIndices: nat, clen: nat, ilen: nat, lt: byte, rt: byte, width: nat) {
    predicate Valid() {
      && clen <= hlen && lenIndices % 4 == 0 && lenIndices > 0 && 8 <= ilen <= 32
      && hlen + lenIndices <= width && hlen - clen + 2 * lenIndices <= width
    }
  }

  ghost predicate Rows(b: Join, X: seq<Row>) {
    forall i :: 0 <= i < |X| ==> |X[i]| == b.width
  }

  // --- Specification ---

  function TruncateIndex(i: nat, ilen: nat): (t: nat)
    requires ilen >= 8
  {
    Low(Shr(i, ilen - 8), 8)
  }

  function UntruncateIndex(t: nat, r: nat, ilen: nat): nat
    requires ilen >= 8
  {
    Or(Shl(t, ilen - 8), r)
  }

  /** The truncation is made of the eight highest of `ilen` bits. */
  lemma TruncateIs(i: nat, ilen: nat)
    requires ilen >= 8
    ensures TruncateIndex(i, ilen) == i / Pow2(ilen - 8) % 256
  {
    hide Shr, Low, Pow2;
    ShiftsAreDivision(i, ilen - 8);
    ShiftsAreDivision(Shr(i, ilen - 8), 8);
    PowersOf256();
  }

  /** The other bits go below it. */
  lemma UntruncateIs(t: nat, r: nat, ilen: nat)
    requires ilen >= 8 && r < Pow2(ilen - 8)
    ensures UntruncateIndex(t, r, ilen) == t * Pow2(ilen - 8) + r
  {
    hide Shl, Or, Pow2;
    OrDisjoint(t, ilen - 8, r);
    ShiftsAreDivision(t, ilen - 8);
  }

  predicate IsValidBranch(a: Row, len: nat, ilen: nat, t: nat)
    requires len + 4 <= |a| && ilen >= 8
  {
    TruncateIndex(ArrayToEhIndex(a[len..len + 4]), ilen) == t
  }

  /** The indices that a row's index bytes spell. */
  function RowIndices(bytes: seq<nat>): (idx: seq<nat>)
    ensures |idx| == |bytes| / 4
  {
    if |bytes| < 4 then [] else RowIndices(bytes[..|bytes| - 4]) + [ArrayToEhIndex(bytes[|bytes| - 4..])]
  }

  function IndicesOf(b: Join, row: Row): seq<nat>
    requires b.Valid() && |row| == b.width
  {
    RowIndices(row[b.hlen..b.hlen + b.lenIndices])
  }

  /** The rows that one pair contributes: none or one. */
  function Emit(b: Join, x: Row, y: Row): (rows: seq<Row>)
    requires b.Valid() && |x| == |y| == b.width
    ensures |rows| <= 1 && forall r :: r in rows ==> |r| == b.width
  {
    if !Disjoint(IndicesOf(b, x), IndicesOf(b, y)) then []
    else if IsValidBranch(x, b.hlen, b.ilen, b.lt) && IsValidBranch(y, b.hlen, b.ilen, b.rt) then
      [Merged(x, y, b.hlen, b.lenIndices, b.clen)]
    else if IsValidBranch(y, b.hlen, b.ilen, b.lt) && IsValidBranch(x, b.hlen, b.ilen, b.rt) then
      [Merged(y, x, b.hlen, b.lenIndices, b.clen)]
    else []
  }

  predicate Collides(b: Join, x: Row, y: Row)
    requires b.Valid() && |x| == |y| == b.width
  {
    x[..b.clen] == y[..b.clen]
  }

  /** What rows `p` and `q` of the table contribute. */
  function PairMerges(b: Join, X: seq<Row>, p: nat, q: nat): seq<Row>
    requires b.Valid() && Rows(b, X) && p < |X| && q < |X|
  {
    if Collides(b, X[p], X[q]) then Emit(b, X[p], X[q]) else []
  }

  /** Row `p` against the later rows before `n`. */
  function RowMerges(b: Join, X: seq<Row>, p: nat, n: nat): seq<Row>
    requires b.Valid() && Rows(b, X) && p < |X| && n <= |X|
  {
    if n <= p + 1 then [] else RowMerges(b, X, p, n - 1) + PairMerges(b, X, p, n - 1)
  }

  /** Rows `i .. k` against the later rows before `n`. */
  function RunMerges(b: Join, X: seq<Row>, i: nat, k: nat, n: nat): seq<Row>
    requires b.Valid() && Rows(b, X) && k <= n <= |X|
  {
    if k <= i then [] else RunMerges(b, X, i, k - 1, n) + RowMerges(b, X, k - 1, n)
  }

  /** The merges of all pairs of the table. */
  function AllMerges(b: Join, X: seq<Row>): seq<Row>
    requires b.Valid() && Rows(b, X)
  {
    RunMerges(b, X, 0, |X|, |X|)
  }

  /** `std::sort` with `CompareSR(hlen)`. */
  predicate SortedRows(X: seq<Row>, hlen: nat)
    requires forall i :: 0 <= i < |X| ==> hlen <= |X[i]|
  {
    forall i, j :: 0 <= i < j < |X| ==> !LexLess(X[j][..hlen], X[i][..hlen])
  }

  // --- Runs of colliding rows ---

  lemma {:induction false} LexTotal(a: seq<nat>, b: seq<nat>)
    requires |a| == |b| && !LexLess(a, b) && !LexLess(b, a)
    ensures a == b
  {
    if |a| > 0 {
      LexTotal(a[1..], b[1..]);
      assert a == [a[0]] + a[1..] && b == [b[0]] + b[1..];
    }
  }

  lemma LexPrefix(a: seq<nat>, b: seq<nat>, c: nat)
    requires |a| == |b| && c <= |a| && !LexLess(a, b)
    ensures !LexLess(a[..c], b[..c])
  {
    LexConcat(a[..c], b[..c], a[c..], b[c..]);
    assert a == a[..c] + a[c..] && b == b[..c] + b[c..];
  }

  /** In a sorted table, rows between two colliding rows collide with them. */
  lemma RunsAreContiguous(b: Join, X: seq<Row>, i: nat, m: nat, j: nat)
    requires b.Valid() && Rows(b, X) && SortedRows(X, b.hlen)
    requires i <= m <= j < |X| && Collides(b, X[i], X[j])
    ensures Collides(b, X[i], X[m])
  {
    if i < m < j {
      var h := b.hlen;
      LexPrefix(X[m][..h], X[i][..h], b.clen);
      LexPrefix(X[j][..h], X[m][..h], b.clen);
      assert X[i][..h][..b.clen] == X[i][..b.clen] && X[m][..h][..b.clen] == X[m][..b.clen]
          && X[j][..h][..b.clen] == X[j][..b.clen];
      LexTotal(X[i][..b.clen], X[m][..b.clen]);
    }
  }

  lemma CollidesTransitive(b: Join, x: Row, y: Row, z: Row)
    requires b.Valid() && |x| == |y| == |z| == b.width && Collides(b, x, y) && Collides(b, y, z)
    ensures Collides(b, x, z)
  {
  }

  lemma RowMergesStep(b: Join, X: seq<Row>, p: nat, n: nat)
    requires b.Valid() && Rows(b, X) && p + 1 < n <= |X|
    ensures RowMerges(b, X, p, n) == RowMerges(b, X, p, n - 1) + PairMerges(b, X, p, n - 1)
    ensures !Collides(b, X[p], X[n - 1]) ==> RowMerges(b, X, p, n) == RowMerges(b, X, p, n - 1)
  {
    hide Emit, Collides;
  }

  /** Rows of a run contribute nothing with rows behind the run. */
  lemma {:induction false} NothingBehindRun(b: Join, X: seq<Row>, i: nat, p: nat, e: nat, n: nat)
    requires b.Valid() && Rows(b, X) && SortedRows(X, b.hlen)
    requires i <= p < e <= n <= |X| && Collides(b, X[i], X[p])
    requires e < |X| ==> !Collides(b, X[i], X[e])
    ensures RowMerges(b, X, p, n) == RowMerges(b, X, p, e)
    decreases n
  {
    hide Emit, Collides, SortedRows, RowMerges;
    if e < n {
      NothingBehindRun(b, X, i, p, e, n - 1);
      if Collides(b, X[p], X[n - 1]) {
        RunsAreContiguous(b, X, p, e, n - 1);
        CollidesTransitive(b, X[i], X[p], X[e]);
        assert false;
      }
      RowMergesStep(b, X, p, n);
    }
  }

  lemma {:induction false} RunIsLocal(b: Join, X: seq<Row>, i: nat, k: nat, e: nat)
    requires b.Valid() && Rows(b, X) && SortedRows(X, b.hlen)
    requires i <= k <= e <= |X|
    requires forall p :: i <= p < e ==> Collides(b, X[i], X[p])
    requires e < |X| ==> !Collides(b, X[i], X[e])
    ensures RunMerges(b, X, i, k, |X|) == RunMerges(b, X, i, k, e)
    decreases k
  {
    hide Emit, Collides, RowMerges, SortedRows;
    if i < k {
      RunIsLocal(b, X, i, k - 1, e);
      NothingBehindRun(b, X, i, k - 1, e, |X|);
    }
  }

  lemma {:induction false} RunsConcat(b: Join, X: seq<Row>, i: nat, k: nat, n: nat)
    requires b.Valid() && Rows(b, X) && i <= k <= n <= |X|
    ensures RunMerges(b, X, 0, k, n) == RunMerges(b, X, 0, i, n) + RunMerges(b, X, i, k, n)
    decreases k
  {
    hide RowMerges;
    if i < k {
      RunsConcat(b, X, i, k - 1, n);
    }
  }

  /** Only the rows from `i` on matter. */
  lemma {:induction false} SameRowMerges(b: Join, X: seq<Row>, Y: seq<Row>, p: nat, n: nat)
    requires b.Valid() && Rows(b, X) && Rows(b, Y) && |X| == |Y| && p < |X| && n <= |X|
    requires forall q :: p <= q < |X| ==> X[q] == Y[q]
    ensures RowMerges(b, X, p, n) == RowMerges(b, Y, p, n)
    decreases n
  {
    hide Emit, Collides;
    if p + 1 < n { SameRowMerges(b, X, Y, p, n - 1); }
  }

  lemma {:induction false} SameRunMerges(b: Join, X: seq<Row>, Y: seq<Row>, i: nat, k: nat, n: nat)
    requires b.Valid() && Rows(b, X) && Rows(b, Y) && |X| == |Y| && k <= n <= |X|
    requires forall q :: i <= q < |X| ==> X[q] == Y[q]
    ensures RunMerges(b, X, i, k, n) == RunMerges(b, Y, i, k, n)
    decreases k
  {
    hide RowMerges;
    if i < k {
      SameRunMerges(b, X, Y, i, k - 1, n);
      SameRowMerges(b, X, Y, k - 1, n);
    }
  }

  // --- The loops ---

  /** 2b) The length of the run of colliding rows at `i`. */
  method FindRun(X: seq<Row>, i: nat, b: Join) returns (j: nat)
    requires b.Valid() && Rows(b, X) && i < |X|
    ensures 1 <= j <= |X| - i
    ensures forall p :: i <= p < i + j ==> Collides(b, X[i], X[p])
    ensures i + j < |X| ==> !Collides(b, X[i], X[i + j])
  {
    j := 1;
    while i + j < |X|
      invariant 1 <= j <= |X| - i
      invariant forall p :: i <= p < i + j ==> Collides(b, X[i], X[p])
    {
      var same := HasCollision(X[i], X[i + j], b.clen);
      if !same { return; }
      j := j + 1;
    }
  }

  lemma IndexBytesAppend(idx: seq<nat>, x: nat)
    ensures IndexBytes(idx + [x]) == IndexBytes(idx) + EhIndexToArray(x)
  {
    hide IndexBytes, EhIndexToArray;
    IndexBytesStep(idx + [x], |idx|);
    assert (idx + [x])[..|idx| + 1] == idx + [x] && (idx + [x])[..|idx|] == idx;
  }

  /** Any index bytes spell an index list. */
  lemma {:induction false} BytesAreIndices(bytes: seq<byte>)
    requires |bytes| % 4 == 0
    ensures Below(RowIndices(bytes), 32) && IndexBytes(RowIndices(bytes)) == bytes
  {
    hide EhIndexToArray, ArrayToEhIndex, IndexBytes, Pow2, RowIndices;
    if |bytes| >= 4 {
      var front, last := bytes[..|bytes| - 4], bytes[|bytes| - 4..];
      BytesAreIndices(front);
      FourBytes(last);
      IndexBytesAppend(RowIndices(front), ArrayToEhIndex(last));
      RowIndicesStep(bytes);
      BelowAppend(RowIndices(front), ArrayToEhIndex(last));
      assert bytes == front + last;
    } else {
      NoIndexBytes(RowIndices(bytes));
    }
  }

  lemma RowIndicesStep(bytes: seq<byte>)
    requires |bytes| >= 4
    ensures RowIndices(bytes) == RowIndices(bytes[..|bytes| - 4]) + [ArrayToEhIndex(bytes[|bytes| - 4..])]
  {
    hide ArrayToEhIndex;
  }

  lemma BelowAppend(idx: seq<nat>, x: nat)
    requires Below(idx, 32) && x < Pow2(32)
    ensures Below(idx + [x], 32)
  {
    hide Pow2;
  }

  lemma FourBytes(bytes: seq<byte>)
    requires |bytes| == 4
    ensures ArrayToEhIndex(bytes) < Pow2(32) && EhIndexToArray(ArrayToEhIndex(bytes)) == bytes
  {
    hide Val, Digits;
    BytesBelow(bytes);
    ValBound(bytes, 8);
    WidthIsProduct(8, 4);
    DigitsVal(bytes, 8);
  }

  lemma RowHoldsIndices(b: Join, row: Row)
    requires b.Valid() && |row| == b.width
    ensures HoldsIndices(row, b.hlen, IndicesOf(b, row)) && 4 * |IndicesOf(b, row)| == b.lenIndices
  {
    hide IndexBytes, RowIndices, Below;
    BytesAreIndices(row[b.hlen..b.hlen + b.lenIndices]);
  }

  /** One pair, as the loop body treats it. */
  method EmitPair(b: Join, x: Row, y: Row, Xc: seq<Row>) returns (out: seq<Row>)
    requires b.Valid() && |x| == |y| == b.width
    ensures out == Xc + Emit(b, x, y)
  {
    hide HoldsIndices, Disjoint, RowIndices, Merged, IsValidBranch, IndicesOf;
    RowHoldsIndices(b, x);
    RowHoldsIndices(b, y);
    out := Xc;
    var distinct := DistinctIndices(x, y, b.hlen, b.lenIndices, IndicesOf(b, x), IndicesOf(b, y));
    if distinct {
      if IsValidBranch(x, b.hlen, b.ilen, b.lt) && IsValidBranch(y, b.hlen, b.ilen, b.rt) {
        var row := MergeRows(x, y, b.hlen, b.lenIndices, b.clen);
        out := Xc + [row];
      } else if IsValidBranch(y, b.hlen, b.ilen, b.lt) && IsValidBranch(x, b.hlen, b.ilen, b.rt) {
        var row := MergeRows(y, x, b.hlen, b.lenIndices, b.clen);
        out := Xc + [row];
      }
    }
  }

  /** 2c) The merges inside the run of `j` rows at `i`, appended to the pending rows. */
  method CollectRun(X: seq<Row>, i: nat, j: nat, b: Join, Xc: seq<Row>) returns (out: seq<Row>)
    requires b.Valid() && Rows(b, X) && j >= 1 && i + j <= |X|
    requires forall p :: i <= p < i + j ==> Collides(b, X[i], X[p])
    ensures out == Xc + RunMerges(b, X, i, i + j, i + j)
  {
    hide Emit, Collides, PairMerges, RowMerges, RunMerges;
    out := Xc;
    NoMerges(b, X, i, i + j);
    for l := 0 to j - 1
      invariant out == Xc + RunMerges(b, X, i, i + l, i + j)
    {
      ghost var before := out;
      NoRowMerges(b, X, i + l);
      for m := l + 1 to j
        invariant out == before + RowMerges(b, X, i + l, i + m)
      {
        PairInRun(b, X, i, i + l, i + m);
        RowMergesStep(b, X, i + l, i + m + 1);
        ghost var sofar := RowMerges(b, X, i + l, i + m);
        out := EmitPair(b, X[i + l], X[i + m], out);
        assert out == before + (sofar + Emit(b, X[i + l], X[i + m]));
      }
      RunMergesStep(b, X, i, i + l, i + j);
      assert Xc + RunMerges(b, X, i, i + l, i + j) + RowMerges(b, X, i + l, i + j)
          == Xc + (RunMerges(b, X, i, i + l, i + j) + RowMerges(b, X, i + l, i + j));
    }
    NoRowMerges(b, X, i + j - 1);
    RunMergesStep(b, X, i, i + j - 1, i + j);
  }

  lemma NoMerges(b: Join, X: seq<Row>, i: nat, n: nat)
    requires b.Valid() && Rows(b, X) && i <= n <= |X|
    ensures RunMerges(b, X, i, i, n) == []
  {
  }

  /** The last row before the end has no partner. */
  lemma NoRowMerges(b: Join, X: seq<Row>, p: nat)
    requires b.Valid() && Rows(b, X) && p < |X|
    ensures RowMerges(b, X, p, p + 1) == []
  {
  }

  lemma RunMergesStep(b: Join, X: seq<Row>, i: nat, k: nat, n: nat)
    requires b.Valid() && Rows(b, X) && i <= k < n <= |X|
    ensures RunMerges(b, X, i, k + 1, n) == RunMerges(b, X, i, k, n) + RowMerges(b, X, k, n)
  {
  }

  lemma PairInRun(b: Join, X: seq<Row>, i: nat, p: nat, q: nat)
    requires b.Valid() && Rows(b, X) && i < |X| && p < |X| && q < |X|
    requires Collides(b, X[i], X[p]) && Collides(b, X[i], X[q])
    ensures PairMerges(b, X, p, q) == Emit(b, X[p], X[q])
  {
    hide Emit;
  }

  /** 2d), 2e) Move pending rows, last one first, to the free front of the table. */
  method StoreFront(X0: seq<Row>, posFree0: nat, limit: nat, Xc0: seq<Row>)
    returns (X: seq<Row>, posFree: nat, Xc: seq<Row>)
    requires posFree0 <= limit <= |X0|
    ensures |X| == |X0| && posFree0 <= posFree <= limit && X[posFree..] == X0[posFree..]
    ensures multiset(X[..posFree]) + multiset(Xc) == multiset(X0[..posFree0]) + multiset(Xc0)
    ensures posFree == limit || Xc == []
  {
    X, posFree, Xc := X0, posFree0, Xc0;
    while posFree < limit && |Xc| > 0
      invariant |X| == |X0| && posFree0 <= posFree <= limit && X[posFree..] == X0[posFree..]
      invariant multiset(X[..posFree]) + multiset(Xc) == multiset(X0[..posFree0]) + multiset(Xc0)
    {
      var last := Xc[|Xc| - 1];
      assert Xc == Xc[..|Xc| - 1] + [last];
      ghost var front := X[..posFree];
      X := X[posFree := last];
      assert X[..posFree + 1] == front + [last];
      posFree := posFree + 1;
      Xc := Xc[..|Xc| - 1];
    }
  }

  lemma {:induction false} MergesAreRows(b: Join, X: seq<Row>, i: nat, k: nat, n: nat)
    requires b.Valid() && Rows(b, X) && k <= n <= |X|
    ensures Rows(b, RunMerges(b, X, i, k, n))
    decreases k
  {
    hide RowMerges;
    if i < k {
      MergesAreRows(b, X, i, k - 1, n);
      RowMergesAreRows(b, X, k - 1, n);
    }
  }

  lemma {:induction false} RowMergesAreRows(b: Join, X: seq<Row>, p: nat, n: nat)
    requires b.Valid() && Rows(b, X) && p < |X| && n <= |X|
    ensures Rows(b, RowMerges(b, X, p, n))
    decreases n
  {
    hide Emit, Collides;
    if p + 1 < n {
      RowMergesAreRows(b, X, p, n - 1);
      EmitRows(b, X[p], X[n - 1]);
    }
  }

  lemma EmitRows(b: Join, x: Row, y: Row)
    requires b.Valid() && |x| == |y| == b.width
    ensures Rows(b, Emit(b, x, y))
  {
    hide Emit;
    forall i | 0 <= i < |Emit(b, x, y)| ensures |Emit(b, x, y)[i]| == b.width {
      assert Emit(b, x, y)[i] in Emit(b, x, y);
    }
  }

  /** The state of the scan at `i`: unread rows are untouched, and the rows written back plus
      the pending ones are the merges of the rows read. */
  ghost predicate Scanning(b: Join, X0: seq<Row>, X: seq<Row>, i: nat, posFree: nat, Xc: seq<Row>)
    requires b.Valid() && Rows(b, X0)
  {
    && |X| == |X0| && posFree <= i <= |X0|
    && X[i..] == X0[i..]
    && multiset(X[..posFree]) + multiset(Xc) == multiset(RunMerges(b, X0, 0, i, |X0|))
  }

  /** One run read and stored. */
  lemma ScanStep(b: Join, X0: seq<Row>, X: seq<Row>, i: nat, posFree: nat, Xc: seq<Row>, j: nat, Xc1: seq<Row>,
                 X2: seq<Row>, posFree2: nat, Xc2: seq<Row>)
    requires b.Valid() && Rows(b, X0) && Rows(b, X) && SortedRows(X0, b.hlen)
    requires Scanning(b, X0, X, i, posFree, Xc) && i + j <= |X|
    requires forall p :: i <= p < i + j ==> Collides(b, X[i], X[p])
    requires j >= 1 && (i + j < |X| ==> !Collides(b, X[i], X[i + j]))
    requires Xc1 == Xc + RunMerges(b, X, i, i + j, i + j)
    requires |X2| == |X| && posFree2 <= i + j && X2[posFree2..] == X[posFree2..]
    requires multiset(X2[..posFree2]) + multiset(Xc2) == multiset(X[..posFree]) + multiset(Xc1)
    ensures Scanning(b, X0, X2, i + j, posFree2, Xc2)
  {
    hide Collides, RunMerges, SortedRows, Emit, Rows;
    UnreadRows(X0, X, X2, i, i + j, posFree2);
    NextRun(b, X0, X, i, i + j);
    var done, next := RunMerges(b, X0, 0, i, |X0|), RunMerges(b, X0, i, i + j, |X0|);
    Together(X[..posFree], Xc, Xc1, done, next);
  }

  lemma UnreadRows(X0: seq<Row>, X: seq<Row>, X2: seq<Row>, i: nat, e: nat, posFree: nat)
    requires |X| == |X0| == |X2| && i <= e <= |X| && posFree <= e
    requires X[i..] == X0[i..] && X2[posFree..] == X[posFree..]
    ensures X2[e..] == X0[e..]
  {
    assert X2[e..] == X2[posFree..][e - posFree..];
    assert X[e..] == X[posFree..][e - posFree..];
    assert X[e..] == X[i..][e - i..];
    assert X0[e..] == X0[i..][e - i..];
  }

  /** The merges of the run at `i` are the next ones of the whole table. */
  lemma NextRun(b: Join, X0: seq<Row>, X: seq<Row>, i: nat, e: nat)
    requires b.Valid() && Rows(b, X0) && Rows(b, X) && SortedRows(X0, b.hlen)
    requires |X| == |X0| && i < e <= |X| && X[i..] == X0[i..]
    requires forall p :: i <= p < e ==> Collides(b, X[i], X[p])
    requires e < |X| ==> !Collides(b, X[i], X[e])
    ensures RunMerges(b, X0, 0, e, |X0|) == RunMerges(b, X0, 0, i, |X0|) + RunMerges(b, X0, i, e, |X0|)
    ensures RunMerges(b, X, i, e, e) == RunMerges(b, X0, i, e, |X0|)
  {
    hide Collides, RunMerges, SortedRows, Emit;
    forall q | i <= q < |X| ensures X[q] == X0[q] {
      assert X[i..][q - i] == X0[i..][q - i];
    }
    SameRunMerges(b, X, X0, i, e, e);
    RunIsLocal(b, X0, i, e, e);
    RunsConcat(b, X0, i, e, |X0|);
  }

  lemma Together(stored: seq<Row>, Xc: seq<Row>, Xc1: seq<Row>, done: seq<Row>, next: seq<Row>)
    requires Xc1 == Xc + next && multiset(stored) + multiset(Xc) == multiset(done)
    ensures multiset(stored) + multiset(Xc1) == multiset(done + next)
  {
    assert multiset(Xc1) == multiset(Xc) + multiset(next);
    assert multiset(done + next) == multiset(done) + multiset(next);
  }

  lemma StartScan(b: Join, X: seq<Row>)
    requires b.Valid() && Rows(b, X)
    ensures Scanning(b, X, X, 0, 0, [])
  {
    NoMerges(b, X, 0, |X|);
    assert X[..0] == [];
  }

  /** At the end every pair was met, also when the last row was not scanned on its own. */
  lemma EndScan(b: Join, X0: seq<Row>, X: seq<Row>, i: nat, posFree: nat, Xc: seq<Row>)
    requires b.Valid() && Rows(b, X0) && 0 < |X0| <= i + 1
    requires Scanning(b, X0, X, i, posFree, Xc)
    ensures multiset(X[..posFree]) + multiset(Xc) == multiset(AllMerges(b, X0))
  {
    hide RunMerges;
    if i < |X0| {
      NoRowMerges(b, X0, i);
      RunMergesStep(b, X0, 0, i, |X0|);
    }
  }

  /** `CollideBranches` on a sorted table leaves exactly the merges of all its colliding,
      index-distinct, branch-valid pairs. */
  method CollideBranches(X0: seq<Row>, b: Join) returns (X: seq<Row>)
    requires b.Valid() && Rows(b, X0) && SortedRows(X0, b.hlen) && |X0| > 0
    ensures multiset(X) == multiset(AllMerges(b, X0))
    ensures Rows(b, X)
  {
    hide Collides, RunMerges, SortedRows, Emit, AllMerges;
    X := X0;
    var i: nat, posFree: nat := 0, 0;
    var Xc: seq<Row> := [];
    StartScan(b, X0);
    while i < |X| - 1
      invariant Scanning(b, X0, X, i, posFree, Xc)
      invariant Rows(b, X)
    {
      var j := FindRun(X, i, b);
      var Xc1 := CollectRun(X, i, j, b, Xc);
      var X2, posFree2, Xc2 := StoreFront(X, posFree, i + j, Xc1);
      ScanStep(b, X0, X, i, posFree, Xc, j, Xc1, X2, posFree2, Xc2);
      StoredAreRows(b, X0, X, X2, i + j, posFree2, Xc2);
      X, posFree, Xc := X2, posFree2, Xc2;
      i := i + j;
    }
    EndScan(b, X0, X, i, posFree, Xc);
    X, posFree, Xc := StoreFront(X, posFree, |X|, Xc);
    if |Xc| > 0 {
      assert X[..posFree] == X;
      X := X + Xc;
    } else if posFree < |X| {
      X := X[..posFree];
    } else {
      assert X[..posFree] == X;
    }
    AllMergesAreRows(b, X0, X);
  }

  lemma StoredAreRows(b: Join, X0: seq<Row>, before: seq<Row>, X: seq<Row>, i: nat, posFree: nat, Xc: seq<Row>)
    requires b.Valid() && Rows(b, X0) && Scanning(b, X0, X, i, posFree, Xc)
    requires Rows(b, before) && |before| == |X| && X[posFree..] == before[posFree..]
    ensures Rows(b, X)
  {
    hide RunMerges;
    var merges := RunMerges(b, X0, 0, i, |X0|);
    MergesAreRows(b, X0, 0, i, |X0|);
    SameMembers(b, merges, X[..posFree]);
    forall q | 0 <= q < |X| ensures |X[q]| == b.width {
      if q < posFree {
        assert X[q] == X[..posFree][q];
      } else {
        assert X[q] == X[posFree..][q - posFree] == before[q];
      }
    }
  }

  lemma SameMembers(b: Join, s: seq<Row>, t: seq<Row>)
    requires Rows(b, s) && multiset(t) <= multiset(s)
    ensures Rows(b, t)
  {
    forall q | 0 <= q < |t| ensures |t[q]| == b.width {
      assert t[q] in multiset(t);
      assert t[q] in s;
    }
  }

  lemma AllMergesAreRows(b: Join, X0: seq<Row>, X: seq<Row>)
    requires b.Valid() && Rows(b, X0) && multiset(X) == multiset(AllMerges(b, X0))
    ensures Rows(b, X)
  {
    MergesAreRows(b, X0, 0, |X0|, |X0|);
    SameMembers(b, AllMerges(b, X0), X);
  }

  // --- What the merges are ---

  /** A row is produced exactly when some colliding pair emits it. */
  lemma {:induction false} MergesMembers(b: Join, X: seq<Row>, k: nat, row: Row)
    requires b.Valid() && Rows(b, X) && k <= |X|
    ensures row in RunMerges(b, X, 0, k, |X|) <==>
              exists p, q :: 0 <= p < k && p < q < |X| && Collides(b, X[p], X[q]) && row in Emit(b, X[p], X[q])
    decreases k
  {
    hide Emit, Collides, RowMerges;
    if k > 0 {
      MergesMembers(b, X, k - 1, row);
      RowMergesMembers(b, X, k - 1, |X|, row);
    }
  }

  lemma {:induction false} RowMergesMembers(b: Join, X: seq<Row>, p: nat, n: nat, row: Row)
    requires b.Valid() && Rows(b, X) && p < |X| && n <= |X|
    ensures row in RowMerges(b, X, p, n) <==>
              exists q :: p < q < n && Collides(b, X[p], X[q]) && row in Emit(b, X[p], X[q])
    decreases n
  {
    hide Emit, Collides;
    if p + 1 < n { RowMergesMembers(b, X, p, n - 1, row); }
  }
}
