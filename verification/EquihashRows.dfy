/** Table rows: `len` bytes of hash, then `lenIndices` bytes of big-endian indices, then
    stale bytes up to the fixed width. The row operations are loops over bytes; here they
    are proved to compute what they mean on index lists. */
module EquihashRows {
  import opened Numbers
  import opened Radix
  import opened BitPacking
  import opened IndexCodec
  import opened EquihashTree

  type Row = seq<byte>

  // --- memcmp on big-endian indices is comparison of indices ---

  lemma {:induction false} LexConcat(p: seq<nat>, q: seq<nat>, s: seq<nat>, t: seq<nat>)
    requires |p| == |q| && |s| == |t|
    ensures LexLess(p + s, q + t) <==> LexLess(p, q) || (p == q && LexLess(s, t))
  {
    if |p| == 0 {
      assert p + s == s && q + t == t;
    } else {
      assert (p + s)[1..] == p[1..] + s && (q + t)[1..] == q[1..] + t;
      LexConcat(p[1..], q[1..], s, t);
      assert p == [p[0]] + p[1..] && q == [q[0]] + q[1..];
    }
  }

  lemma HighPartDecides(h: nat, l: nat, h': nat, l': nat)
    requires l < Pow2(8) && l' < Pow2(8)
    ensures Shl(h, 8) + l < Shl(h', 8) + l' <==> h < h' || (h == h' && l < l')
  {
    hide Pow2, Shl;
    Pow2IsShl(8);
    if h < h' {
      ShlMono(h + 1, h', 8);
      ShlAdd(h, 1, 8);
    } else if h' < h {
      ShlMono(h' + 1, h, 8);
      ShlAdd(h', 1, 8);
    }
  }

  lemma {:induction false} LexDigits(x: nat, y: nat, n: nat)
    requires x < Pow2(Width(8, n)) && y < Pow2(Width(8, n))
    ensures LexLess(Digits(x, 8, n), Digits(y, 8, n)) <==> x < y
    decreases n
  {
    hide Shr, Low, Shl, Pow2;
    if n > 0 {
      var h, l, h', l' := Shr(x, 8), Low(x, 8), Shr(y, 8), Low(y, 8);
      ShrBelow(x, Width(8, n - 1), 8);
      ShrBelow(y, Width(8, n - 1), 8);
      LexDigits(h, h', n - 1);
      LexConcat(Digits(h, 8, n - 1), Digits(h', 8, n - 1), [l], [l']);
      if Digits(h, 8, n - 1) == Digits(h', 8, n - 1) { DigitsInjective(h, h', 8, n - 1); }
      Split(x, 8);
      Split(y, 8);
      HighPartDecides(h, l, h', l');
    } else {
      NoBits();
    }
  }

  lemma {:induction false} IndexBytesFront(idx: seq<nat>)
    requires |idx| > 0
    ensures IndexBytes(idx) == EhIndexToArray(idx[0]) + IndexBytes(idx[1..])
  {
    hide EhIndexToArray, IndexBytes;
    var n := |idx| - 1;
    IndexBytesStep(idx, n);
    assert idx[..n + 1] == idx;
    if n > 0 {
      IndexBytesFront(idx[..n]);
      IndexBytesStep(idx[1..], n - 1);
      assert idx[..n][1..] == idx[1..][..n - 1];
      assert idx[1..][..n] == idx[1..];
    } else {
      NoIndexBytes(idx[..0]);
      NoIndexBytes(idx[1..]);
    }
  }

  /** Comparing index bytes compares the index lists. */
  lemma {:induction false} LexIndexBytes(a: seq<nat>, b: seq<nat>)
    requires |a| == |b| && Below(a, 32) && Below(b, 32)
    ensures LexLess(IndexBytes(a), IndexBytes(b)) <==> LexLess(a, b)
  {
    hide IndexBytes, Digits, Pow2;
    if |a| > 0 {
      LexIndexBytes(a[1..], b[1..]);
      IndexBytesFront(a);
      IndexBytesFront(b);
      LexConcat(EhIndexToArray(a[0]), EhIndexToArray(b[0]), IndexBytes(a[1..]), IndexBytes(b[1..]));
      WidthIsProduct(8, 4);
      LexDigits(a[0], b[0], 4);
      if EhIndexToArray(a[0]) == EhIndexToArray(b[0]) { DigitsInjective(a[0], b[0], 8, 4); }
    } else {
      NoIndexBytes(a);
      NoIndexBytes(b);
    }
  }

  lemma EmptyPrefix(z: seq<nat>, x: seq<nat>)
    requires |z| == 0
    ensures z + x == x
  {
  }

  /** Bytes of index `k` of a list. */
  lemma IndexBytesAt(idx: seq<nat>, k: nat)
    requires k < |idx|
    ensures IndexBytes(idx)[4 * k..4 * k + 4] == EhIndexToArray(idx[k])
  {
    hide Serialize, Digits;
    SerializeAt(idx, 0, 4, k);
    EmptyPrefix(Zeros(0), EhIndexToArray(idx[k]));
  }

  // --- The row operations ---

  method HasCollision(a: Row, b: Row, l: nat) returns (r: bool)
    requires l <= |a| && l <= |b|
    ensures r <==> a[..l] == b[..l]
  {
    for j := 0 to l
      invariant a[..j] == b[..j]
    {
      if a[j] != b[j] {
        assert a[..l][j] != b[..l][j];
        return false;
      }
    }
    return true;
  }

  method IsZero(row: Row, len: nat) returns (r: bool)
    requires len <= |row|
    ensures r <==> forall t :: 0 <= t < len ==> row[t] == 0
  {
    for i := 0 to len
      invariant forall t :: 0 <= t < i ==> row[t] == 0
    {
      if row[i] != 0 { return false; }
    }
    return true;
  }

  /** `a` comes before `b` in memory order of their index bytes. */
  predicate IndicesBefore(a: Row, b: Row, len: nat, lenIndices: nat)
    requires len + lenIndices <= |a| && len + lenIndices <= |b|
  {
    LexLess(a[len..len + lenIndices], b[len..len + lenIndices])
  }

  /** The row holds the index list `idx` behind `len` bytes of hash. */
  ghost predicate HoldsIndices(row: Row, len: nat, idx: seq<nat>) {
    && Below(idx, 32)
    && len + 4 * |idx| <= |row|
    && row[len..len + 4 * |idx|] == IndexBytes(idx)
  }

  lemma IndexInRow(row: Row, len: nat, idx: seq<nat>, k: nat)
    requires HoldsIndices(row, len, idx) && k < |idx|
    ensures row[len + 4 * k..len + 4 * k + 4] == EhIndexToArray(idx[k])
  {
    hide EhIndexToArray, IndexBytes;
    IndexBytesAt(idx, k);
    SliceOfSlice(row, len, len + 4 * |idx|, 4 * k, 4 * k + 4);
  }

  lemma SliceOfSlice(s: seq<nat>, a: nat, b: nat, i: nat, j: nat)
    requires a <= b <= |s| && i <= j <= b - a
    ensures s[a..b][i..j] == s[a + i..a + j]
  {
    var l, r := s[a..b][i..j], s[a + i..a + j];
    assert |l| == |r|;
    forall k | 0 <= k < |l| ensures l[k] == r[k] {
      assert l[k] == s[a..b][i + k] == s[a + i + k];
    }
  }

  /** `memcmp` of two indices in rows. */
  lemma SameIndexBytes(a: Row, b: Row, len: nat, ia: seq<nat>, ib: seq<nat>, i: nat, j: nat)
    requires HoldsIndices(a, len, ia) && HoldsIndices(b, len, ib) && i < |ia| && j < |ib|
    ensures a[len + 4 * i..len + 4 * i + 4] == b[len + 4 * j..len + 4 * j + 4] <==> ia[i] == ib[j]
  {
    hide EhIndexToArray, HoldsIndices;
    IndexInRow(a, len, ia, i);
    IndexInRow(b, len, ib, j);
    if EhIndexToArray(ia[i]) == EhIndexToArray(ib[j]) {
      InRange(a, len, ia, i);
      InRange(b, len, ib, j);
      IndexRoundTrip(ia[i]);
      IndexRoundTrip(ib[j]);
    }
  }

  lemma InRange(row: Row, len: nat, idx: seq<nat>, k: nat)
    requires HoldsIndices(row, len, idx) && k < |idx|
    ensures idx[k] < Pow2(32)
  {
  }

  method DistinctIndices(a: Row, b: Row, len: nat, lenIndices: nat, ghost ia: seq<nat>, ghost ib: seq<nat>)
    returns (r: bool)
    requires lenIndices == 4 * |ia| == 4 * |ib|
    requires HoldsIndices(a, len, ia) && HoldsIndices(b, len, ib)
    ensures r <==> Disjoint(ia, ib)
  {
    hide HoldsIndices, Disjoint;
    var i := 0;
    while i < lenIndices
      invariant 0 <= i <= lenIndices && i % 4 == 0
      invariant forall p, q :: 0 <= p < i / 4 && 0 <= q < |ib| ==> ia[p] != ib[q]
    {
      var j := 0;
      while j < lenIndices
        invariant 0 <= j <= lenIndices && j % 4 == 0
        invariant forall q :: 0 <= q < j / 4 ==> ia[i / 4] != ib[q]
      {
        SameIndexBytes(a, b, len, ia, ib, i / 4, j / 4);
        RowRoom(a, len, ia);
        RowRoom(b, len, ib);
        if a[len + i..len + i + 4] == b[len + j..len + j + 4] {
          NotDisjoint(ia, ib, i / 4, j / 4);
          return false;
        }
        j := j + 4;
      }
      i := i + 4;
    }
    IsDisjoint(ia, ib);
    return true;
  }

  lemma RowRoom(row: Row, len: nat, idx: seq<nat>)
    requires HoldsIndices(row, len, idx)
    ensures len + 4 * |idx| <= |row|
  {
  }

  lemma NotDisjoint(a: seq<nat>, b: seq<nat>, i: nat, j: nat)
    requires i < |a| && j < |b| && a[i] == b[j]
    ensures !Disjoint(a, b)
  {
  }

  lemma IsDisjoint(a: seq<nat>, b: seq<nat>)
    requires forall i, j :: 0 <= i < |a| && 0 <= j < |b| ==> a[i] != b[j]
    ensures Disjoint(a, b)
  {
  }

  function XorByte(a: byte, b: byte): (r: byte)
    ensures r == Xor(a, b)
  {
    assert Pow2(8) == 256;
    XorBelow(a, b, 8);
    Xor(a, b)
  }

  function XorBytes(a: Row, b: Row): (r: Row)
    requires |a| == |b|
    ensures |r| == |a| && forall k :: 0 <= k < |a| ==> r[k] == XorByte(a[k], b[k])
  {
    if |a| == 0 then [] else [XorByte(a[0], b[0])] + XorBytes(a[1..], b[1..])
  }

  /** The index bytes of two rows, the smaller ones first. */
  function JoinIndices(ia: Row, ib: Row): (r: Row)
    requires |ia| == |ib|
    ensures |r| == 2 * |ia|
  {
    if LexLess(ia, ib) then ia + ib else ib + ia
  }

  /** The row that merging two rows leaves: XOR of the hashes without their first `trim`
      bytes, both index lists, and the rest of `a`. */
  function Merged(a: Row, b: Row, len: nat, lenIndices: nat, trim: nat): (row: Row)
    requires trim <= len && |a| == |b| && len + lenIndices <= |a| && len - trim + 2 * lenIndices <= |a|
    ensures |row| == |a|
  {
    XorBytes(a[trim..len], b[trim..len])
    + JoinIndices(a[len..len + lenIndices], b[len..len + lenIndices])
    + a[len - trim + 2 * lenIndices..]
  }

  lemma MergedAt(a: Row, b: Row, len: nat, n: nat, trim: nat, k: nat)
    requires trim <= len && |a| == |b| && len + n <= |a| && len - trim + 2 * n <= |a| && k < |a|
    ensures k < len - trim ==> Merged(a, b, len, n, trim)[k] == XorByte(a[trim + k], b[trim + k])
    ensures len - trim <= k < len - trim + n ==>
              Merged(a, b, len, n, trim)[k] == (if IndicesBefore(a, b, len, n) then a else b)[k + trim]
    ensures len - trim + n <= k < len - trim + 2 * n ==>
              Merged(a, b, len, n, trim)[k] == (if IndicesBefore(a, b, len, n) then b else a)[k + trim - n]
    ensures len - trim + 2 * n <= k ==> Merged(a, b, len, n, trim)[k] == a[k]
  {
    hide *;
    if k < len - trim {
      MergedHashAt(a, b, len, n, trim, k);
    } else if k < len - trim + 2 * n {
      MergedIndexAt(a, b, len, n, trim, k);
    } else {
      MergedTailAt(a, b, len, n, trim, k);
    }
  }

  lemma MergedHashAt(a: Row, b: Row, len: nat, n: nat, trim: nat, k: nat)
    requires trim <= len && |a| == |b| && len + n <= |a| && len - trim + 2 * n <= |a| && k < len - trim
    ensures Merged(a, b, len, n, trim)[k] == XorByte(a[trim + k], b[trim + k])
  {
    hide XorByte, XorBytes, JoinIndices;
    var x := XorBytes(a[trim..len], b[trim..len]);
    InThree(x, JoinIndices(a[len..len + n], b[len..len + n]), a[len - trim + 2 * n..], k);
    assert x[k] == XorByte(a[trim..len][k], b[trim..len][k]);
  }

  lemma MergedIndexAt(a: Row, b: Row, len: nat, n: nat, trim: nat, k: nat)
    requires trim <= len && |a| == |b| && len + n <= |a| && len - trim + 2 * n <= |a|
    requires len - trim <= k < len - trim + 2 * n
    ensures Merged(a, b, len, n, trim)[k]
         == if k < len - trim + n then (if IndicesBefore(a, b, len, n) then a else b)[k + trim]
            else (if IndicesBefore(a, b, len, n) then b else a)[k + trim - n]
  {
    hide XorBytes, JoinIndices, LexLess;
    var ia, ib, at := a[len..len + n], b[len..len + n], k - (len - trim);
    InThree(XorBytes(a[trim..len], b[trim..len]), JoinIndices(ia, ib), a[len - trim + 2 * n..], k);
    var first, second := if LexLess(ia, ib) then a else b, if LexLess(ia, ib) then b else a;
    JoinedAt(ia, ib, first[len..len + n], second[len..len + n], at);
    if at < n {
      InSlice(first, len, len + n, at);
    } else {
      InSlice(second, len, len + n, at - n);
    }
  }

  lemma JoinedAt(ia: Row, ib: Row, first: Row, second: Row, at: nat)
    requires |ia| == |ib| && at < 2 * |ia|
    requires first == (if LexLess(ia, ib) then ia else ib) && second == (if LexLess(ia, ib) then ib else ia)
    ensures JoinIndices(ia, ib)[at] == if at < |ia| then first[at] else second[at - |ia|]
  {
    hide JoinIndices, LexLess;
    JoinIs(ia, ib);
    InTwo(first, second, at);
  }

  lemma InSlice(s: Row, lo: nat, hi: nat, k: nat)
    requires lo + k < hi <= |s|
    ensures s[lo..hi][k] == s[lo + k]
  {
  }

  lemma MergedTailAt(a: Row, b: Row, len: nat, n: nat, trim: nat, k: nat)
    requires trim <= len && |a| == |b| && len + n <= |a| && len - trim + 2 * n <= k < |a|
    ensures Merged(a, b, len, n, trim)[k] == a[k]
  {
    hide XorBytes, JoinIndices;
    InThree(XorBytes(a[trim..len], b[trim..len]), JoinIndices(a[len..len + n], b[len..len + n]),
            a[len - trim + 2 * n..], k);
  }

  lemma InThree(x: Row, j: Row, r: Row, k: nat)
    requires k < |x| + |j| + |r|
    ensures (x + j + r)[k] == if k < |x| then x[k] else if k < |x| + |j| then j[k - |x|] else r[k - |x| - |j|]
  {
  }

  lemma InTwo(x: Row, y: Row, k: nat)
    requires k < |x| + |y|
    ensures (x + y)[k] == if k < |x| then x[k] else y[k - |x|]
  {
  }

  lemma JoinIs(ia: Row, ib: Row)
    requires |ia| == |ib|
    ensures JoinIndices(ia, ib) == if LexLess(ia, ib) then ia + ib else ib + ia
  {
  }

  /** The merged row byte by byte: `first` and `second` are the rows in index order. */
  ghost predicate IsMerged(row: Row, a: Row, b: Row, first: Row, second: Row, len: nat, n: nat, trim: nat)
    requires trim <= len && |row| == |a| == |b| == |first| == |second| && len + n <= |a| && len - trim + 2 * n <= |a|
  {
    var o := len - trim;
    && (forall k :: 0 <= k < o ==> row[k] == XorByte(a[trim + k], b[trim + k]))
    && (forall k :: o <= k < o + n ==> row[k] == first[k + trim])
    && (forall k :: o + n <= k < o + 2 * n ==> row[k] == second[k + trim - n])
    && (forall k :: o + 2 * n <= k < |a| ==> row[k] == a[k])
  }

  lemma MergedIs(a: Row, b: Row, first: Row, second: Row, len: nat, n: nat, trim: nat)
    requires trim <= len && |a| == |b| && len + n <= |a| && len - trim + 2 * n <= |a|
    requires if IndicesBefore(a, b, len, n) then first == a && second == b else first == b && second == a
    ensures IsMerged(Merged(a, b, len, n, trim), a, b, first, second, len, n, trim)
  {
    hide XorByte, Merged, IndicesBefore;
    forall k | 0 <= k < |a|
      ensures k < len - trim ==> Merged(a, b, len, n, trim)[k] == XorByte(a[trim + k], b[trim + k])
      ensures len - trim <= k < len - trim + n ==> Merged(a, b, len, n, trim)[k] == first[k + trim]
      ensures len - trim + n <= k < len - trim + 2 * n ==> Merged(a, b, len, n, trim)[k] == second[k + trim - n]
      ensures len - trim + 2 * n <= k ==> Merged(a, b, len, n, trim)[k] == a[k]
    {
      MergedAt(a, b, len, n, trim, k);
    }
  }

  lemma MergedHashByte(row: Row, a: Row, b: Row, first: Row, second: Row, len: nat, n: nat, trim: nat, k: nat)
    requires trim <= len && |row| == |a| == |b| == |first| == |second| && len + n <= |a| && len - trim + 2 * n <= |a|
    requires IsMerged(row, a, b, first, second, len, n, trim) && k < len - trim
    ensures row[k] == XorByte(a[trim + k], b[trim + k])
  {
    hide XorByte;
  }

  lemma MergedIndexByte(row: Row, a: Row, b: Row, first: Row, second: Row, len: nat, n: nat, trim: nat, k: nat)
    requires trim <= len && |row| == |a| == |b| == |first| == |second| && len + n <= |a| && len - trim + 2 * n <= |a|
    requires IsMerged(row, a, b, first, second, len, n, trim) && len - trim <= k < len - trim + 2 * n
    ensures row[k] == if k < len - trim + n then first[k + trim] else second[k + trim - n]
  {
    hide XorByte;
  }

  lemma MergedRest(row: Row, a: Row, b: Row, first: Row, second: Row, len: nat, n: nat, trim: nat)
    requires trim <= len && |row| == |a| == |b| == |first| == |second| && len + n <= |a| && len - trim + 2 * n <= |a|
    requires IsMerged(row, a, b, first, second, len, n, trim)
    ensures forall k :: len - trim + 2 * n <= k < |a| ==> row[k] == a[k]
  {
    hide XorByte;
  }

  method MergeRows(a: Row, b: Row, len: nat, lenIndices: nat, trim: nat) returns (row: Row)
    requires trim <= len && |a| == |b| && len + lenIndices <= |a| && len - trim + 2 * lenIndices <= |a|
    ensures row == Merged(a, b, len, lenIndices, trim)
  {
    hide Xor, XorByte, Merged, IndicesBefore, IsMerged;
    var o := len - trim;
    var first, second := a, b;
    if !IndicesBefore(a, b, len, lenIndices) {
      first, second := b, a;
    }
    ghost var merged := Merged(a, b, len, lenIndices, trim);
    MergedIs(a, b, first, second, len, lenIndices, trim);
    var hash := new byte[|a|](k requires 0 <= k < |a| => a[k]);
    for i := trim to len
      invariant forall k :: 0 <= k < i - trim ==> hash[k] == merged[k]
      invariant forall k :: i - trim <= k < |a| ==> hash[k] == a[k]
    {
      MergedHashByte(merged, a, b, first, second, len, lenIndices, trim, i - trim);
      hash[i - trim] := XorByte(a[i], b[i]);
    }
    for i := o to o + lenIndices
      invariant forall k :: 0 <= k < i ==> hash[k] == merged[k]
      invariant forall k :: i <= k < |a| ==> hash[k] == a[k]
    {
      MergedIndexByte(merged, a, b, first, second, len, lenIndices, trim, i);
      hash[i] := first[i + trim];
    }
    for i := o + lenIndices to o + 2 * lenIndices
      invariant forall k :: 0 <= k < i ==> hash[k] == merged[k]
      invariant forall k :: i <= k < |a| ==> hash[k] == a[k]
    {
      MergedIndexByte(merged, a, b, first, second, len, lenIndices, trim, i);
      hash[i] := second[i + trim - lenIndices];
    }
    MergedRest(merged, a, b, first, second, len, lenIndices, trim);
    row := hash[..];
  }
}
