/** What an Equihash solution is: a binary tree of indices whose hashes collide level by
    level. Pure definitions, and the theorems about them that hold for every hash. */
module EquihashTree {
  import opened Numbers
  import opened Radix

  /** Byte `t` of the expanded hash of index `i`. */
  type HashBytes = (nat, nat) -> nat

  /** Byte `t` of the XOR of the hashes of all indices of a list. */
  function XorAt(h: HashBytes, idx: seq<nat>, t: nat): nat {
    if |idx| == 0 then 0 else Xor(h(idx[0], t), XorAt(h, idx[1..], t))
  }

  /** `memcmp(a, b) < 0`, and the same on index lists. */
  predicate LexLess(a: seq<nat>, b: seq<nat>)
    requires |a| == |b|
  {
    |a| > 0 && (a[0] < b[0] || (a[0] == b[0] && LexLess(a[1..], b[1..])))
  }

  predicate Disjoint(a: seq<nat>, b: seq<nat>) {
    forall i, j :: 0 <= i < |a| && 0 <= j < |b| ==> a[i] != b[j]
  }

  /** Chunk `lvl` of the hash, `c` bytes, XORs to zero over the whole list. */
  ghost predicate ChunkZero(h: HashBytes, c: nat, idx: seq<nat>, lvl: nat) {
    forall t: nat :: Width(c, lvl) <= t < Width(c, lvl + 1) ==> XorAt(h, idx, t) == 0
  }

  function Left(idx: seq<nat>): (l: seq<nat>)
    ensures |l| == |idx| / 2
  {
    idx[..|idx| / 2]
  }

  function Right(idx: seq<nat>): (r: seq<nat>)
    ensures |r| == |idx| - |idx| / 2
  {
    idx[|idx| / 2..]
  }

  /** A subtree of `2^lvl` leaves that passes every check of the verifier. */
  ghost predicate TreeOk(h: HashBytes, c: nat, idx: seq<nat>, lvl: nat)
    decreases lvl
  {
    && |idx| == Pow2(lvl)
    && (lvl > 0 ==>
          && TreeOk(h, c, Left(idx), lvl - 1)
          && TreeOk(h, c, Right(idx), lvl - 1)
          && ChunkZero(h, c, idx, lvl - 1)
          && Disjoint(Left(idx), Right(idx))
          && !LexLess(Right(idx), Left(idx)))
  }

  /** The generalized birthday condition on its own, without any order of siblings. */
  ghost predicate BirthdayOk(h: HashBytes, c: nat, idx: seq<nat>, lvl: nat)
    decreases lvl
  {
    && |idx| == Pow2(lvl)
    && (lvl > 0 ==>
          && BirthdayOk(h, c, Left(idx), lvl - 1)
          && BirthdayOk(h, c, Right(idx), lvl - 1)
          && ChunkZero(h, c, idx, lvl - 1)
          && Disjoint(Left(idx), Right(idx)))
  }

  /** Every left subtree starts with a smaller index than its right sibling. */
  predicate Ordered(idx: seq<nat>, lvl: nat)
    requires |idx| == Pow2(lvl)
    decreases lvl
  {
    lvl > 0 ==> Ordered(Left(idx), lvl - 1) && Ordered(Right(idx), lvl - 1) && Left(idx)[0] < Right(idx)[0]
  }

  lemma {:induction false} TreeOkIsOrderedBirthday(h: HashBytes, c: nat, idx: seq<nat>, lvl: nat)
    requires |idx| == Pow2(lvl)
    ensures TreeOk(h, c, idx, lvl) <==> BirthdayOk(h, c, idx, lvl) && Ordered(idx, lvl)
    decreases lvl
  {
    if lvl > 0 {
      TreeOkIsOrderedBirthday(h, c, Left(idx), lvl - 1);
      TreeOkIsOrderedBirthday(h, c, Right(idx), lvl - 1);
      if Disjoint(Left(idx), Right(idx)) {
        assert Left(idx)[0] != Right(idx)[0];
      }
    }
  }

  // --- Algebra of the hash XOR ---

  lemma {:induction false} XorAtConcat(h: HashBytes, a: seq<nat>, b: seq<nat>, t: nat)
    ensures XorAt(h, a + b, t) == Xor(XorAt(h, a, t), XorAt(h, b, t))
  {
    hide Xor;
    if |a| == 0 {
      assert a + b == b;
      XorZero(XorAt(h, b, t));
    } else {
      assert (a + b)[1..] == a[1..] + b;
      XorAtConcat(h, a[1..], b, t);
      XorAssociates(h(a[0], t), XorAt(h, a[1..], t), XorAt(h, b, t));
    }
  }

  lemma XorZero(x: nat)
    ensures Xor(0, x) == x && Xor(x, 0) == x
  {
  }

  lemma XorAtHalves(h: HashBytes, idx: seq<nat>, t: nat)
    ensures XorAt(h, idx, t) == Xor(XorAt(h, Left(idx), t), XorAt(h, Right(idx), t))
  {
    XorAtConcat(h, Left(idx), Right(idx), t);
    assert idx == Left(idx) + Right(idx);
  }

  /** The XOR of all leaf hashes of an accepted subtree vanishes on every chunk below its root. */
  lemma {:induction false} TotalXorZero(h: HashBytes, c: nat, idx: seq<nat>, lvl: nat, t: nat)
    requires BirthdayOk(h, c, idx, lvl) && t < Width(c, lvl)
    ensures XorAt(h, idx, t) == 0
    decreases lvl
  {
    if lvl > 0 && t < Width(c, lvl - 1) {
      TotalXorZero(h, c, Left(idx), lvl - 1, t);
      TotalXorZero(h, c, Right(idx), lvl - 1, t);
      XorAtHalves(h, idx, t);
    }
  }

  // --- Canonical form ---

  /** The lists differ only by exchanging sibling subtrees, at any set of nodes. */
  ghost predicate SwapEquivalent(a: seq<nat>, b: seq<nat>, lvl: nat)
    decreases lvl
  {
    && |a| == |b| == Pow2(lvl)
    && if lvl == 0 then a == b else
         || (SwapEquivalent(Left(a), Left(b), lvl - 1) && SwapEquivalent(Right(a), Right(b), lvl - 1))
         || (SwapEquivalent(Left(a), Right(b), lvl - 1) && SwapEquivalent(Right(a), Left(b), lvl - 1))
  }

  lemma SwapUnfold(a: seq<nat>, b: seq<nat>, lvl: nat)
    requires lvl > 0
    ensures SwapEquivalent(a, b, lvl) <==>
      && |a| == |b| == Pow2(lvl)
      && (|| (SwapEquivalent(Left(a), Left(b), lvl - 1) && SwapEquivalent(Right(a), Right(b), lvl - 1))
          || (SwapEquivalent(Left(a), Right(b), lvl - 1) && SwapEquivalent(Right(a), Left(b), lvl - 1)))
  {
    hide Left, Right, Pow2;
  }

  lemma SwapLeaf(a: seq<nat>, b: seq<nat>)
    ensures SwapEquivalent(a, b, 0) <==> |a| == 1 && a == b
  {
  }

  /** Two ordered lists that differ only by sibling swaps are the same list. */
  lemma {:induction false} OrderedIsCanonical(a: seq<nat>, b: seq<nat>, lvl: nat)
    requires SwapEquivalent(a, b, lvl) && Ordered(a, lvl) && Ordered(b, lvl)
    ensures a == b
    decreases lvl
  {
    if lvl > 0 {
      if SwapEquivalent(Left(a), Left(b), lvl - 1) && SwapEquivalent(Right(a), Right(b), lvl - 1) {
        OrderedIsCanonical(Left(a), Left(b), lvl - 1);
        OrderedIsCanonical(Right(a), Right(b), lvl - 1);
      } else {
        OrderedIsCanonical(Left(a), Right(b), lvl - 1);
        OrderedIsCanonical(Right(a), Left(b), lvl - 1);
        assert false;
      }
    }
  }

  /** Accepted subtrees are canonical. */
  lemma {:induction false} AcceptedIsCanonical(h: HashBytes, c: nat, a: seq<nat>, b: seq<nat>, lvl: nat)
    requires TreeOk(h, c, a, lvl) && TreeOk(h, c, b, lvl) && SwapEquivalent(a, b, lvl)
    ensures a == b
  {
    TreeOkIsOrderedBirthday(h, c, a, lvl);
    TreeOkIsOrderedBirthday(h, c, b, lvl);
    OrderedIsCanonical(a, b, lvl);
  }

  /** Put the subtree with the smaller first index left, everywhere. */
  function Canonical(a: seq<nat>, lvl: nat): (r: seq<nat>)
    requires |a| == Pow2(lvl)
    ensures |r| == |a|
    decreases lvl
  {
    if lvl == 0 then a else
      var l, r := Canonical(Left(a), lvl - 1), Canonical(Right(a), lvl - 1);
      if l[0] < r[0] then l + r else r + l
  }

  lemma {:induction false} SwapSameXor(h: HashBytes, a: seq<nat>, b: seq<nat>, lvl: nat, t: nat)
    requires SwapEquivalent(a, b, lvl)
    ensures XorAt(h, a, t) == XorAt(h, b, t)
    decreases lvl
  {
    hide SwapEquivalent, Left, Right, XorAt, Xor;
    if lvl == 0 {
      SwapLeaf(a, b);
    } else {
      SwapUnfold(a, b, lvl);
      XorAtHalves(h, a, t);
      XorAtHalves(h, b, t);
      if SwapEquivalent(Left(a), Left(b), lvl - 1) && SwapEquivalent(Right(a), Right(b), lvl - 1) {
        SwapSameXor(h, Left(a), Left(b), lvl - 1, t);
        SwapSameXor(h, Right(a), Right(b), lvl - 1, t);
      } else {
        SwapSameXor(h, Left(a), Right(b), lvl - 1, t);
        SwapSameXor(h, Right(a), Left(b), lvl - 1, t);
        XorCommutes(XorAt(h, Left(a), t), XorAt(h, Right(a), t));
      }
    }
  }

  lemma MultisetOfHalves(a: seq<nat>)
    ensures multiset(a) == multiset(Left(a)) + multiset(Right(a))
  {
    assert a == Left(a) + Right(a);
  }

  lemma {:induction false} SwapSameIndices(a: seq<nat>, b: seq<nat>, lvl: nat)
    requires SwapEquivalent(a, b, lvl)
    ensures multiset(a) == multiset(b)
    decreases lvl
  {
    hide Left, Right, Pow2;
    if lvl > 0 {
      MultisetOfHalves(a);
      MultisetOfHalves(b);
      var straight := SwapEquivalent(Left(a), Left(b), lvl - 1) && SwapEquivalent(Right(a), Right(b), lvl - 1);
      SwapSameIndices(Left(a), if straight then Left(b) else Right(b), lvl - 1);
      SwapSameIndices(Right(a), if straight then Right(b) else Left(b), lvl - 1);
    }
  }

  lemma DisjointAsMultisets(a: seq<nat>, b: seq<nat>)
    ensures Disjoint(a, b) <==> multiset(a) !! multiset(b)
  {
    if Disjoint(a, b) {
      forall x | x in a ensures x !in b {
        var i :| 0 <= i < |a| && a[i] == x;
        assert forall j :: 0 <= j < |b| ==> a[i] != b[j];
      }
    }
    if multiset(a) !! multiset(b) {
      forall i, j | 0 <= i < |a| && 0 <= j < |b| ensures a[i] != b[j] {
        assert a[i] in multiset(a) && b[j] in multiset(b);
      }
    }
  }

  lemma SameIndicesSameDisjoint(al: seq<nat>, ar: seq<nat>, bl: seq<nat>, br: seq<nat>)
    requires Disjoint(al, ar)
    requires multiset(al) == multiset(bl) && multiset(ar) == multiset(br)
    ensures Disjoint(bl, br) && Disjoint(br, bl)
  {
    hide Disjoint;
    DisjointAsMultisets(al, ar);
    DisjointAsMultisets(bl, br);
    DisjointAsMultisets(br, bl);
  }

  /** Swapping siblings keeps the generalized birthday condition. */
  lemma {:induction false} SwapKeepsBirthday(h: HashBytes, c: nat, a: seq<nat>, b: seq<nat>, lvl: nat)
    requires SwapEquivalent(a, b, lvl) && BirthdayOk(h, c, a, lvl)
    ensures BirthdayOk(h, c, b, lvl)
    decreases lvl
  {
    hide Disjoint, Left, Right, Width, XorAt;
    if lvl > 0 {
      forall t: nat | Width(c, lvl - 1) <= t < Width(c, lvl) ensures XorAt(h, b, t) == 0 {
        SwapSameXor(h, a, b, lvl, t);
      }
      var straight := SwapEquivalent(Left(a), Left(b), lvl - 1) && SwapEquivalent(Right(a), Right(b), lvl - 1);
      var bl, br := if straight then Left(b) else Right(b), if straight then Right(b) else Left(b);
      SwapKeepsBirthday(h, c, Left(a), bl, lvl - 1);
      SwapKeepsBirthday(h, c, Right(a), br, lvl - 1);
      SwapSameIndices(Left(a), bl, lvl - 1);
      SwapSameIndices(Right(a), br, lvl - 1);
      SameIndicesSameDisjoint(Left(a), Right(a), bl, br);
    }
  }

  /** Equal halves concatenate to a list with those halves. */
  lemma HalvesTogether(s: seq<nat>)
    ensures Left(s) + Right(s) == s
  {
  }

  lemma HalvesOf(l: seq<nat>, r: seq<nat>)
    requires |l| == |r|
    ensures Left(l + r) == l && Right(l + r) == r
  {
  }

  lemma {:induction false} CanonicalIsSwap(h: HashBytes, c: nat, a: seq<nat>, lvl: nat)
    requires BirthdayOk(h, c, a, lvl)
    ensures SwapEquivalent(a, Canonical(a, lvl), lvl)
    ensures Ordered(Canonical(a, lvl), lvl)
    decreases lvl
  {
    hide Left, Right, XorAt, Disjoint;
    if lvl > 0 {
      var l, r := Canonical(Left(a), lvl - 1), Canonical(Right(a), lvl - 1);
      CanonicalIsSwap(h, c, Left(a), lvl - 1);
      CanonicalIsSwap(h, c, Right(a), lvl - 1);
      HalvesOf(l, r);
      HalvesOf(r, l);
      SwapSameIndices(Left(a), l, lvl - 1);
      SwapSameIndices(Right(a), r, lvl - 1);
      SameIndicesSameDisjoint(Left(a), Right(a), l, r);
      DisjointFirst(l, r);
    }
  }

  lemma DisjointFirst(l: seq<nat>, r: seq<nat>)
    requires Disjoint(l, r) && l != [] && r != []
    ensures l[0] != r[0]
  {
  }

  /** Among the arrangements of one solution of the generalized birthday problem the
      verifier accepts exactly one. */
  lemma ExactlyOneAccepted(h: HashBytes, c: nat, a: seq<nat>, lvl: nat)
    requires BirthdayOk(h, c, a, lvl)
    ensures SwapEquivalent(a, Canonical(a, lvl), lvl)
    ensures forall b :: SwapEquivalent(a, b, lvl) ==> (TreeOk(h, c, b, lvl) <==> b == Canonical(a, lvl))
  {
    var n := Canonical(a, lvl);
    CanonicalIsSwap(h, c, a, lvl);
    forall b | SwapEquivalent(a, b, lvl) ensures TreeOk(h, c, b, lvl) <==> b == n {
      SwapKeepsBirthday(h, c, a, b, lvl);
      TreeOkIsOrderedBirthday(h, c, b, lvl);
      if Ordered(b, lvl) {
        SwapSymmetric(a, b, lvl);
        SwapTransitive(b, a, n, lvl);
        OrderedIsCanonical(b, n, lvl);
      }
    }
  }

  lemma {:induction false} SwapSymmetric(a: seq<nat>, b: seq<nat>, lvl: nat)
    requires SwapEquivalent(a, b, lvl)
    ensures SwapEquivalent(b, a, lvl)
    decreases lvl
  {
    hide SwapEquivalent, Left, Right;
    if lvl == 0 {
      SwapLeaf(a, b);
    } else {
      SwapUnfold(a, b, lvl);
      SwapUnfold(b, a, lvl);
      if SwapEquivalent(Left(a), Left(b), lvl - 1) && SwapEquivalent(Right(a), Right(b), lvl - 1) {
        SwapSymmetric(Left(a), Left(b), lvl - 1);
        SwapSymmetric(Right(a), Right(b), lvl - 1);
      } else {
        SwapSymmetric(Left(a), Right(b), lvl - 1);
        SwapSymmetric(Right(a), Left(b), lvl - 1);
      }
    }
  }

  lemma {:induction false} SwapTransitive(a: seq<nat>, b: seq<nat>, d: seq<nat>, lvl: nat)
    requires SwapEquivalent(a, b, lvl) && SwapEquivalent(b, d, lvl)
    ensures SwapEquivalent(a, d, lvl)
    decreases lvl
  {
    hide SwapEquivalent, Left, Right;
    if lvl == 0 {
      SwapLeaf(a, b);
      SwapLeaf(b, d);
    } else {
      SwapUnfold(a, b, lvl);
      SwapUnfold(b, d, lvl);
      SwapUnfold(a, d, lvl);
      var straight := SwapEquivalent(Left(a), Left(b), lvl - 1) && SwapEquivalent(Right(a), Right(b), lvl - 1);
      var bl, br := if straight then Left(b) else Right(b), if straight then Right(b) else Left(b);
      assert SwapEquivalent(Left(a), bl, lvl - 1) && SwapEquivalent(Right(a), br, lvl - 1);
      if SwapEquivalent(bl, Left(d), lvl - 1) && SwapEquivalent(br, Right(d), lvl - 1) {
        SwapTransitive(Left(a), bl, Left(d), lvl - 1);
        SwapTransitive(Right(a), br, Right(d), lvl - 1);
      } else {
        SwapTransitive(Left(a), bl, Right(d), lvl - 1);
        SwapTransitive(Right(a), br, Left(d), lvl - 1);
      }
    }
  }

  // --- The same tree, level by level ---

  /** Subtree `b` of the level with `2^lvl` leaves each. */
  function Block(idx: seq<nat>, lvl: nat, b: nat): (r: seq<nat>)
    requires Shl(b + 1, lvl) <= |idx|
    ensures |r| == Pow2(lvl)
  {
    ShlAdd(b, 1, lvl);
    Pow2IsShl(lvl);
    idx[Shl(b, lvl)..Shl(b + 1, lvl)]
  }

  lemma BlockBounds(lvl: nat, b: nat)
    ensures Shl(b, lvl + 1) == Shl(2 * b, lvl)
    ensures Shl(2 * b + 1, lvl) == Shl(2 * b, lvl) + Pow2(lvl)
    ensures Shl(b + 1, lvl + 1) == Shl(2 * b + 2, lvl) == Shl(2 * b, lvl) + 2 * Pow2(lvl)
  {
    ShlDouble(b, lvl);
    ShlDouble(b + 1, lvl);
    ShlAdd(2 * b, 1, lvl);
    ShlAdd(2 * b + 1, 1, lvl);
    Pow2IsShl(lvl);
  }

  lemma BlockHalves(idx: seq<nat>, lvl: nat, b: nat)
    requires Shl(b + 1, lvl + 1) <= |idx|
    ensures Shl(2 * b + 1, lvl) <= |idx| && Shl(2 * b + 2, lvl) <= |idx|
    ensures Left(Block(idx, lvl + 1, b)) == Block(idx, lvl, 2 * b)
    ensures Right(Block(idx, lvl + 1, b)) == Block(idx, lvl, 2 * b + 1)
  {
    hide Shl, Pow2;
    BlockBounds(lvl, b);
    HalvesOfSlice(idx, Shl(2 * b, lvl), Pow2(lvl));
  }

  lemma HalvesOfSlice(s: seq<nat>, at: nat, n: nat)
    requires at + 2 * n <= |s|
    ensures Left(s[at..at + 2 * n]) == s[at..at + n]
    ensures Right(s[at..at + 2 * n]) == s[at + n..at + 2 * n]
  {
  }

  lemma WholeBlock(idx: seq<nat>, k: nat)
    requires |idx| == Pow2(k)
    ensures Shl(1, k) <= |idx| && Block(idx, k, 0) == idx
  {
    Pow2IsShl(k);
    ShlOfZero(k);
  }

  /** The parent of a block lies inside the tree. */
  lemma ParentBlock(n: nat, k: nat, lvl: nat, b: nat)
    requires n == Pow2(k) && lvl < k && Shl(b + 1, lvl) <= n
    ensures Shl(b / 2 + 1, lvl + 1) <= n
  {
    ShlPow2(k - lvl - 1, lvl + 1);
    ShlPow2(k - lvl, lvl);
    if Pow2(k - lvl) <= b {
      ShlMono(Pow2(k - lvl), b, lvl);
      ShlAdd(b, 1, lvl);
      Pow2IsShl(lvl);
      assert false;
    }
    ShlMono(b / 2 + 1, Pow2(k - lvl - 1), lvl + 1);
  }

  lemma OnlyBlock(k: nat, b: nat)
    requires Shl(b + 1, k) <= Pow2(k)
    ensures b == 0
  {
    if b > 0 {
      ShlMono(2, b + 1, k);
      ShlAdd(1, 1, k);
      Pow2IsShl(k);
      assert false;
    }
  }

  /** Every subtree of an accepted tree is accepted. */
  lemma {:induction false} SubtreeOk(h: HashBytes, c: nat, idx: seq<nat>, k: nat, lvl: nat, b: nat)
    requires TreeOk(h, c, idx, k) && lvl <= k && Shl(b + 1, lvl) <= |idx|
    ensures TreeOk(h, c, Block(idx, lvl, b), lvl)
    decreases k - lvl
  {
    hide Shl, Pow2, Block, Left, Right, Disjoint, LexLess, ChunkZero;
    if lvl < k {
      ParentBlock(|idx|, k, lvl, b);
      SubtreeOk(h, c, idx, k, lvl + 1, b / 2);
      BlockHalves(idx, lvl, b / 2);
    } else {
      WholeBlock(idx, k);
      OnlyBlock(k, b);
    }
  }

  predicate AllDistinct(idx: seq<nat>) {
    forall i, j :: 0 <= i < j < |idx| ==> idx[i] != idx[j]
  }

  lemma {:induction false} TreeIsDistinct(h: HashBytes, c: nat, idx: seq<nat>, lvl: nat)
    requires BirthdayOk(h, c, idx, lvl)
    ensures AllDistinct(idx)
    decreases lvl
  {
    if lvl > 0 {
      TreeIsDistinct(h, c, Left(idx), lvl - 1);
      TreeIsDistinct(h, c, Right(idx), lvl - 1);
      var m := |idx| / 2;
      forall i, j | 0 <= i < j < |idx| ensures idx[i] != idx[j] {
        if j < m {
          assert idx[i] == Left(idx)[i] && idx[j] == Left(idx)[j];
        } else if i < m {
          assert idx[i] == Left(idx)[i] && idx[j] == Right(idx)[j - m];
        } else {
          assert idx[i] == Right(idx)[i - m] && idx[j] == Right(idx)[j - m];
        }
      }
    }
  }

  /** Node `b` above level `lvl`: its left subtree starts with a smaller index than its
      right one, and its leaf hashes XOR to zero on chunk `lvl`. */
  ghost predicate NodeOk(h: HashBytes, c: nat, idx: seq<nat>, lvl: nat, b: nat)
    requires Shl(b + 1, lvl + 1) <= |idx|
  {
    && Left(Block(idx, lvl + 1, b))[0] < Right(Block(idx, lvl + 1, b))[0]
    && ChunkZero(h, c, Block(idx, lvl + 1, b), lvl)
  }

  /** The declarative statement: distinct indices, and the node condition everywhere. */
  ghost predicate SolutionShape(h: HashBytes, c: nat, idx: seq<nat>, k: nat) {
    && |idx| == Pow2(k)
    && AllDistinct(idx)
    && forall lvl: nat, b: nat | lvl < k && Shl(b + 1, lvl + 1) <= |idx| :: NodeOk(h, c, idx, lvl, b)
  }

  lemma BlockDistinct(idx: seq<nat>, lvl: nat, b: nat)
    requires AllDistinct(idx) && Shl(b + 1, lvl) <= |idx|
    ensures Disjoint(Left(Block(idx, lvl, b)), Right(Block(idx, lvl, b)))
  {
    ShlMono(b, b + 1, lvl);
    var s := Block(idx, lvl, b);
    var l, r := Left(s), Right(s);
    var o := Shl(b, lvl);
    forall i, j | 0 <= i < |l| && 0 <= j < |r| ensures l[i] != r[j] {
      assert l[i] == s[i] == idx[o + i];
      assert r[j] == s[|s| / 2 + j] == idx[o + (|s| / 2 + j)];
    }
  }

  lemma FirstDecides(l: seq<nat>, r: seq<nat>)
    requires |l| == |r| > 0 && l[0] < r[0]
    ensures !LexLess(r, l)
  {
  }

  lemma {:induction false} ShapeMakesSubtree(h: HashBytes, c: nat, idx: seq<nat>, k: nat, lvl: nat, b: nat)
    requires SolutionShape(h, c, idx, k) && lvl <= k && Shl(b + 1, lvl) <= |idx|
    ensures TreeOk(h, c, Block(idx, lvl, b), lvl)
    decreases lvl
  {
    hide AllDistinct, Disjoint, ChunkZero, Block, Left, Right, Shl;
    if lvl > 0 {
      BlockHalves(idx, lvl - 1, b);
      ShapeMakesSubtree(h, c, idx, k, lvl - 1, 2 * b);
      ShapeMakesSubtree(h, c, idx, k, lvl - 1, 2 * b + 1);
      BlockDistinct(idx, lvl, b);
      assert NodeOk(h, c, idx, lvl - 1, b);
      FirstDecides(Left(Block(idx, lvl, b)), Right(Block(idx, lvl, b)));
    }
  }

  /** Recursive and declarative statement agree. */
  lemma TreeOkIsShape(h: HashBytes, c: nat, idx: seq<nat>, k: nat)
    ensures TreeOk(h, c, idx, k) <==> SolutionShape(h, c, idx, k)
  {
    if TreeOk(h, c, idx, k) {
      TreeOkIsOrderedBirthday(h, c, idx, k);
      TreeIsDistinct(h, c, idx, k);
      forall lvl: nat, b: nat | lvl < k && Shl(b + 1, lvl + 1) <= |idx|
        ensures NodeOk(h, c, idx, lvl, b)
      {
        SubtreeOk(h, c, idx, k, lvl + 1, b);
        TreeOkIsOrderedBirthday(h, c, Block(idx, lvl + 1, b), lvl + 1);
      }
    }
    if SolutionShape(h, c, idx, k) {
      WholeBlock(idx, k);
      ShapeMakesSubtree(h, c, idx, k, k, 0);
    }
  }
}
