/** The BeamHash III solver: rounds of mixing, sorting and matching over all 2^25 indices. It passes
    every solution that the verifier accepts to its caller. `std::sort` is any sort by collision bits;
    cancellation is not modelled. */
module BeamSolver {
  import opened Numbers
  import opened Radix
  import opened BitPacking
  import IndexCodec
  import opened EquihashTree
  import opened BeamTree
  import opened BeamHashIII
  import opened Sequences

  // --- All colliding pairs of a list ---

  predicate HasIndices(X: seq<StepElem>) {
    forall e :: e in X ==> |e.indexTree| > 0
  }

  function PairOf(X: seq<StepElem>, remLen: nat, i: nat, j: nat): seq<StepElem>
    requires HasIndices(X) && i < |X| && j < |X|
  {
    if CollisionBits(X[i]) == CollisionBits(X[j]) then [MergeElem(X[i], X[j], remLen)] else []
  }

  /** The matches of element `i` with the later ones before `n`. */
  function RowPairs(X: seq<StepElem>, remLen: nat, i: nat, n: nat): seq<StepElem>
    requires HasIndices(X) && i < n <= |X|
  {
    if n == i + 1 then [] else RowPairs(X, remLen, i, n - 1) + PairOf(X, remLen, i, n - 1)
  }

  /** The matches of the first `n` elements with all later ones. */
  function AllPairs(X: seq<StepElem>, remLen: nat, n: nat): seq<StepElem>
    requires HasIndices(X) && n <= |X|
  {
    if n == 0 then [] else AllPairs(X, remLen, n - 1) + RowPairs(X, remLen, n - 1, |X|)
  }

  predicate SortedElems(X: seq<StepElem>) {
    forall i, j :: 0 <= i < j < |X| ==> CollisionBits(X[i]) <= CollisionBits(X[j])
  }

  /** In a sorted list nothing behind the first element that does not collide does. */
  lemma {:induction false} NothingBehind(X: seq<StepElem>, remLen: nat, i: nat, j: nat, n: nat)
    requires HasIndices(X) && SortedElems(X) && i < j < |X| && j <= n <= |X|
    requires CollisionBits(X[i]) != CollisionBits(X[j])
    ensures RowPairs(X, remLen, i, n) == RowPairs(X, remLen, i, j)
    decreases n
  {
    hide CollisionBits, MergeElem;
    if j < n {
      NothingBehind(X, remLen, i, j, n - 1);
    }
  }

  ghost predicate IsPair(X: seq<StepElem>, remLen: nat, i: nat, j: nat, e: StepElem)
    requires HasIndices(X)
  {
    i < j < |X| && CollisionBits(X[i]) == CollisionBits(X[j]) && e == MergeElem(X[i], X[j], remLen)
  }

  lemma {:induction false} RowPairsMembers(X: seq<StepElem>, remLen: nat, i: nat, n: nat, e: StepElem)
    requires HasIndices(X) && i < n <= |X|
    ensures e in RowPairs(X, remLen, i, n) <==> exists j: nat :: j < n && IsPair(X, remLen, i, j, e)
    decreases n
  {
    hide CollisionBits, MergeElem;
    if i + 1 < n {
      RowPairsMembers(X, remLen, i, n - 1, e);
      if e in RowPairs(X, remLen, i, n) {
        assert e in RowPairs(X, remLen, i, n - 1) || IsPair(X, remLen, i, n - 1, e);
        assert exists j: nat :: j < n && IsPair(X, remLen, i, j, e);
      }
    }
  }

  /** An element is a match exactly when it is of two colliding elements. */
  lemma {:induction false} AllPairsMembers(X: seq<StepElem>, remLen: nat, n: nat, e: StepElem)
    requires HasIndices(X) && n <= |X|
    ensures e in AllPairs(X, remLen, n) <==> exists i: nat, j: nat :: i < n && IsPair(X, remLen, i, j, e)
    decreases n
  {
    hide IsPair, RowPairs;
    if n > 0 {
      AllPairsMembers(X, remLen, n - 1, e);
      RowPairsMembers(X, remLen, n - 1, |X|, e);
      if e in AllPairs(X, remLen, n) {
        assert e in AllPairs(X, remLen, n - 1) || e in RowPairs(X, remLen, n - 1, |X|);
        assert exists i: nat, j: nat :: i < n && IsPair(X, remLen, i, j, e);
      }
      forall i: nat, j: nat | i < n && IsPair(X, remLen, i, j, e)
        ensures e in AllPairs(X, remLen, n)
      {
        PairIsInside(X, remLen, i, j, e);
        if i < n - 1 {
          assert e in AllPairs(X, remLen, n - 1);
        } else {
          assert e in RowPairs(X, remLen, n - 1, |X|);
        }
      }
    }
  }

  lemma PairIsInside(X: seq<StepElem>, remLen: nat, i: nat, j: nat, e: StepElem)
    requires HasIndices(X) && IsPair(X, remLen, i, j, e)
    ensures i < j < |X|
  {
    hide CollisionBits, MergeElem;
  }

  lemma RowStart(X: seq<StepElem>, remLen: nat, i: nat)
    requires HasIndices(X) && i < |X|
    ensures RowPairs(X, remLen, i, i + 1) == []
  {
  }

  lemma RowStep(X: seq<StepElem>, remLen: nat, i: nat, j: nat)
    requires HasIndices(X) && i < j < |X|
    ensures RowPairs(X, remLen, i, j + 1)
      == RowPairs(X, remLen, i, j)
         + if CollisionBits(X[i]) == CollisionBits(X[j]) then [MergeElem(X[i], X[j], remLen)] else []
  {
    hide CollisionBits, MergeElem;
  }

  lemma RowDone(X: seq<StepElem>, remLen: nat, i: nat)
    requires HasIndices(X) && i < |X|
    ensures AllPairs(X, remLen, i + 1) == AllPairs(X, remLen, i) + RowPairs(X, remLen, i, |X|)
  {
    hide RowPairs;
  }

  /** The last element has none behind it. */
  lemma AllDone(X: seq<StepElem>, remLen: nat)
    requires HasIndices(X)
    ensures AllPairs(X, remLen, 0) == []
    ensures |X| > 0 ==> AllPairs(X, remLen, |X|) == AllPairs(X, remLen, |X| - 1)
  {
    hide CollisionBits, MergeElem;
  }

  // --- The loops of one round ---

  method MatchAll(X: seq<StepElem>, remLen: nat) returns (out: seq<StepElem>)
    requires HasIndices(X) && SortedElems(X) && remLen <= WORK_BIT_SIZE
    ensures out == AllPairs(X, remLen, |X|)
  {
    hide CollisionBits, MergeElem, SortedElems, RowPairs, AllPairs, HasIndices;
    AllDone(X, remLen);
    out := [];
    var i := 0;
    while i + 1 < |X|
      invariant i <= |X| && (|X| > 0 ==> i < |X|)
      invariant out == AllPairs(X, remLen, i)
    {
      ghost var before := out;
      var j := i + 1;
      RowStart(X, remLen, i);
      while j < |X|
        invariant i < j <= |X|
        invariant out == before + RowPairs(X, remLen, i, j)
      {
        RowStep(X, remLen, i, j);
        EachHasIndices(X, i, j);
        var collides := HasCollision(X[i], X[j]);
        if collides {
          var e := NewMatch(X[i], X[j], remLen);
          out := out + [e];
        } else {
          NothingBehind(X, remLen, i, j, |X|);
          break;
        }
        j := j + 1;
      }
      RowDone(X, remLen, i);
      i := i + 1;
    }
  }

  lemma EachHasIndices(X: seq<StepElem>, i: nat, j: nat)
    requires HasIndices(X) && i < |X| && j < |X|
    ensures |X[i].indexTree| > 0 && |X[j].indexTree| > 0
  {
  }

  function InsertElem(e: StepElem, X: seq<StepElem>): seq<StepElem> {
    if X == [] || CollisionBits(e) < CollisionBits(X[0]) then [e] + X else [X[0]] + InsertElem(e, X[1..])
  }

  lemma {:induction false} InsertSorts(e: StepElem, X: seq<StepElem>)
    requires SortedElems(X)
    ensures SortedElems(InsertElem(e, X)) && multiset(InsertElem(e, X)) == multiset{e} + multiset(X)
  {
    hide CollisionBits, SortedElems;
    if X == [] || CollisionBits(e) < CollisionBits(X[0]) {
      SortedFrom(e, X);
    } else {
      var rest := InsertElem(e, X[1..]);
      SortedRest(X);
      InsertSorts(e, X[1..]);
      assert X == [X[0]] + X[1..];
      InsertFirst(e, X[1..]);
      SortedFirst(X);
      SortedFrom(X[0], rest);
    }
  }

  lemma SortedFrom(e: StepElem, X: seq<StepElem>)
    requires SortedElems(X) && (X == [] || CollisionBits(e) <= CollisionBits(X[0]))
    ensures SortedElems([e] + X)
  {
    hide CollisionBits;
  }

  lemma SortedRest(X: seq<StepElem>)
    requires SortedElems(X) && X != []
    ensures SortedElems(X[1..])
  {
    hide CollisionBits;
  }

  lemma SortedFirst(X: seq<StepElem>)
    requires SortedElems(X) && X != []
    ensures X[1..] == [] || CollisionBits(X[0]) <= CollisionBits(X[1..][0])
  {
    hide CollisionBits;
  }

  lemma InsertFirst(e: StepElem, X: seq<StepElem>)
    ensures InsertElem(e, X) != []
    ensures InsertElem(e, X)[0] == e || (X != [] && InsertElem(e, X)[0] == X[0])
  {
    hide CollisionBits;
  }

  /** A sort by collision bits. */
  method SortElements(X: seq<StepElem>) returns (sorted: seq<StepElem>)
    ensures multiset(sorted) == multiset(X) && SortedElems(sorted)
  {
    hide CollisionBits;
    sorted := [];
    for i := 0 to |X|
      invariant multiset(sorted) == multiset(X[..i]) && SortedElems(sorted)
    {
      assert X[..i + 1] == X[..i] + [X[i]];
      InsertSorts(X[i], sorted);
      sorted := InsertElem(X[i], sorted);
    }
    assert X[..|X|] == X;
  }

  ghost predicate AllMixable(X: seq<StepElem>, round: nat)
    requires 1 <= round <= NUM_ROUNDS
  {
    forall e :: e in X ==> Mixable(e, round)
  }

  /** The elements, each mixed for round `round`. */
  ghost predicate AreMixed(X: seq<StepElem>, Y: seq<StepElem>, round: nat)
    requires 1 <= round <= NUM_ROUNDS
  {
    |X| == |Y| && forall i :: 0 <= i < |X| ==> Y[i] == Mixed(X[i], MixLen(round))
  }

  method MixElements(X: seq<StepElem>, round: nat, remLen: nat) returns (Y: seq<StepElem>)
    requires 1 <= round <= NUM_ROUNDS && remLen == MixLen(round) && AllMixable(X, round)
    ensures AreMixed(X, Y, round)
  {
    hide Mixed, Below, Pow2;
    Y := [];
    for i := 0 to |X|
      invariant |Y| == i && forall k :: 0 <= k < i ==> Y[k] == Mixed(X[k], MixLen(round))
    {
      assert X[i] in X;
      var e := ApplyMix(X[i], remLen);
      Y := Y + [e];
    }
  }

  // --- What a round keeps ---

  /** An element of a list after `h` rounds is built by the merge rule from `2^h` indices. */
  ghost predicate Built(s: Scheme, e: StepElem, h: nat)
    requires SchemeOk(s) && h <= NUM_ROUNDS
  {
    && SolverBuilds(s, e, h) && |e.indexTree| == Pow2(h) && Below(e.indexTree, 25)
    && (h < NUM_ROUNDS ==> e.workBits < Pow2(MixLen(h + 1)))
  }

  ghost predicate Sound(s: Scheme, X: seq<StepElem>, h: nat)
    requires SchemeOk(s) && h <= NUM_ROUNDS
  {
    (forall e :: e in X ==> Built(s, e, h)) && DistinctLists(X)
  }

  /** No two elements have the same index list. */
  predicate DistinctLists(X: seq<StepElem>) {
    forall i, j :: 0 <= i < j < |X| ==> X[i].indexTree != X[j].indexTree
  }

  /** The element of every list that passes the verifier's checks up to height `h` is there. */
  ghost predicate Complete(s: Scheme, X: seq<StepElem>, h: nat)
    requires SchemeOk(s) && h <= NUM_ROUNDS
  {
    forall idx, e :: Below(idx, 25) && Rebuilt(s, e, idx, h) ==> e in X
  }

  /** Two elements that a round matches in either order. */
  ghost predicate Siblings(s: Scheme, a: StepElem, b: StepElem, h: nat)
    requires 1 <= h <= NUM_ROUNDS
  {
    |a.indexTree| > 0 && |b.indexTree| > 0 && a.indexTree[0] != b.indexTree[0] && CollideIn(s, a, b, h)
  }

  lemma BuiltIsMixable(s: Scheme, X: seq<StepElem>, h: nat)
    requires SchemeOk(s) && h < NUM_ROUNDS && Sound(s, X, h)
    ensures AllMixable(X, h + 1)
  {
    hide SolverBuilds, DistinctLists, Below, Pow2;
  }

  lemma MixedHaveIndices(X: seq<StepElem>, Y: seq<StepElem>, sorted: seq<StepElem>, round: nat)
    requires 1 <= round <= NUM_ROUNDS && AllMixable(X, round) && AreMixed(X, Y, round)
    requires multiset(sorted) == multiset(Y)
    ensures HasIndices(sorted)
  {
    hide Mixed, Below, Pow2;
    forall e | e in sorted
      ensures |e.indexTree| > 0
    {
      var a := Unmixed(X, Y, sorted, round, e);
    }
  }

  /** An element of the sorted list is the mix of one of the round's. */
  lemma Unmixed(X: seq<StepElem>, Y: seq<StepElem>, sorted: seq<StepElem>, round: nat, e: StepElem)
    returns (a: StepElem)
    requires 1 <= round <= NUM_ROUNDS && AreMixed(X, Y, round) && multiset(sorted) == multiset(Y) && e in sorted
    ensures a in X && e == Mixed(a, MixLen(round))
  {
    hide Mixed;
    assert e in multiset(sorted);
    var i :| 0 <= i < |Y| && Y[i] == e;
    a := X[i];
  }

  lemma MixedIn(X: seq<StepElem>, Y: seq<StepElem>, sorted: seq<StepElem>, round: nat, a: StepElem)
    returns (i: nat)
    requires 1 <= round <= NUM_ROUNDS && AreMixed(X, Y, round) && multiset(sorted) == multiset(Y) && a in X
    ensures i < |sorted| && sorted[i] == Mixed(a, MixLen(round))
  {
    hide Mixed;
    var k :| 0 <= k < |X| && X[k] == a;
    assert Y[k] in multiset(Y);
    i :| i < |sorted| && sorted[i] == Y[k];
  }

  /** The lists of one round: `out` are the matches of the mixed and sorted elements of `X`. */
  ghost predicate RoundOf(X: seq<StepElem>, Y: seq<StepElem>, sorted: seq<StepElem>, out: seq<StepElem>, round: nat)
    requires 1 <= round <= NUM_ROUNDS
  {
    && AreMixed(X, Y, round) && multiset(sorted) == multiset(Y) && SortedElems(sorted) && HasIndices(sorted)
    && out == AllPairs(sorted, MergeLen(round), |sorted|)
  }

  lemma SchemeMixes(sip: SipHash, a: StepElem, round: nat)
    requires 1 <= round <= NUM_ROUNDS
    ensures BeamScheme(sip).mix(a, MixLen(round)) == Mixed(a, MixLen(round))
  {
    hide Mixed;
  }

  lemma MatchIsMerge(sip: SipHash, a: StepElem, b: StepElem, round: nat)
    requires 1 <= round <= NUM_ROUNDS && |a.indexTree| > 0 && |b.indexTree| > 0
    ensures var s, ma, mb := BeamScheme(sip), Mixed(a, MixLen(round)), Mixed(b, MixLen(round));
      && (CollideIn(s, a, b, round) <==> CollisionBits(ma) == CollisionBits(mb))
      && MatchElem(s, a, b, round) == MergeElem(ma, mb, MergeLen(round))
  {
    hide Mixed, MergeElem, CollisionBits;
    SchemeMixes(sip, a, round);
    SchemeMixes(sip, b, round);
  }

  lemma BuiltMatch(sip: SipHash, a: StepElem, b: StepElem, round: nat)
    requires 1 <= round <= NUM_ROUNDS && Built(BeamScheme(sip), a, round - 1) && Built(BeamScheme(sip), b, round - 1)
    requires |a.indexTree| > 0 && |b.indexTree| > 0 && a.indexTree != b.indexTree
    requires CollideIn(BeamScheme(sip), a, b, round)
    ensures Built(BeamScheme(sip), MatchElem(BeamScheme(sip), a, b, round), round)
  {
    hide Mixed, MatchElem, CollideIn, Below, Pow2, BeamScheme;
    var s := BeamScheme(sip);
    var e := MatchElem(s, a, b, round);
    assert Matches(s, a, b, e, round);
    MatchList(s, a, b, round);
    MatchBelow(s, a, b, round);
    BelowConcat(a.indexTree, b.indexTree);
    BelowConcat(b.indexTree, a.indexTree);
    Pow2Step(round - 1);
  }

  // --- No list twice ---

  lemma DifferentLists(X: seq<StepElem>, i: nat, j: nat)
    requires DistinctLists(X) && i < j < |X|
    ensures X[i].indexTree != X[j].indexTree
  {
  }

  /** All elements have `len` indices. */
  predicate HaveLength(X: seq<StepElem>, len: nat) {
    forall i :: 0 <= i < |X| ==> |X[i].indexTree| == len
  }

  lemma SortedStayDistinct(X: seq<StepElem>, Y: seq<StepElem>, sorted: seq<StepElem>, round: nat)
    requires 1 <= round <= NUM_ROUNDS && AreMixed(X, Y, round) && multiset(sorted) == multiset(Y) && DistinctLists(X)
    ensures DistinctLists(sorted)
  {
    hide Mixed;
    forall i, j | 0 <= i < j < |sorted|
      ensures sorted[i].indexTree != sorted[j].indexTree
    {
      assert sorted[i] in multiset(Y) && sorted[j] in multiset(Y);
      var p :| 0 <= p < |Y| && Y[p] == sorted[i];
      if sorted[i] == sorted[j] {
        OccursTwice(sorted, i, j);
        OccursOnce(Y, p);
      }
    }
  }

  lemma SortedHaveLength(sip: SipHash, X: seq<StepElem>, Y: seq<StepElem>, sorted: seq<StepElem>, round: nat)
    requires 1 <= round <= NUM_ROUNDS && AreMixed(X, Y, round) && multiset(sorted) == multiset(Y)
    requires forall e :: e in X ==> Built(BeamScheme(sip), e, round - 1)
    ensures HaveLength(sorted, Pow2(round - 1))
  {
    hide Mixed, SolverBuilds, Below, BeamScheme, Pow2, AreMixed;
    forall i | 0 <= i < |sorted|
      ensures |sorted[i].indexTree| == Pow2(round - 1)
    {
      var a := Unmixed(X, Y, sorted, round, sorted[i]);
    }
  }

  /** Two matches with the same index list are of the same pair. */
  lemma SamePair(X: seq<StepElem>, remLen: nat, i: nat, j: nat, p: nat, q: nat, e: StepElem, f: StepElem, len: nat)
    requires HasIndices(X) && DistinctLists(X) && HaveLength(X, len)
    requires IsPair(X, remLen, i, j, e) && IsPair(X, remLen, p, q, f) && e.indexTree == f.indexTree
    ensures i == p && j == q
  {
    hide CollisionBits, Low, Shr, Xor, DistinctLists;
    var a, b, c, d := X[i].indexTree, X[j].indexTree, X[p].indexTree, X[q].indexTree;
    SameHalves(if a[0] < b[0] then a else b, if a[0] < b[0] then b else a,
               if c[0] < d[0] then c else d, if c[0] < d[0] then d else c);
    SameList(X, i, p);
    SameList(X, i, q);
    SameList(X, j, p);
    SameList(X, j, q);
  }

  lemma SameHalves(a: seq<nat>, b: seq<nat>, c: seq<nat>, d: seq<nat>)
    requires |a| == |c| && a + b == c + d
    ensures a == c && b == d
  {
    assert a == (a + b)[..|a|] && c == (c + d)[..|c|];
    assert b == (a + b)[|a|..] && d == (c + d)[|c|..];
  }

  lemma SameList(X: seq<StepElem>, i: nat, p: nat)
    requires DistinctLists(X) && i < |X| && p < |X|
    ensures X[i].indexTree == X[p].indexTree <==> i == p
  {
  }

  lemma DistinctTogether(X: seq<StepElem>, Y: seq<StepElem>)
    requires DistinctLists(X) && DistinctLists(Y)
    requires forall e, f :: e in X && f in Y ==> e.indexTree != f.indexTree
    ensures DistinctLists(X + Y)
  {
    forall i, j | 0 <= i < j < |X + Y|
      ensures (X + Y)[i].indexTree != (X + Y)[j].indexTree
    {
      if i < |X| <= j {
        assert X[i] in X && Y[j - |X|] in Y;
      }
    }
  }

  lemma {:induction false} RowPairsDistinct(X: seq<StepElem>, remLen: nat, i: nat, n: nat, len: nat)
    requires HasIndices(X) && DistinctLists(X) && HaveLength(X, len) && i < n <= |X|
    ensures DistinctLists(RowPairs(X, remLen, i, n))
    decreases n
  {
    hide IsPair, DistinctLists, HaveLength, CollisionBits, MergeElem;
    if n == i + 1 {
      NothingTwice();
    } else {
      RowPairsDistinct(X, remLen, i, n - 1, len);
      var front, last := RowPairs(X, remLen, i, n - 1), PairOf(X, remLen, i, n - 1);
      OneIsDistinct(last);
      forall e, f | e in front && f in last
        ensures e.indexTree != f.indexTree
      {
        RowPairsMembers(X, remLen, i, n - 1, e);
        var j: nat :| j < n - 1 && IsPair(X, remLen, i, j, e);
        LastIsPair(X, remLen, i, n - 1, f);
        if e.indexTree == f.indexTree {
          SamePair(X, remLen, i, j, i, n - 1, e, f, len);
        }
      }
      DistinctTogether(front, last);
    }
  }

  lemma NothingTwice()
    ensures DistinctLists([])
  {
  }

  lemma OneIsDistinct(X: seq<StepElem>)
    requires |X| <= 1
    ensures DistinctLists(X)
  {
  }

  lemma LastIsPair(X: seq<StepElem>, remLen: nat, i: nat, j: nat, e: StepElem)
    requires HasIndices(X) && i < j < |X| && e in PairOf(X, remLen, i, j)
    ensures IsPair(X, remLen, i, j, e)
  {
    hide CollisionBits, MergeElem;
  }

  /** So the matches of a list without repetitions have none. */
  lemma {:induction false} AllPairsDistinct(X: seq<StepElem>, remLen: nat, n: nat, len: nat)
    requires HasIndices(X) && DistinctLists(X) && HaveLength(X, len) && n <= |X|
    ensures DistinctLists(AllPairs(X, remLen, n))
    decreases n
  {
    hide IsPair, DistinctLists, HaveLength, RowPairs;
    if n == 0 {
      NothingTwice();
    } else {
      AllPairsDistinct(X, remLen, n - 1, len);
      RowPairsDistinct(X, remLen, n - 1, |X|, len);
      var front, last := AllPairs(X, remLen, n - 1), RowPairs(X, remLen, n - 1, |X|);
      forall e, f | e in front && f in last
        ensures e.indexTree != f.indexTree
      {
        AllPairsMembers(X, remLen, n - 1, e);
        RowPairsMembers(X, remLen, n - 1, |X|, f);
        var i: nat, j: nat :| i < n - 1 && IsPair(X, remLen, i, j, e);
        var k: nat :| k < |X| && IsPair(X, remLen, n - 1, k, f);
        if e.indexTree == f.indexTree {
          SamePair(X, remLen, i, j, n - 1, k, e, f, len);
        }
      }
      DistinctTogether(front, last);
    }
  }

  /** Every match is built by the merge rule. */
  lemma RoundIsSound(sip: SipHash, X: seq<StepElem>, Y: seq<StepElem>, sorted: seq<StepElem>, out: seq<StepElem>,
                     round: nat)
    requires 1 <= round <= NUM_ROUNDS && Sound(BeamScheme(sip), X, round - 1) && RoundOf(X, Y, sorted, out, round)
    ensures Sound(BeamScheme(sip), out, round)
  {
    hide Mixed, MatchElem, MergeElem, CollisionBits, CollideIn, AllPairs, Built, BeamScheme, AreMixed, SortedElems,
      DistinctLists;
    SortedStayDistinct(X, Y, sorted, round);
    SortedHaveLength(sip, X, Y, sorted, round);
    AllPairsDistinct(sorted, MergeLen(round), |sorted|, Pow2(round - 1));
    forall e | e in out
      ensures Built(BeamScheme(sip), e, round)
    {
      AllPairsMembers(sorted, MergeLen(round), |sorted|, e);
      var i: nat, j: nat :| IsPair(sorted, MergeLen(round), i, j, e);
      PairIsInside(sorted, MergeLen(round), i, j, e);
      var a := Unmixed(X, Y, sorted, round, sorted[i]);
      var b := Unmixed(X, Y, sorted, round, sorted[j]);
      assert sorted[i] in sorted && sorted[j] in sorted;
      MatchIsMerge(sip, a, b, round);
      DifferentLists(sorted, i, j);
      BuiltMatch(sip, a, b, round);
    }
  }

  /** Two different elements that collide are matched, in whichever order the list has them. */
  lemma PairIsFound(sip: SipHash, X: seq<StepElem>, Y: seq<StepElem>, sorted: seq<StepElem>, out: seq<StepElem>,
                    round: nat, a: StepElem, b: StepElem)
    requires 1 <= round <= NUM_ROUNDS && RoundOf(X, Y, sorted, out, round) && a in X && b in X
    requires Siblings(BeamScheme(sip), a, b, round)
    ensures MatchElem(BeamScheme(sip), a, b, round) in out
  {
    hide Mixed, MatchElem, MergeElem, CollisionBits, CollideIn, AllPairs, BeamScheme, AreMixed;
    var s := BeamScheme(sip);
    var i := MixedIn(X, Y, sorted, round, a);
    var j := MixedIn(X, Y, sorted, round, b);
    MatchCommutes(s, a, b, round);
    MatchIsMerge(sip, a, b, round);
    MatchIsMerge(sip, b, a, round);
    var e := MatchElem(s, a, b, round);
    AllPairsMembers(sorted, MergeLen(round), |sorted|, e);
    if i < j {
      assert IsPair(sorted, MergeLen(round), i, j, e);
    } else {
      assert IsPair(sorted, MergeLen(round), j, i, e);
    }
  }

  /** If the list before the round has all checked subtrees, then so has the list after it. */
  lemma RoundIsComplete(sip: SipHash, X: seq<StepElem>, Y: seq<StepElem>, sorted: seq<StepElem>, out: seq<StepElem>,
                        round: nat)
    requires 1 <= round <= NUM_ROUNDS && Complete(BeamScheme(sip), X, round - 1) && RoundOf(X, Y, sorted, out, round)
    ensures Complete(BeamScheme(sip), out, round)
  {
    hide MatchElem, Siblings, RoundOf, Rebuilt, Below, Left, Right, BeamScheme;
    var s := BeamScheme(sip);
    forall idx, e | Below(idx, 25) && Rebuilt(s, e, idx, round)
      ensures e in out
    {
      HalvesBelow(idx);
      var a, b := RebuiltHalves(s, e, idx, round);
      PairIsFound(sip, X, Y, sorted, out, round, a, b);
    }
  }

  /** The element of a checked tree is the match of those of its halves. */
  lemma RebuiltHalves(s: Scheme, e: StepElem, idx: seq<nat>, h: nat) returns (a: StepElem, b: StepElem)
    requires SchemeOk(s) && 1 <= h <= NUM_ROUNDS && Rebuilt(s, e, idx, h)
    ensures Rebuilt(s, a, Left(idx), h - 1) && Rebuilt(s, b, Right(idx), h - 1)
    ensures Siblings(s, a, b, h) && e == MatchElem(s, a, b, h)
  {
    hide MatchElem, CollideIn, Rebuild, Checks, Left, Right, Disjoint, Pow2;
    Halved(idx, h);
    ChecksSplit(s, idx, Left(idx), Right(idx), h);
    RebuildSplit(s, idx, h);
    a, b := Rebuild(s, Left(idx), h - 1), Rebuild(s, Right(idx), h - 1);
    RebuiltInOrder(s, a, Left(idx), h - 1);
    RebuiltInOrder(s, b, Right(idx), h - 1);
  }

  // --- The first list ---

  /** The elements of all indices, in order. */
  ghost predicate AreSeeds(sip: SipHash, X: seq<StepElem>) {
    |X| == Pow2(COLLISION_BIT_SIZE + 1) && forall i :: 0 <= i < |X| ==> X[i] == LeafElem(sip, i)
  }

  method Seeds(sip: SipHash) returns (X: seq<StepElem>)
    requires SipOk(sip)
    ensures AreSeeds(sip, X)
  {
    hide Pow2, HashWords;
    X := [];
    for i := 0 to Pow2(COLLISION_BIT_SIZE + 1)
      invariant |X| == i && forall k :: 0 <= k < i ==> X[k] == LeafElem(sip, k)
    {
      var e := NewElem(sip, i);
      X := X + [e];
    }
  }

  lemma SeedsAreSound(sip: SipHash, X: seq<StepElem>)
    requires SipOk(sip) && AreSeeds(sip, X)
    ensures Sound(BeamScheme(sip), X, 0)
  {
    hide Pow2, HashWords, Mixed;
    NoBits();
    forall e | e in X
      ensures Built(BeamScheme(sip), e, 0)
    {
      var i :| 0 <= i < |X| && X[i] == e;
      HashWordsBelow(sip, i, 0);
      WidthIsProduct(64, 7);
    }
  }

  lemma SeedsAreComplete(sip: SipHash, X: seq<StepElem>)
    requires AreSeeds(sip, X)
    ensures Complete(BeamScheme(sip), X, 0)
  {
    hide Pow2, HashWords, Mixed, Checks;
    NoBits();
    forall idx, e | Below(idx, 25) && Rebuilt(BeamScheme(sip), e, idx, 0)
      ensures e in X
    {
      RebuildLeaf(BeamScheme(sip), idx);
      assert X[idx[0]] == e;
    }
  }

  // --- The last round ---

  /** The solution that the solver makes of an element: its indices, packed, and the extra nonce. */
  function SolutionBytes(e: StepElem): (soln: seq<byte>)
    ensures |soln| == 104 && soln[..100] == Packed(e.indexTree) && soln[100..104] == [0, 0, 0, 0]
  {
    PackedBytes(e.indexTree);
    Packed(e.indexTree) + NONCE
  }

  lemma PackedBytes(idx: seq<nat>)
    ensures |Packed(idx)| == 100 && forall i :: 0 <= i < 100 ==> Packed(idx)[i] < 256
  {
    hide DigitsLE, ValLE;
    DigitsLEBelow(ValLE(idx, 25), 8, 100);
    EightOnes();
  }

  /** The solver's extra nonce. */
  const NONCE: seq<byte> := [0, 0, 0, 0]

  predicate Approved(validBlock: seq<byte> -> bool, e: StepElem) {
    e.workBits == 0 && validBlock(SolutionBytes(e))
  }

  predicate NoneApproved(validBlock: seq<byte> -> bool, X: seq<StepElem>) {
    forall e :: e in X ==> !Approved(validBlock, e)
  }

  /** The element has half of a solution's indices. */
  ghost predicate IsHalf(e: StepElem) { |e.indexTree| == 16 && Below(e.indexTree, 25) }

  ghost predicate AllHalves(X: seq<StepElem>) {
    forall e :: e in X ==> IsHalf(e)
  }

  lemma HalvesMakeSolution(a: StepElem, b: StepElem, remLen: nat)
    requires IsHalf(a) && IsHalf(b)
    ensures |MergeElem(a, b, remLen).indexTree| == 32 && Below(MergeElem(a, b, remLen).indexTree, 25)
  {
    hide Pow2, Low, Shr, Xor;
  }

  /** The matches of the last round, up to the first zero one that `validBlock` approves. */
  method TryMatches(X: seq<StepElem>, remLen: nat, stray: nat, validBlock: seq<byte> -> bool) returns (found: bool)
    requires HasIndices(X) && SortedElems(X) && remLen <= WORK_BIT_SIZE && stray < Pow2(32) && AllHalves(X)
    ensures found <==> !NoneApproved(validBlock, AllPairs(X, remLen, |X|))
  {
    hide CollisionBits, MergeElem, SortedElems, RowPairs, AllPairs, HasIndices, AllHalves, NoneApproved, IsPair,
      Approved, Below, Pow2;
    AllDone(X, remLen);
    NothingApproved(validBlock);
    var i := 0;
    while i + 1 < |X|
      invariant i <= |X| && (|X| > 0 ==> i < |X|)
      invariant NoneApproved(validBlock, AllPairs(X, remLen, i))
    {
      var j := i + 1;
      RowStart(X, remLen, i);
      while j < |X|
        invariant i < j <= |X|
        invariant NoneApproved(validBlock, RowPairs(X, remLen, i, j))
      {
        RowStep(X, remLen, i, j);
        EachHasIndices(X, i, j);
        var collides := HasCollision(X[i], X[j]);
        if collides {
          var temp := NewMatch(X[i], X[j], remLen);
          PairMakesSolution(X, i, j, remLen);
          var approved := TryMatch(temp, stray, validBlock);
          if approved {
            FoundPair(X, remLen, i, j, temp, validBlock);
            return true;
          }
          OneMoreTried(validBlock, RowPairs(X, remLen, i, j), temp);
        } else {
          NothingBehind(X, remLen, i, j, |X|);
          break;
        }
        j := j + 1;
      }
      RowDone(X, remLen, i);
      RowTried(validBlock, AllPairs(X, remLen, i), RowPairs(X, remLen, i, |X|));
      i := i + 1;
    }
    return false;
  }

  lemma PairMakesSolution(X: seq<StepElem>, i: nat, j: nat, remLen: nat)
    requires HasIndices(X) && AllHalves(X) && i < |X| && j < |X|
    ensures var e := MergeElem(X[i], X[j], remLen); |e.indexTree| == 32 && Below(e.indexTree, 25)
  {
    hide IsHalf, MergeElem, Below;
    assert X[i] in X && X[j] in X;
    HalvesMakeSolution(X[i], X[j], remLen);
  }

  lemma NothingApproved(validBlock: seq<byte> -> bool)
    ensures NoneApproved(validBlock, [])
  {
  }

  lemma OneMoreTried(validBlock: seq<byte> -> bool, X: seq<StepElem>, e: StepElem)
    requires NoneApproved(validBlock, X) && !Approved(validBlock, e)
    ensures NoneApproved(validBlock, X + [e])
  {
    hide Approved;
  }

  lemma RowTried(validBlock: seq<byte> -> bool, X: seq<StepElem>, Y: seq<StepElem>)
    requires NoneApproved(validBlock, X) && NoneApproved(validBlock, Y)
    ensures NoneApproved(validBlock, X + Y)
  {
    hide Approved;
  }

  lemma FoundPair(X: seq<StepElem>, remLen: nat, i: nat, j: nat, e: StepElem, validBlock: seq<byte> -> bool)
    requires HasIndices(X) && i < j < |X| && CollisionBits(X[i]) == CollisionBits(X[j])
    requires e == MergeElem(X[i], X[j], remLen) && Approved(validBlock, e)
    ensures !NoneApproved(validBlock, AllPairs(X, remLen, |X|))
  {
    hide CollisionBits, MergeElem, AllPairs, Approved;
    AllPairsMembers(X, remLen, |X|, e);
    assert IsPair(X, remLen, i, j, e);
  }

  method TryMatch(temp: StepElem, stray: nat, validBlock: seq<byte> -> bool) returns (approved: bool)
    requires |temp.indexTree| == 32 && Below(temp.indexTree, 25) && stray < Pow2(32)
    ensures approved <==> Approved(validBlock, temp)
  {
    hide Below, Pow2, Packed;
    if temp.workBits != 0 {
      return false;
    }
    var sol := GetMinimalFromIndices(temp.indexTree, stray);
    sol := sol + NONCE;
    approved := validBlock(sol);
  }

  // --- Runs of the solver ---

  /** `Endless`: a round left no element, and the bound of the next match loop, the size less one, wraps
      around. */
  datatype Outcome = Found | NotFound | Endless

  /** The verifier accepts the solution, and its extra nonce is the solver's. */
  ghost predicate AcceptedSolution(sipOf: seq<byte> -> SipHash, soln: seq<byte>) {
    && |soln| == 104 && soln[100..104] == [0, 0, 0, 0]
    && Accepts(BeamScheme(sipOf(soln[100..104])), Unpacked(soln[..100]))
  }

  ghost predicate HasSolution(sipOf: seq<byte> -> SipHash) {
    exists soln :: AcceptedSolution(sipOf, soln)
  }

  ghost predicate HasApproved(sipOf: seq<byte> -> SipHash, validBlock: seq<byte> -> bool) {
    exists soln :: AcceptedSolution(sipOf, soln) && validBlock(soln)
  }

  /** Some element that the merge rule builds in the last round is approved. */
  ghost predicate SomeApproved(sipOf: seq<byte> -> SipHash, validBlock: seq<byte> -> bool) {
    exists e :: SolverBuilds(BeamScheme(sipOf(NONCE)), e, NUM_ROUNDS) && Approved(validBlock, e)
  }

  /** `validBlock` verifies the solution, among other things. */
  ghost predicate OnlyAccepted(sipOf: seq<byte> -> SipHash, validBlock: seq<byte> -> bool) {
    forall soln :: validBlock(soln) ==> AcceptedSolution(sipOf, soln)
  }

  ghost predicate IsRound(X: seq<StepElem>, out: seq<StepElem>, round: nat)
    requires 1 <= round <= NUM_ROUNDS
  {
    exists Y, sorted :: RoundOf(X, Y, sorted, out, round)
  }

  /** The lists of a run of the solver: all indices, then the matches of each round. */
  ghost predicate Lists(sip: SipHash, lists: seq<seq<StepElem>>) {
    && 0 < |lists| <= NUM_ROUNDS + 1 && AreSeeds(sip, lists[0])
    && forall h :: 0 < h < |lists| ==> IsRound(lists[h - 1], lists[h], h)
  }

  /** The outcome of a run: it finds the first approved match of the last round, and never ends if a list
      that is to be matched is empty. */
  predicate IsOutcome(outcome: Outcome, lists: seq<seq<StepElem>>, validBlock: seq<byte> -> bool)
    requires |lists| > 0
  {
    match outcome
    case Endless => |lists| <= NUM_ROUNDS && lists[|lists| - 1] == []
    case Found => |lists| == NUM_ROUNDS + 1 && !NoneApproved(validBlock, lists[NUM_ROUNDS])
    case NotFound => |lists| == NUM_ROUNDS + 1 && NoneApproved(validBlock, lists[NUM_ROUNDS])
  }

  lemma {:induction false} ListsAreSound(sip: SipHash, lists: seq<seq<StepElem>>, h: nat)
    requires SipOk(sip) && Lists(sip, lists) && h < |lists|
    ensures Sound(BeamScheme(sip), lists[h], h)
  {
    hide Sound, RoundOf, AreSeeds, SipOk, BeamScheme, Pow2;
    if h == 0 {
      SeedsAreSound(sip, lists[0]);
    } else {
      ListsAreSound(sip, lists, h - 1);
      assert IsRound(lists[h - 1], lists[h], h);
      var Y, sorted :| RoundOf(lists[h - 1], Y, sorted, lists[h], h);
      RoundIsSound(sip, lists[h - 1], Y, sorted, lists[h], h);
    }
  }

  lemma {:induction false} ListsAreComplete(sip: SipHash, lists: seq<seq<StepElem>>, h: nat)
    requires Lists(sip, lists) && h < |lists|
    ensures Complete(BeamScheme(sip), lists[h], h)
  {
    hide Complete, RoundOf, AreSeeds, BeamScheme, Pow2;
    if h == 0 {
      SeedsAreComplete(sip, lists[0]);
    } else {
      ListsAreComplete(sip, lists, h - 1);
      assert IsRound(lists[h - 1], lists[h], h);
      var Y, sorted :| RoundOf(lists[h - 1], Y, sorted, lists[h], h);
      RoundIsComplete(sip, lists[h - 1], Y, sorted, lists[h], h);
    }
  }

  // --- What the outcome means ---

  /** The element of an accepted solution. */
  lemma SolutionElement(sip: SipHash, soln: seq<byte>) returns (e: StepElem, idx: seq<nat>)
    requires |soln| == 104 && soln[100..104] == NONCE && Accepts(BeamScheme(sip), Unpacked(soln[..100]))
    ensures Below(idx, 25) && Rebuilt(BeamScheme(sip), e, idx, NUM_ROUNDS)
    ensures e.workBits == 0 && SolutionBytes(e) == soln
  {
    hide Checks, Rebuild, Unpacked, Packed, BeamScheme, Below, Pow2;
    var s, bytes := BeamScheme(sip), soln[..100];
    idx := Unpacked(bytes);
    e := Rebuild(s, idx, NUM_ROUNDS);
    IndexCodec.BytesBelow(bytes);
    PackedUnpacked(bytes);
    RebuiltInOrder(s, e, idx, NUM_ROUNDS);
    assert soln == bytes + soln[100..104];
    assert SolutionBytes(e) == SolutionBytes(e)[..100] + SolutionBytes(e)[100..104];
  }

  /** While there is an accepted solution no list is empty. */
  lemma {:induction false} SolutionNeedsElements(s: Scheme, X: seq<StepElem>, h: nat, e: StepElem, idx: seq<nat>,
                                                 k: nat)
    requires SchemeOk(s) && h <= k <= NUM_ROUNDS && Complete(s, X, h) && Below(idx, 25) && Rebuilt(s, e, idx, k)
    ensures X != []
    decreases k
  {
    hide Rebuilt, Siblings, MatchElem, Below, Left, Right;
    if h < k {
      HalvesBelow(idx);
      var a, b := RebuiltHalves(s, e, idx, k);
      SolutionNeedsElements(s, X, h, a, Left(idx), k - 1);
    }
  }

  /** An accepted solution is among the matches of the last round, and keeps the solver from running out of
      elements before. */
  lemma SolutionIsMatched(sipOf: seq<byte> -> SipHash, lists: seq<seq<StepElem>>, soln: seq<byte>)
    returns (e: StepElem)
    requires Lists(sipOf(NONCE), lists) && AcceptedSolution(sipOf, soln)
    ensures lists[|lists| - 1] != []
    ensures e.workBits == 0 && SolutionBytes(e) == soln
    ensures |lists| == NUM_ROUNDS + 1 ==> e in lists[NUM_ROUNDS]
  {
    hide Lists, Accepts, Rebuilt, Unpacked, BeamScheme, Below, SolutionBytes;
    var idx;
    e, idx := SolutionElement(sipOf(NONCE), soln);
    InRange(sipOf(NONCE), lists);
    ListsAreComplete(sipOf(NONCE), lists, |lists| - 1);
    SolutionNeedsElements(BeamScheme(sipOf(NONCE)), lists[|lists| - 1], |lists| - 1, e, idx, NUM_ROUNDS);
  }

  lemma InRange(sip: SipHash, lists: seq<seq<StepElem>>)
    requires Lists(sip, lists)
    ensures 0 < |lists| <= NUM_ROUNDS + 1
  {
    hide IsRound, AreSeeds;
  }

  /** The solver finds a solution whenever there is one that the verifier accepts and `validBlock` approves,
      and nothing that the merge rule does not build. */
  lemma OutcomeMeans(sipOf: seq<byte> -> SipHash, lists: seq<seq<StepElem>>, validBlock: seq<byte> -> bool,
                     outcome: Outcome)
    requires SipOk(sipOf(NONCE)) && Lists(sipOf(NONCE), lists) && IsOutcome(outcome, lists, validBlock)
    ensures HasApproved(sipOf, validBlock) ==> outcome == Found
    ensures outcome == Found ==> SomeApproved(sipOf, validBlock)
    ensures outcome == Endless ==> !HasSolution(sipOf)
    ensures OnlyAccepted(sipOf, validBlock) ==> (outcome == Found <==> HasApproved(sipOf, validBlock))
  {
    hide Lists, AcceptedSolution, SipOk, BeamScheme, SolverBuilds, SolutionBytes;
    if soln :| AcceptedSolution(sipOf, soln) {
      var e := SolutionIsMatched(sipOf, lists, soln);
    }
    if soln :| AcceptedSolution(sipOf, soln) && validBlock(soln) {
      var e := SolutionIsMatched(sipOf, lists, soln);
      assert Approved(validBlock, e);
    }
    if outcome == Found {
      var e :| e in lists[NUM_ROUNDS] && Approved(validBlock, e);
      ListsAreSound(sipOf(NONCE), lists, NUM_ROUNDS);
      assert Built(BeamScheme(sipOf(NONCE)), e, NUM_ROUNDS);
    }
  }

  // --- The solver ---

  /** All rounds: the outcome is the one that the lists of the run determine, and means what it says. */
  method OptimisedSolve(sipOf: seq<byte> -> SipHash, validBlock: seq<byte> -> bool, stray: nat)
    returns (outcome: Outcome, ghost lists: seq<seq<StepElem>>)
    requires (forall nonce :: SipOk(sipOf(nonce))) && stray < Pow2(32)
    ensures Lists(sipOf(NONCE), lists) && IsOutcome(outcome, lists, validBlock)
    ensures HasApproved(sipOf, validBlock) ==> outcome == Found
    ensures outcome == Found ==> SomeApproved(sipOf, validBlock)
    ensures outcome == Endless ==> !HasSolution(sipOf)
    ensures OnlyAccepted(sipOf, validBlock) ==> (outcome == Found <==> HasApproved(sipOf, validBlock))
  {
    hide HasSolution, HasApproved, SomeApproved, OnlyAccepted, NoneApproved, Sound, AllPairs, AreMixed, AllMixable,
      SortedElems, HasIndices, AllHalves, AreSeeds, Lists, IsRound, SipOk, BeamScheme, Pow2;
    var sip := sipOf(NONCE);
    var elements := Seeds(sip);
    lists := [elements];
    FirstList(sip, elements);
    var round := 1;
    while round < 5
      invariant 1 <= round <= 5 && |lists| == round && lists[round - 1] == elements && Lists(sip, lists)
    {
      var remLen := WORK_BIT_SIZE - (round - 1) * COLLISION_BIT_SIZE;
      ListsAreSound(sip, lists, round - 1);
      BuiltIsMixable(BeamScheme(sip), elements, round - 1);
      var mixed := MixElements(elements, round, remLen);
      var sorted := SortElements(mixed);
      MixedHaveIndices(elements, mixed, sorted, round);
      remLen := WORK_BIT_SIZE - round * COLLISION_BIT_SIZE;
      if round == 4 {
        remLen := remLen - 64;
      }
      if |sorted| == 0 {
        NothingLeft(elements, mixed, sorted, round);
        OutcomeMeans(sipOf, lists, validBlock, Endless);
        return Endless, lists;
      }
      var outElements := MatchAll(sorted, remLen);
      NextList(sip, lists, mixed, sorted, outElements);
      elements := outElements;
      lists := lists + [elements];
      round := round + 1;
    }
    var remLen := WORK_BIT_SIZE - (round - 1) * COLLISION_BIT_SIZE - 64;
    ListsAreSound(sip, lists, round - 1);
    BuiltIsMixable(BeamScheme(sip), elements, round - 1);
    var mixed := MixElements(elements, round, remLen);
    var sorted := SortElements(mixed);
    MixedHaveIndices(elements, mixed, sorted, round);
    remLen := COLLISION_BIT_SIZE;
    if |sorted| == 0 {
      NothingLeft(elements, mixed, sorted, round);
      OutcomeMeans(sipOf, lists, validBlock, Endless);
      return Endless, lists;
    }
    LastAreHalves(BeamScheme(sip), elements, mixed, sorted);
    var found := TryMatches(sorted, remLen, stray, validBlock);
    ghost var out := AllPairs(sorted, remLen, |sorted|);
    NextList(sip, lists, mixed, sorted, out);
    lists := lists + [out];
    outcome := if found then Found else NotFound;
    OutcomeMeans(sipOf, lists, validBlock, outcome);
  }

  lemma FirstList(sip: SipHash, X: seq<StepElem>)
    requires AreSeeds(sip, X)
    ensures Lists(sip, [X])
  {
    hide AreSeeds, IsRound;
  }

  lemma NextList(sip: SipHash, lists: seq<seq<StepElem>>, Y: seq<StepElem>, sorted: seq<StepElem>,
                 out: seq<StepElem>)
    requires Lists(sip, lists) && |lists| <= NUM_ROUNDS
    requires RoundOf(lists[|lists| - 1], Y, sorted, out, |lists|)
    ensures Lists(sip, lists + [out])
  {
    hide AreSeeds, RoundOf, IsRound;
    IsOneRound(lists[|lists| - 1], Y, sorted, out, |lists|);
    var more := lists + [out];
    forall h | 0 < h < |more|
      ensures IsRound(more[h - 1], more[h], h)
    {
      if h < |lists| {
        assert IsRound(lists[h - 1], lists[h], h);
      }
    }
  }

  lemma IsOneRound(X: seq<StepElem>, Y: seq<StepElem>, sorted: seq<StepElem>, out: seq<StepElem>, round: nat)
    requires 1 <= round <= NUM_ROUNDS && RoundOf(X, Y, sorted, out, round)
    ensures IsRound(X, out, round)
  {
    hide RoundOf;
  }

  lemma NothingLeft(X: seq<StepElem>, Y: seq<StepElem>, sorted: seq<StepElem>, round: nat)
    requires 1 <= round <= NUM_ROUNDS && AreMixed(X, Y, round) && multiset(sorted) == multiset(Y) && sorted == []
    ensures X == []
  {
    hide Mixed;
    if X != [] {
      var i := MixedIn(X, Y, sorted, round, X[0]);
    }
  }

  lemma LastAreHalves(s: Scheme, X: seq<StepElem>, Y: seq<StepElem>, sorted: seq<StepElem>)
    requires SchemeOk(s) && Sound(s, X, 4) && AreMixed(X, Y, 5) && multiset(sorted) == multiset(Y)
    ensures AllHalves(sorted)
  {
    hide Mixed, Below, SolverBuilds, AreMixed, DistinctLists;
    forall e | e in sorted
      ensures IsHalf(e)
    {
      var a := Unmixed(X, Y, sorted, 5, e);
      FourBits();
    }
  }

  lemma FourBits()
    ensures Pow2(4) == 16
  {
  }
}
