/** BeamHash III seen from its tree: which index lists the verifier accepts and which elements
    the solver can build, for any hash of a single index and any mixing of work bits. */
module BeamTree {
  import opened Numbers
  import opened Radix
  import opened EquihashTree

  const WORK_BIT_SIZE: nat := 448
  const COLLISION_BIT_SIZE: nat := 24
  const NUM_ROUNDS: nat := 5

  datatype StepElem = StepElem(workBits: nat, indexTree: seq<nat>)

  /** The element of one index, and `applyMix` for a remaining length. */
  datatype Scheme = Scheme(leaf: nat -> StepElem, mix: (StepElem, nat) -> StepElem)

  /** Mixing never touches the index list. */
  ghost predicate SchemeOk(s: Scheme) {
    && (forall i: nat :: s.leaf(i).indexTree == [i])
    && (forall e: StepElem, n: nat :: s.mix(e, n).indexTree == e.indexTree)
  }

  function CollisionBits(e: StepElem): nat { Low(e.workBits, COLLISION_BIT_SIZE) }

  /** The element made from two ancestors: the collision bits shifted out, `remLen` bits kept,
      the list with the smaller first index in front. */
  function MergeElem(a: StepElem, b: StepElem, remLen: nat): (e: StepElem)
    requires |a.indexTree| > 0 && |b.indexTree| > 0
    ensures |e.indexTree| == |a.indexTree| + |b.indexTree|
  {
    StepElem(Low(Shr(Xor(a.workBits, b.workBits), COLLISION_BIT_SIZE), remLen),
             if a.indexTree[0] < b.indexTree[0] then a.indexTree + b.indexTree else b.indexTree + a.indexTree)
  }

  /** The remaining length when the elements of a round are mixed. */
  function MixLen(round: nat): (r: nat)
    requires 1 <= round <= NUM_ROUNDS
    ensures 64 <= r <= WORK_BIT_SIZE
  {
    WORK_BIT_SIZE - (round - 1) * COLLISION_BIT_SIZE - (if round == 5 then 64 else 0)
  }

  /** The remaining length of the elements that a round makes. */
  function MergeLen(round: nat): (r: nat)
    requires 1 <= round <= NUM_ROUNDS
    ensures r <= WORK_BIT_SIZE
    ensures round < NUM_ROUNDS ==> r == MixLen(round + 1)
  {
    if round == 5 then COLLISION_BIT_SIZE
    else WORK_BIT_SIZE - round * COLLISION_BIT_SIZE - (if round == 4 then 64 else 0)
  }

  /** The mixed elements agree on the collision bits. */
  ghost predicate CollideIn(s: Scheme, a: StepElem, b: StepElem, h: nat)
    requires 1 <= h <= NUM_ROUNDS
  {
    CollisionBits(s.mix(a, MixLen(h))) == CollisionBits(s.mix(b, MixLen(h)))
  }

  /** One match of round `h`: mix both elements, then merge them. */
  ghost function MatchElem(s: Scheme, a: StepElem, b: StepElem, h: nat): (e: StepElem)
    requires SchemeOk(s) && 1 <= h <= NUM_ROUNDS && |a.indexTree| > 0 && |b.indexTree| > 0
    ensures |e.indexTree| == |a.indexTree| + |b.indexTree|
  {
    MergeElem(s.mix(a, MixLen(h)), s.mix(b, MixLen(h)), MergeLen(h))
  }

  lemma MatchList(s: Scheme, a: StepElem, b: StepElem, h: nat)
    requires SchemeOk(s) && 1 <= h <= NUM_ROUNDS && |a.indexTree| > 0 && |b.indexTree| > 0
    ensures MatchElem(s, a, b, h).indexTree
         == if a.indexTree[0] < b.indexTree[0] then a.indexTree + b.indexTree else b.indexTree + a.indexTree
  {
    hide Low, Shr, Xor;
  }

  // --- The verifier's tree ---

  /** The element that the verifier arrives at for the subtree `idx` of height `h`. */
  ghost function Rebuild(s: Scheme, idx: seq<nat>, h: nat): (e: StepElem)
    requires SchemeOk(s) && |idx| == Pow2(h) && h <= NUM_ROUNDS
    ensures |e.indexTree| > 0
    decreases h
  {
    hide MatchElem;
    if h == 0 then s.leaf(idx[0])
    else
      Halved(idx, h);
      MatchElem(s, Rebuild(s, Left(idx), h - 1), Rebuild(s, Right(idx), h - 1), h)
  }

  /** The elements of the two halves collide. */
  ghost predicate HalvesCollide(s: Scheme, idx: seq<nat>, h: nat)
    requires SchemeOk(s) && 0 < h <= NUM_ROUNDS && |Left(idx)| == |Right(idx)| == Pow2(h - 1)
  {
    CollideIn(s, Rebuild(s, Left(idx), h - 1), Rebuild(s, Right(idx), h - 1), h)
  }

  /** The three checks succeed at every node of the subtree. */
  ghost predicate Checks(s: Scheme, idx: seq<nat>, h: nat)
    requires SchemeOk(s) && |idx| == Pow2(h) && h <= NUM_ROUNDS
    decreases h
  {
    h > 0 ==>
      && Checks(s, Left(idx), h - 1)
      && Checks(s, Right(idx), h - 1)
      && HalvesCollide(s, idx, h)
      && Disjoint(Left(idx), Right(idx))
      && Left(idx)[0] < Right(idx)[0]
  }

  lemma Halved(idx: seq<nat>, h: nat)
    requires h > 0 && |idx| == Pow2(h)
    ensures |Left(idx)| == |Right(idx)| == Pow2(h - 1) && |idx| == 2 * Pow2(h - 1)
  {
    hide Left, Right, Pow2;
    Pow2Step(h - 1);
  }

  lemma HalvesBelow(idx: seq<nat>)
    requires Below(idx, 25)
    ensures Below(Left(idx), 25) && Below(Right(idx), 25)
  {
    hide Pow2;
  }

  /** The checks at the root of a subtree and in its two halves. */
  ghost predicate RootChecks(s: Scheme, idx: seq<nat>, l: seq<nat>, r: seq<nat>, h: nat)
    requires SchemeOk(s) && 0 < h <= NUM_ROUNDS
    requires l == Left(idx) && r == Right(idx) && |l| == |r| == Pow2(h - 1)
  {
    && l[0] < r[0] && Disjoint(l, r)
    && HalvesCollide(s, idx, h)
    && (Checks(s, l, h - 1) && Checks(s, r, h - 1))
  }

  lemma ChecksSplit(s: Scheme, idx: seq<nat>, l: seq<nat>, r: seq<nat>, h: nat)
    requires SchemeOk(s) && |idx| == Pow2(h) && 0 < h <= NUM_ROUNDS
    requires l == Left(idx) && r == Right(idx) && |l| == |r| == Pow2(h - 1)
    ensures Checks(s, idx, h) <==> RootChecks(s, idx, l, r, h)
  {
    hide HalvesCollide, Disjoint, Left, Right, Pow2;
  }

  lemma {:induction false} ChecksAreOrdered(s: Scheme, idx: seq<nat>, h: nat)
    requires SchemeOk(s) && |idx| == Pow2(h) && h <= NUM_ROUNDS && Checks(s, idx, h)
    ensures Ordered(idx, h)
    decreases h
  {
    hide HalvesCollide, Disjoint, Checks;
    if h > 0 {
      Halved(idx, h);
      ChecksSplit(s, idx, Left(idx), Right(idx), h);
      ChecksAreOrdered(s, Left(idx), h - 1);
      ChecksAreOrdered(s, Right(idx), h - 1);
    }
  }

  /** The element of an ordered subtree lists the subtree's indices in order. */
  lemma {:induction false} RebuildKeepsOrder(s: Scheme, idx: seq<nat>, h: nat)
    requires SchemeOk(s) && |idx| == Pow2(h) && h <= NUM_ROUNDS && Ordered(idx, h)
    ensures Rebuild(s, idx, h).indexTree == idx
    decreases h
  {
    hide MatchElem, Rebuild, Ordered, Left, Right, Pow2;
    if h > 0 {
      Halved(idx, h);
      OrderedSplit(idx, h);
      RebuildSplit(s, idx, h);
      RebuildKeepsOrder(s, Left(idx), h - 1);
      RebuildKeepsOrder(s, Right(idx), h - 1);
      MatchList(s, Rebuild(s, Left(idx), h - 1), Rebuild(s, Right(idx), h - 1), h);
      HalvesTogether(idx);
    } else {
      RebuildLeaf(s, idx);
    }
  }

  lemma OrderedSplit(idx: seq<nat>, h: nat)
    requires |idx| == Pow2(h) && h > 0 && Ordered(idx, h)
    requires |Left(idx)| == |Right(idx)| == Pow2(h - 1)
    ensures Ordered(Left(idx), h - 1) && Ordered(Right(idx), h - 1) && Left(idx)[0] < Right(idx)[0]
  {
  }

  lemma RebuildSplit(s: Scheme, idx: seq<nat>, h: nat)
    requires SchemeOk(s) && |idx| == Pow2(h) && 0 < h <= NUM_ROUNDS
    requires |Left(idx)| == |Right(idx)| == Pow2(h - 1)
    ensures Rebuild(s, idx, h) == MatchElem(s, Rebuild(s, Left(idx), h - 1), Rebuild(s, Right(idx), h - 1), h)
  {
    hide MatchElem;
  }

  lemma RebuildLeaf(s: Scheme, idx: seq<nat>)
    requires SchemeOk(s) && |idx| == Pow2(0)
    ensures |idx| == 1 && Rebuild(s, idx, 0) == s.leaf(idx[0]) && s.leaf(idx[0]).indexTree == idx
  {
    assert idx == [idx[0]];
  }

  /** Accepted trees that differ only by swapped siblings are the same. */
  lemma AcceptedTreesAreCanonical(s: Scheme, a: seq<nat>, b: seq<nat>, h: nat)
    requires SchemeOk(s) && h <= NUM_ROUNDS && SwapEquivalent(a, b, h)
    requires |a| == |b| == Pow2(h) && Checks(s, a, h) && Checks(s, b, h)
    ensures a == b
  {
    hide Checks, SwapEquivalent, Ordered;
    ChecksAreOrdered(s, a, h);
    ChecksAreOrdered(s, b, h);
    OrderedIsCanonical(a, b, h);
  }

  // --- The solver's elements ---

  /** The elements that the solver can hold after `round` rounds: an index below 2^25, or the merge of
      two mixed elements of the round before that collide. No two elements of a round have the same
      index list, and none is matched with itself. */
  ghost predicate SolverBuilds(s: Scheme, e: StepElem, round: nat)
    requires SchemeOk(s) && round <= NUM_ROUNDS
    decreases round
  {
    if round == 0 then
      exists i: nat :: i < Pow2(25) && e == s.leaf(i)
    else
      exists a, b :: Matches(s, a, b, e, round)
  }

  ghost predicate Matches(s: Scheme, a: StepElem, b: StepElem, e: StepElem, round: nat)
    requires SchemeOk(s) && 0 < round <= NUM_ROUNDS
    decreases round, 0
  {
    && SolverBuilds(s, a, round - 1) && SolverBuilds(s, b, round - 1)
    && |a.indexTree| > 0 && |b.indexTree| > 0 && a.indexTree != b.indexTree
    && CollideIn(s, a, b, round)
    && e == MatchElem(s, a, b, round)
  }

  lemma SolverMatch(s: Scheme, e: StepElem, h: nat) returns (a: StepElem, b: StepElem)
    requires SchemeOk(s) && 0 < h <= NUM_ROUNDS && SolverBuilds(s, e, h)
    ensures SolverBuilds(s, a, h - 1) && SolverBuilds(s, b, h - 1)
    ensures |a.indexTree| > 0 && |b.indexTree| > 0 && CollideIn(s, a, b, h) && e == MatchElem(s, a, b, h)
  {
    hide MatchElem, CollideIn;
    a, b :| Matches(s, a, b, e, h);
  }

  lemma SolverLeaf(s: Scheme, e: StepElem)
    requires SchemeOk(s) && SolverBuilds(s, e, 0)
    ensures |e.indexTree| == 1 == Pow2(0) && Below(e.indexTree, 25)
    ensures Rebuild(s, e.indexTree, 0) == e && Checks(s, e.indexTree, 0)
  {
  }

  /** The order in which two colliding elements are met does not matter. */
  lemma MatchCommutes(s: Scheme, a: StepElem, b: StepElem, h: nat)
    requires SchemeOk(s) && 1 <= h <= NUM_ROUNDS
    requires |a.indexTree| > 0 && |b.indexTree| > 0 && a.indexTree[0] != b.indexTree[0]
    ensures MatchElem(s, a, b, h) == MatchElem(s, b, a, h)
    ensures CollideIn(s, a, b, h) <==> CollideIn(s, b, a, h)
  {
    hide Xor, Low, Shr;
    XorCommutes(s.mix(a, MixLen(h)).workBits, s.mix(b, MixLen(h)).workBits);
  }

  lemma DistinctHalves(s: seq<nat>)
    requires AllDistinct(s)
    ensures AllDistinct(Left(s)) && AllDistinct(Right(s)) && Disjoint(Left(s), Right(s))
  {
    var m := |s| / 2;
    forall i, j | 0 <= i < |Left(s)| && 0 <= j < |Right(s)| ensures Left(s)[i] != Right(s)[j] {
      assert s[i] != s[m + j];
    }
    forall i, j | 0 <= i < j < |Right(s)| ensures Right(s)[i] != Right(s)[j] {
      assert s[m + i] != s[m + j];
    }
  }

  lemma DistinctParts(a: seq<nat>, b: seq<nat>)
    requires AllDistinct(a + b)
    ensures AllDistinct(a) && AllDistinct(b)
  {
    forall i, j | 0 <= i < j < |b| ensures b[i] != b[j] {
      assert (a + b)[|a| + i] != (a + b)[|a| + j];
    }
    forall i, j | 0 <= i < j < |a| ensures a[i] != a[j] {
      assert (a + b)[i] != (a + b)[j];
    }
  }

  lemma DifferentFirst(a: seq<nat>, b: seq<nat>, s: seq<nat>)
    requires |a| > 0 && |b| > 0 && AllDistinct(s) && (s == a + b || s == b + a)
    ensures a[0] != b[0]
  {
    assert (a + b)[|a|] == b[0] && (b + a)[|b|] == a[0];
    assert s[0] != s[if s == a + b then |a| else |b|];
  }

  lemma BelowConcat(a: seq<nat>, b: seq<nat>)
    requires Below(a, 25) && Below(b, 25)
    ensures Below(a + b, 25)
  {
    hide Pow2;
  }

  /** What the verifier does at one node when handed the two lists in ascending order. */
  lemma RebuildNode(s: Scheme, x: StepElem, y: StepElem, h: nat)
    requires SchemeOk(s) && 0 < h <= NUM_ROUNDS && |x.indexTree| == |y.indexTree| == Pow2(h - 1)
    requires Rebuild(s, x.indexTree, h - 1) == x && Checks(s, x.indexTree, h - 1)
    requires Rebuild(s, y.indexTree, h - 1) == y && Checks(s, y.indexTree, h - 1)
    requires CollideIn(s, x, y, h) && AllDistinct(x.indexTree + y.indexTree) && x.indexTree[0] < y.indexTree[0]
    ensures |x.indexTree + y.indexTree| == Pow2(h)
    ensures Checks(s, x.indexTree + y.indexTree, h)
    ensures Rebuild(s, x.indexTree + y.indexTree, h) == MatchElem(s, x, y, h)
  {
    hide MatchElem, CollideIn, Disjoint, AllDistinct, Left, Right;
    HalvesOf(x.indexTree, y.indexTree);
    DistinctHalves(x.indexTree + y.indexTree);
  }

  /** The verifier rebuilds every element the solver can build with distinct indices. */
  lemma {:induction false} VerifierRebuilds(s: Scheme, e: StepElem, h: nat)
    requires SchemeOk(s) && h <= NUM_ROUNDS && SolverBuilds(s, e, h) && AllDistinct(e.indexTree)
    ensures |e.indexTree| == Pow2(h) && Below(e.indexTree, 25)
    ensures Rebuild(s, e.indexTree, h) == e && Checks(s, e.indexTree, h)
    decreases h, 1
  {
    hide MatchElem, CollideIn, AllDistinct, SolverBuilds, Rebuild, Checks, Below;
    if h > 0 {
      var a, b := SolverMatch(s, e, h);
      MatchList(s, a, b, h);
      DifferentFirst(a.indexTree, b.indexTree, e.indexTree);
      MatchCommutes(s, a, b, h);
      if a.indexTree[0] < b.indexTree[0] {
        RebuildOrdered(s, a, b, e, h);
      } else {
        RebuildOrdered(s, b, a, e, h);
      }
    } else {
      SolverLeaf(s, e);
    }
  }

  lemma {:induction false} RebuildOrdered(s: Scheme, x: StepElem, y: StepElem, e: StepElem, h: nat)
    requires SchemeOk(s) && 0 < h <= NUM_ROUNDS && SolverBuilds(s, x, h - 1) && SolverBuilds(s, y, h - 1)
    requires |x.indexTree| > 0 && |y.indexTree| > 0 && x.indexTree[0] < y.indexTree[0]
    requires CollideIn(s, x, y, h) && e == MatchElem(s, x, y, h)
    requires e.indexTree == x.indexTree + y.indexTree && AllDistinct(e.indexTree)
    ensures |e.indexTree| == Pow2(h) && Below(e.indexTree, 25)
    ensures Rebuild(s, e.indexTree, h) == e && Checks(s, e.indexTree, h)
    decreases h, 0
  {
    hide MatchElem, CollideIn, AllDistinct, SolverBuilds, Rebuild, Checks, Below;
    DistinctParts(x.indexTree, y.indexTree);
    VerifierRebuilds(s, x, h - 1);
    VerifierRebuilds(s, y, h - 1);
    RebuildNode(s, x, y, h);
    BelowConcat(x.indexTree, y.indexTree);
  }

  lemma JoinDistinct(s: seq<nat>)
    requires AllDistinct(Left(s)) && AllDistinct(Right(s)) && Disjoint(Left(s), Right(s))
    ensures AllDistinct(s)
  {
    var m := |s| / 2;
    forall i, j | 0 <= i < j < |s| ensures s[i] != s[j] {
      if j < m {
        assert s[i] == Left(s)[i] && s[j] == Left(s)[j];
      } else if i < m {
        assert s[i] == Left(s)[i] && s[j] == Right(s)[j - m];
      } else {
        assert s[i] == Right(s)[i - m] && s[j] == Right(s)[j - m];
      }
    }
  }

  /** Conversely, what the verifier checks successfully is built by the solver's rule. */
  lemma {:induction false} SolverReaches(s: Scheme, idx: seq<nat>, h: nat)
    requires SchemeOk(s) && |idx| == Pow2(h) && h <= NUM_ROUNDS && Below(idx, 25) && Checks(s, idx, h)
    ensures SolverBuilds(s, Rebuild(s, idx, h), h)
    ensures Rebuild(s, idx, h).indexTree == idx && AllDistinct(idx)
    decreases h
  {
    hide MatchElem, CollideIn, Disjoint, Checks, Below, Left, Right, Ordered, Rebuild, AllDistinct, Pow2;
    ChecksAreOrdered(s, idx, h);
    RebuildKeepsOrder(s, idx, h);
    if h > 0 {
      HalvesBelow(idx);
      Halved(idx, h);
      ChecksSplit(s, idx, Left(idx), Right(idx), h);
      SolverReaches(s, Left(idx), h - 1);
      SolverReaches(s, Right(idx), h - 1);
      RebuildSplit(s, idx, h);
      assert Matches(s, Rebuild(s, Left(idx), h - 1), Rebuild(s, Right(idx), h - 1), Rebuild(s, idx, h), h);
      JoinDistinct(idx);
    } else {
      FirstBelow(idx);
      RebuildLeaf(s, idx);
    }
  }

  lemma FirstBelow(idx: seq<nat>)
    requires |idx| == Pow2(0) && Below(idx, 25)
    ensures idx[0] < Pow2(25) && AllDistinct(idx)
  {
  }

  /** The condition the verifier decides on an index list. */
  ghost predicate Accepts(s: Scheme, idx: seq<nat>)
    requires SchemeOk(s)
  {
    |idx| == Pow2(NUM_ROUNDS) && Checks(s, idx, NUM_ROUNDS) && Rebuild(s, idx, NUM_ROUNDS).workBits == 0
  }

  /** The verifier accepts exactly the index lists of the solver's final elements with zero work
      bits and distinct indices. */
  lemma AcceptsWhatTheSolverBuilds(s: Scheme, idx: seq<nat>)
    requires SchemeOk(s) && Below(idx, 25)
    ensures Accepts(s, idx) <==>
              exists e :: SolverBuilds(s, e, NUM_ROUNDS) && e.indexTree == idx && AllDistinct(idx) && e.workBits == 0
  {
    hide SolverBuilds, Checks, Rebuild, Below, AllDistinct;
    if Accepts(s, idx) {
      SolverReaches(s, idx, NUM_ROUNDS);
    }
    if e :| SolverBuilds(s, e, NUM_ROUNDS) && e.indexTree == idx && AllDistinct(idx) && e.workBits == 0 {
      VerifierRebuilds(s, e, NUM_ROUNDS);
    }
  }
}
