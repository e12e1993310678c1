/** The Merkle branch builder: steps computed without the coinbase, so that folding the
    coinbase hash in gives the Merkle root of the whole block. */
module MerkleTree {
  import opened Numbers
  import opened Wrappers

  type Hash = seq<byte>

  /** The double SHA-256 digest, an arbitrary function here. */
  type Digest = seq<byte> -> Hash

  function MerkleJoin(d: Digest, hash1: Hash, hash2: Hash): Hash { d(hash1 + hash2) }

  // --- The Bitcoin Merkle root ---

  /** An odd level repeats its last node. */
  function Padded(nodes: seq<Hash>): (p: seq<Hash>)
    ensures |p| % 2 == 0
  {
    if |nodes| % 2 == 1 then nodes + [nodes[|nodes| - 1]] else nodes
  }

  function Pairs(d: Digest, nodes: seq<Hash>): (p: seq<Hash>)
    ensures |p| == |nodes| / 2
    decreases |nodes|
  {
    if |nodes| < 2 then [] else [MerkleJoin(d, nodes[0], nodes[1])] + Pairs(d, nodes[2..])
  }

  function MerkleRoot(d: Digest, nodes: seq<Hash>): Hash
    requires |nodes| > 0
    decreases |nodes|
  {
    if |nodes| == 1 then nodes[0] else MerkleRoot(d, Pairs(d, Padded(nodes)))
  }

  /** A level is made of the digests of neighbours, the left one in front. */
  lemma {:induction false} PairsAt(d: Digest, nodes: seq<Hash>, k: nat)
    requires k < |nodes| / 2
    ensures Pairs(d, nodes)[k] == d(nodes[2 * k] + nodes[2 * k + 1])
    decreases |nodes|
  {
    if k > 0 { PairsAt(d, nodes[2..], k - 1); }
  }

  /** The root from the top down: a tree of height `h` over its two halves; if there is nothing for the
      right half, it repeats the left one. */
  function RootOf(d: Digest, nodes: seq<Hash>, h: nat): Hash
    requires 0 < |nodes| <= Pow2(h)
    decreases h
  {
    if h == 0 then nodes[0]
    else
      var half := Pow2(h - 1);
      if |nodes| <= half then d(RootOf(d, nodes, h - 1) + RootOf(d, nodes, h - 1))
      else d(RootOf(d, nodes[..half], h - 1) + RootOf(d, nodes[half..], h - 1))
  }

  lemma {:induction false} PairsConcat(d: Digest, a: seq<Hash>, b: seq<Hash>)
    requires |a| % 2 == 0
    ensures Pairs(d, a + b) == Pairs(d, a) + Pairs(d, b)
    decreases |a|
  {
    hide MerkleJoin;
    if a == [] {
      assert a + b == b;
    } else {
      assert (a + b)[2..] == a[2..] + b;
      PairsConcat(d, a[2..], b);
    }
  }

  lemma PaddedConcat(a: seq<Hash>, b: seq<Hash>)
    requires |a| % 2 == 0 && |b| > 0
    ensures Padded(a) == a && Padded(a + b) == a + Padded(b)
  {
  }

  lemma TwoHalves(d: Digest, a: seq<Hash>, b: seq<Hash>, h: nat)
    requires h > 0 && |a| == Pow2(h - 1) && 0 < |b| <= Pow2(h - 1)
    ensures |a + b| <= Pow2(h)
    ensures RootOf(d, a + b, h) == d(RootOf(d, a, h - 1) + RootOf(d, b, h - 1))
  {
    assert (a + b)[..|a|] == a && (a + b)[|a|..] == b;
  }

  lemma OneHalf(d: Digest, nodes: seq<Hash>, h: nat)
    requires h > 0 && 0 < |nodes| <= Pow2(h - 1)
    ensures |nodes| <= Pow2(h)
    ensures RootOf(d, nodes, h) == d(RootOf(d, nodes, h - 1) + RootOf(d, nodes, h - 1))
  {
  }

  /** Joining the lowest level makes the tree one lower. */
  lemma {:induction false} LevelBelow(d: Digest, nodes: seq<Hash>, h: nat)
    requires 0 < |nodes| <= Pow2(h + 1)
    ensures 0 < |Pairs(d, Padded(nodes))| <= Pow2(h)
    ensures RootOf(d, nodes, h + 1) == RootOf(d, Pairs(d, Padded(nodes)), h)
    decreases h, 1
  {
    hide Pairs, Padded, RootOf, Pow2;
    PaddedLength(d, nodes);
    Pow2Step(h);
    if h == 0 {
      NoBits();
      OnePair(d, nodes, h);
      OneNode(d, Pairs(d, Padded(nodes)), h);
    } else {
      Pow2Step(h - 1);
      if |nodes| <= Pow2(h) {
        LevelBelow(d, nodes, h - 1);
        OneHalf(d, nodes, h + 1);
        OneHalf(d, Pairs(d, Padded(nodes)), h);
      } else {
        BothHalves(d, nodes[..Pow2(h)], nodes[Pow2(h)..], h);
        assert nodes == nodes[..Pow2(h)] + nodes[Pow2(h)..];
      }
    }
  }

  lemma {:induction false} BothHalves(d: Digest, a: seq<Hash>, b: seq<Hash>, h: nat)
    requires h > 0 && |a| == Pow2(h) && 0 < |b| <= Pow2(h)
    ensures |a + b| <= Pow2(h + 1) && 0 < |Pairs(d, Padded(a + b))| <= Pow2(h)
    ensures RootOf(d, a + b, h + 1) == RootOf(d, Pairs(d, Padded(a + b)), h)
    decreases h, 0
  {
    hide Pairs, Padded, RootOf, Pow2;
    Pow2Step(h);
    Pow2Step(h - 1);
    PaddedLength(d, a);
    PaddedLength(d, b);
    LevelBelow(d, a, h - 1);
    LevelBelow(d, b, h - 1);
    PaddedConcat(a, b);
    PairsConcat(d, a, Padded(b));
    TwoHalves(d, a, b, h + 1);
    TwoHalves(d, Pairs(d, a), Pairs(d, Padded(b)), h);
  }

  lemma PaddedLength(d: Digest, nodes: seq<Hash>)
    ensures |Pairs(d, Padded(nodes))| == (|nodes| + 1) / 2
  {
  }

  lemma PairOfTwo(d: Digest, nodes: seq<Hash>)
    requires |nodes| == 2
    ensures Pairs(d, nodes) == [d(nodes[0] + nodes[1])]
  {
    hide Padded;
    assert Pairs(d, nodes[2..]) == [];
  }

  lemma LowestTree(d: Digest, nodes: seq<Hash>, h: nat)
    requires 0 < |nodes| <= 2 && h == 0
    ensures |nodes| <= Pow2(h + 1) && RootOf(d, nodes, h + 1) == d(nodes[0] + nodes[|nodes| - 1])
  {
    hide Pairs, Padded, Pow2;
    Pow2Step(h);
    OneNode(d, nodes, h);
    if |nodes| == 2 {
      OneNode(d, nodes[..1], h);
      OneNode(d, nodes[1..], h);
    }
  }

  lemma OneNode(d: Digest, nodes: seq<Hash>, h: nat)
    requires |nodes| > 0 && h == 0
    ensures Pow2(h) == 1 && (|nodes| == 1 ==> RootOf(d, nodes, h) == nodes[0])
  {
  }

  lemma OnePair(d: Digest, nodes: seq<Hash>, h: nat)
    requires 0 < |nodes| <= 2 && h == 0
    ensures Pairs(d, Padded(nodes)) == [d(nodes[0] + nodes[|nodes| - 1])]
    ensures |nodes| <= Pow2(h + 1) && RootOf(d, nodes, h + 1) == d(nodes[0] + nodes[|nodes| - 1])
  {
    hide Pairs, RootOf, Pow2;
    LowestTree(d, nodes, h);
    PairOfTwo(d, Padded(nodes));
  }

  /** The two statements agree: level by level, and half by half. */
  lemma {:induction false} RootIsTree(d: Digest, nodes: seq<Hash>, h: nat)
    requires 0 < |nodes| <= Pow2(h) && (h > 0 ==> Pow2(h - 1) < |nodes|)
    ensures MerkleRoot(d, nodes) == RootOf(d, nodes, h)
    decreases h
  {
    hide Pairs, Padded;
    if h > 0 {
      LevelBelow(d, nodes, h - 1);
      PaddedLength(d, nodes);
      RootIsTree(d, Pairs(d, Padded(nodes)), h - 1);
    }
  }

  /** The smallest blocks. */
  lemma SmallRoots(d: Digest, a: Hash, b: Hash, c: Hash)
    ensures MerkleRoot(d, [a]) == a
    ensures MerkleRoot(d, [a, b]) == d(a + b)
    ensures MerkleRoot(d, [a, b, c]) == d(d(a + b) + d(c + c))
  {
    assert Pow2(0) == 1 && Pow2(1) == 2 && Pow2(2) == 4;
    RootIsTree(d, [a, b], 1);
    RootIsTree(d, [a, b, c], 2);
    assert [a, b, c][..2] == [a, b] && [a, b, c][2..] == [c];
    assert [a, b][..1] == [a] && [a, b][1..] == [b];
  }

  // --- Branch steps ---

  /** The nodes behind the still unknown first one, one level up. */
  function NextRest(d: Digest, rest: seq<Hash>): (r: seq<Hash>)
    requires |rest| > 0
    ensures |r| == |rest| / 2
  {
    Pairs(d, Behind(rest))
  }

  /** The nodes that are joined with each other: all but the first, padded with the last. */
  function Behind(rest: seq<Hash>): (b: seq<Hash>)
    requires |rest| > 0
    ensures |b| == |rest| / 2 * 2
  {
    if |rest| % 2 == 0 then rest[1..] + [rest[|rest| - 1]] else rest[1..]
  }

  /** The hash that the first node of each level is joined with, bottom up. */
  function StepsOf(d: Digest, rest: seq<Hash>): seq<Hash>
    decreases |rest|
  {
    if |rest| == 0 then [] else [rest[0]] + StepsOf(d, NextRest(d, rest))
  }

  function Fold(d: Digest, first: Hash, steps: seq<Hash>): Hash
    decreases |steps|
  {
    if |steps| == 0 then first else Fold(d, MerkleJoin(d, first, steps[0]), steps[1..])
  }

  /** Folding any coinbase into the steps gives the root of the full list. */
  lemma {:induction false} FoldIsRoot(d: Digest, first: Hash, rest: seq<Hash>)
    ensures Fold(d, first, StepsOf(d, rest)) == MerkleRoot(d, [first] + rest)
    decreases |rest|
  {
    if |rest| > 0 {
      var nodes := [first] + rest;
      var next := NextRest(d, rest);
      var behind := Behind(rest);
      assert Padded(nodes) == [first, rest[0]] + behind;
      assert Padded(nodes)[2..] == behind;
      assert Pairs(d, Padded(nodes)) == [MerkleJoin(d, first, rest[0])] + next;
      FoldIsRoot(d, MerkleJoin(d, first, rest[0]), next);
      var steps := StepsOf(d, rest);
      assert steps[0] == rest[0] && steps[1..] == StepsOf(d, next);
    }
  }

  /** There are as many steps as the tree has levels above the leaves: the least `s` with
      `n + 1 <= 2^s`. */
  lemma {:induction false} StepCount(d: Digest, rest: seq<Hash>)
    ensures |rest| + 1 <= Pow2(|StepsOf(d, rest)|)
    ensures forall s: nat :: |rest| + 1 <= Pow2(s) ==> |StepsOf(d, rest)| <= s
    decreases |rest|
  {
    var c := |StepsOf(d, rest)|;
    if |rest| > 0 {
      StepCount(d, NextRest(d, rest));
      forall s: nat | |rest| + 1 <= Pow2(s) ensures c <= s {
        assert s > 0;
        assert |NextRest(d, rest)| + 1 <= Pow2(s - 1);
      }
    }
  }

  // --- The class ---

  class MerkleTree {
    const digest: Digest
    var Steps: seq<Hash>

    constructor (digest: Digest, hashList: seq<Hash>)
      ensures this.digest == digest && Steps == StepsOf(digest, hashList)
    {
      this.digest := digest;
      Steps := [];
      new;
      var steps := CalculateSteps(digest, hashList);
      Steps := steps;
    }

    static method CalculateSteps(digest: Digest, hashList: seq<Hash>) returns (steps: seq<Hash>)
      ensures steps == StepsOf(digest, hashList)
    {
      hide Pairs, MerkleJoin, NextRest, StepsOf, Behind;
      steps := [];
      var L: seq<Option<Hash>> := [None] + seq(|hashList|, i requires 0 <= i < |hashList| => Some(hashList[i]));
      var Ll := |L|;
      ghost var rest := hashList;
      if Ll > 1 {
        while Ll != 1
          invariant Ll == |L| && Holds(L, 1, rest)
          invariant steps + StepsOf(digest, rest) == StepsOf(digest, hashList)
          decreases Ll
        {
          StepsStep(digest, rest);
          steps := steps + [L[1].value];
          PaddedHolds(L, rest);
          if Ll % 2 == 1 {
            L := L + [L[|L| - 1]];
          }
          var Ld := JoinPairs(digest, L, Ll, Behind(rest));
          PairsHold(digest, Behind(rest), Ld);
          rest := NextRest(digest, rest);
          L := [None] + Ld;
          Ll := |L|;
        }
      }
      NoSteps(digest, rest);
    }

    /** The inner loop, which joins the nodes from index 2 on in pairs. */
    static method JoinPairs(digest: Digest, L: seq<Option<Hash>>, Ll: nat, ghost behind: seq<Hash>)
      returns (Ld: seq<Option<Hash>>)
      requires |behind| % 2 == 0 && (Ll == 2 + |behind| || Ll == 1 + |behind|)
      requires Holds(L, 2, behind)
      ensures |Ld| == |behind| / 2
      ensures forall k :: 0 <= k < |Ld| ==> Ld[k] == Some(MerkleJoin(digest, behind[2 * k], behind[2 * k + 1]))
    {
      Ld := [];
      var i := 2;
      while i < Ll
        invariant i == 2 * |Ld| + 2 <= |L|
        invariant forall k :: 0 <= k < |Ld| ==> Ld[k] == Some(MerkleJoin(digest, behind[2 * k], behind[2 * k + 1]))
      {
        assert L[2 + (i - 2)] == Some(behind[i - 2]) && L[2 + (i - 1)] == Some(behind[i - 1]);
        Ld := Ld + [Some(MerkleJoin(digest, L[i].value, L[i + 1].value))];
        i := i + 2;
      }
    }

    method WithFirst(first: Hash) returns (root: Hash)
      ensures root == Fold(digest, first, Steps)
    {
      root := first;
      for k := 0 to |Steps|
        invariant Fold(digest, root, Steps[k..]) == Fold(digest, first, Steps)
      {
        root := digest(root + Steps[k]);
      }
    }
  }

  /** The list holds the nodes `s` from index `o` on; index 0 is the null of the first node. */
  ghost predicate Holds(L: seq<Option<Hash>>, o: nat, s: seq<Hash>) {
    |L| == o + |s| && forall k {:trigger s[k]} :: 0 <= k < |s| ==> L[o + k] == Some(s[k])
  }

  /** Padding the list pads the nodes that are joined. */
  lemma PaddedHolds(L: seq<Option<Hash>>, rest: seq<Hash>)
    requires |rest| > 0 && Holds(L, 1, rest)
    ensures L[1] == Some(rest[0])
    ensures Holds(if |L| % 2 == 1 then L + [L[|L| - 1]] else L, 2, Behind(rest))
  {
    hide Pairs, RootOf, MerkleRoot, StepsOf;
    assert L[1 + 0] == Some(rest[0]);
    var P := if |L| % 2 == 1 then L + [L[|L| - 1]] else L;
    forall k | 0 <= k < |Behind(rest)| ensures P[2 + k] == Some(Behind(rest)[k]) {
      if k + 1 < |rest| {
        assert L[1 + (k + 1)] == Some(rest[k + 1]);
      } else {
        assert L[1 + (|rest| - 1)] == Some(rest[|rest| - 1]);
      }
    }
  }

  lemma PairsHold(d: Digest, behind: seq<Hash>, Ld: seq<Option<Hash>>)
    requires |behind| % 2 == 0 && |Ld| == |behind| / 2
    requires forall k :: 0 <= k < |Ld| ==> Ld[k] == Some(MerkleJoin(d, behind[2 * k], behind[2 * k + 1]))
    ensures Holds([None] + Ld, 1, Pairs(d, behind))
  {
    hide Pairs;
    forall k | 0 <= k < |Pairs(d, behind)| ensures ([None] + Ld)[1 + k] == Some(Pairs(d, behind)[k]) {
      PairsAt(d, behind, k);
      assert ([None] + Ld)[1 + k] == Ld[k];
    }
  }

  lemma StepsStep(d: Digest, rest: seq<Hash>)
    requires |rest| > 0
    ensures StepsOf(d, rest) == [rest[0]] + StepsOf(d, NextRest(d, rest))
    ensures NextRest(d, rest) == Pairs(d, Behind(rest))
  {
  }

  lemma NoSteps(d: Digest, rest: seq<Hash>)
    ensures |rest| == 0 ==> StepsOf(d, rest) == []
  {
  }

  /** Building the tree from the transactions and folding the coinbase in is the Merkle root of
      the block. */
  method BlockRoot(digest: Digest, hashList: seq<Hash>, coinbase: Hash) returns (root: Hash)
    ensures root == MerkleRoot(digest, [coinbase] + hashList)
  {
    var tree := new MerkleTree(digest, hashList);
    root := tree.WithFirst(coinbase);
    FoldIsRoot(digest, coinbase, hashList);
  }
}
