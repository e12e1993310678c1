/** The end of the recreate phase in bytes: the rows of the top slot are packed into solutions, and
    `validBlock` decides on each. */
module EquihashSolutions {
  import opened Numbers
  import opened Radix
  import opened BitPacking
  import opened IndexCodec
  import opened EquihashTree
  import opened EquihashRows
  import opened EquihashVerifier
  import opened EquihashRecreate
  import opened EquihashComplete
  import opened Wrappers

  // --- One row ---

  /** `soln` is the row's index list, packed. */
  ghost predicate RowPacks(p: Params, h: HashBytes, row: Row, soln: seq<byte>) {
    exists idx :: Stands(p, h, row, idx, p.k) && Packs(p, idx, soln)
  }

  ghost predicate PackedFrom(p: Params, h: HashBytes, rows: seq<Row>, soln: seq<byte>) {
    exists row :: row in rows && RowPacks(p, h, row, soln)
  }

  lemma SameIndices(row: Row, len: nat, idx: seq<nat>, jdx: seq<nat>)
    requires HoldsIndices(row, len, idx) && HoldsIndices(row, len, jdx) && |idx| == |jdx|
    ensures idx == jdx
  {
    hide HoldsIndices, IndexBytes, EhIndexToArray, ArrayToEhIndex;
    forall k: nat | k < |idx|
      ensures idx[k] == jdx[k]
    {
      IndexInRow(row, len, idx, k);
      IndexInRow(row, len, jdx, k);
      IndexAt(row, len, idx, k);
      IndexAt(row, len, jdx, k);
    }
  }

  lemma IndexAt(row: Row, len: nat, idx: seq<nat>, k: nat)
    requires HoldsIndices(row, len, idx) && k < |idx|
    ensures ArrayToEhIndex(EhIndexToArray(idx[k])) == idx[k]
  {
    hide IndexBytes, EhIndexToArray, ArrayToEhIndex;
    IndexRoundTrip(idx[k]);
  }

  lemma PacksLength(p: Params, idx: seq<nat>, soln: seq<byte>)
    requires p.Valid() && |idx| == Pow2(p.k) && Packs(p, idx, soln)
    ensures |soln| == p.SolutionWidth()
  {
    hide Pow2, Width, Compressed, Truncated, FitsAccumulator, Params.Valid, Params.CollisionBitLength,
      Params.SolutionWidth;
    PackedWidth(p, |idx|);
    WidthIsProduct(p.CollisionBitLength() + 1, |idx|);
  }

  /** A row packs into one solution only. */
  lemma OnlyOnePacked(p: Params, h: HashBytes, row: Row, idx: seq<nat>, soln: seq<byte>, other: seq<byte>)
    requires p.Valid() && Stands(p, h, row, idx, p.k) && Packs(p, idx, soln) && RowPacks(p, h, row, other)
    ensures soln == other
  {
    hide Stands, Packs, HoldsIndices, Pow2, HashLen, Params.Valid, Params.SolutionWidth;
    var jdx :| Stands(p, h, row, jdx, p.k) && Packs(p, jdx, other);
    StandsFor(p, h, row, idx, p.k);
    StandsFor(p, h, row, jdx, p.k);
    SameIndices(row, HashLen(p, p.k), idx, jdx);
    PacksLength(p, idx, soln);
    PacksLength(p, idx, other);
    SamePacked(p, idx, soln, other);
  }

  lemma SamePacked(p: Params, idx: seq<nat>, soln: seq<byte>, other: seq<byte>)
    requires Packs(p, idx, soln) && Packs(p, idx, other) && |soln| == |other|
    ensures soln == other
  {
    hide Compressed, Truncated, Width, Params.CollisionBitLength;
  }

  // --- All rows ---

  /** The set of solutions that the rows of the top slot pack into. */
  method TopSolutions(p: Params, gen: nat -> seq<byte>, top: seq<Row>, hashLen: nat, lenIndices: nat)
    returns (solns: set<seq<byte>>)
    requires p.Valid() && GeneratorOk(p, gen) && AllGood(p, Hashes(p, gen), top, p.k)
    requires hashLen == HashLen(p, p.k) && lenIndices == 4 * Pow2(p.k)
    ensures forall soln :: soln in solns <==> PackedFrom(p, Hashes(p, gen), top, soln)
  {
    hide GoodRow, Stands, RowPacks, PackedFrom, HoldsIndices, Packs, Hashes, GeneratorOk, HashLen, Pow2, Params.Valid,
      Params.SolutionWidth;
    ghost var h := Hashes(p, gen);
    solns := {};
    NonePacked(p, h);
    for i := 0 to |top|
      invariant forall soln :: soln in solns <==> PackedFrom(p, h, top[..i], soln)
    {
      var row := top[i];
      ghost var idx := Indices(p, h, row);
      var soln := GetIndices(p, row, hashLen, lenIndices, idx);
      PacksIndices(p, idx, soln);
      OneMorePacked(p, h, top[..i], row, idx, soln);
      assert top[..i + 1] == top[..i] + [row];
      solns := solns + {soln};
    }
    assert top[..|top|] == top;
  }

  lemma NonePacked(p: Params, h: HashBytes)
    ensures forall soln :: !PackedFrom(p, h, [], soln)
  {
  }

  lemma Indices(p: Params, h: HashBytes, row: Row) returns (idx: seq<nat>)
    requires GoodRow(p, h, row, p.k)
    ensures Stands(p, h, row, idx, p.k) && |idx| == Pow2(p.k) && HoldsIndices(row, HashLen(p, p.k), idx)
  {
    hide Stands, HoldsIndices, HashLen, Pow2;
    idx :| Stands(p, h, row, idx, p.k);
    StandsFor(p, h, row, idx, p.k);
  }

  lemma PacksIndices(p: Params, idx: seq<nat>, soln: seq<byte>)
    requires Width(p.CollisionBitLength() + 1, |idx|) == 8 * |soln|
    requires soln == Compressed(Truncated(idx, p.CollisionBitLength() + 1), p.CollisionBitLength() + 1, |soln|)
    ensures Packs(p, idx, soln)
  {
    hide Compressed, Truncated, Width, Params.CollisionBitLength;
  }

  lemma OneMorePacked(p: Params, h: HashBytes, rows: seq<Row>, row: Row, idx: seq<nat>, soln: seq<byte>)
    requires p.Valid() && Stands(p, h, row, idx, p.k) && Packs(p, idx, soln)
    ensures forall s :: PackedFrom(p, h, rows + [row], s) <==> PackedFrom(p, h, rows, s) || s == soln
  {
    hide Stands, Packs, RowPacks, Params.Valid;
    RowPacksIt(p, h, row, idx, soln);
    forall s
      ensures PackedFrom(p, h, rows + [row], s) <==> PackedFrom(p, h, rows, s) || s == soln
    {
      if RowPacks(p, h, row, s) {
        OnlyOnePacked(p, h, row, idx, soln, s);
      }
      assert row in rows + [row] && forall x :: x in rows ==> x in rows + [row];
    }
  }

  lemma RowPacksIt(p: Params, h: HashBytes, row: Row, idx: seq<nat>, soln: seq<byte>)
    requires Stands(p, h, row, idx, p.k) && Packs(p, idx, soln)
    ensures RowPacks(p, h, row, soln)
  {
    hide Stands, Packs;
  }

  // --- One truncated solution ---

  /** What the recreate loop makes of a truncated solution: nothing, if one of its leaves fails, else
      what the rows of the top slot pack into. */
  ghost predicate SolutionsOf(p: Params, h: HashBytes, partial: seq<byte>, solns: set<seq<byte>>) {
    p.CollisionBitLength() >= 7 && exists trace :: SolutionsVia(p, h, partial, trace, solns)
  }

  ghost predicate SolutionsVia(p: Params, h: HashBytes, partial: seq<byte>, trace: seq<seq<Option<seq<Row>>>>,
                               solns: set<seq<byte>>)
    requires p.CollisionBitLength() >= 7
  {
    && Recreated(p, h, partial, trace)
    && if |trace| <= |partial| then LeafFails(p, h, partial, trace[|trace| - 1], |trace| - 1) && solns == {}
       else
         var X := trace[|partial|];
         && |X| == p.k + 1 && X[p.k].Some? && AllGood(p, h, X[p.k].value, p.k)
         && forall soln :: soln in solns <==> PackedFrom(p, h, X[p.k].value, soln)
  }

  method SolutionsFrom(p: Params, gen: nat -> seq<byte>, partial: seq<byte>) returns (solns: set<seq<byte>>)
    requires p.Valid() && GeneratorOk(p, gen) && |partial| == Pow2(p.k)
    ensures SolutionsOf(p, Hashes(p, gen), partial, solns)
  {
    hide AllGood, Recreated, LeafFails, PackedFrom, Hashes, GeneratorOk, HashLen, Pow2, Params.Valid,
      Params.CollisionBitLength;
    ghost var trace;
    var top, hashLen, lenIndices;
    top, hashLen, lenIndices, trace := Recreate(p, gen, partial);
    if top == None {
      solns := {};
    } else {
      solns := TopSolutions(p, gen, top.value, hashLen, lenIndices);
    }
    assert SolutionsVia(p, Hashes(p, gen), partial, trace, solns);
  }

  /** `soln` is what the verifier accepts. */
  ghost predicate Accepted(p: Params, gen: nat -> seq<byte>, soln: seq<byte>)
    requires p.Valid() && GeneratorOk(p, gen)
  {
    |soln| == p.SolutionWidth() && Solution(p, gen, Expanded(soln, p.CollisionBitLength() + 1))
  }

  /** The truncations of the indices in `soln` are `partial`. */
  ghost predicate Truncates(p: Params, soln: seq<byte>, partial: seq<byte>)
    requires p.Valid()
  {
    p.CollisionBitLength() >= 7 && Refines(p, Expanded(soln, p.CollisionBitLength() + 1), partial)
  }

  lemma ExpandedPacks(p: Params, soln: seq<byte>)
    requires p.Valid() && |soln| == p.SolutionWidth()
    ensures Packs(p, Expanded(soln, p.CollisionBitLength() + 1), soln)
  {
    hide Pow2, Width, Compressed, Expanded, FitsAccumulator, Params.Valid, Params.CollisionBitLength,
      Params.SolutionWidth;
    var bitLen := p.CollisionBitLength() + 1;
    SolutionLengths(p, |soln|);
    BytesBelow(soln);
    PackUnpack(soln, bitLen);
    ExpandedBelow(soln, bitLen);
    TruncatedInRange(Expanded(soln, bitLen), bitLen);
  }

  /** Every accepted solution is among the bytes that its truncated indices are recreated to. */
  lemma AcceptedBytesAreRecreated(p: Params, gen: nat -> seq<byte>, soln: seq<byte>, partial: seq<byte>,
                                  solns: set<seq<byte>>)
    requires p.Valid() && GeneratorOk(p, gen) && Accepted(p, gen, soln) && Truncates(p, soln, partial)
    requires SolutionsOf(p, Hashes(p, gen), partial, solns)
    ensures soln in solns
  {
    hide LeafFails, LeafAdded, Refines, Solution, Hashes, GeneratorOk, Stands, Packs, AllGood, Expanded, HashLen, Pow2,
      Params.Valid, Params.CollisionBitLength, Params.SolutionWidth;
    var h, idx := Hashes(p, gen), Expanded(soln, p.CollisionBitLength() + 1);
    var trace: seq<seq<Option<seq<Row>>>> :| SolutionsVia(p, h, partial, trace, solns);
    SolutionIsTarget(p, gen, idx, partial);
    SolutionIsRecreated(p, h, partial, trace, idx);
    ExpandedPacks(p, soln);
    var row :| row in trace[|partial|][p.k].value && Stands(p, h, row, idx, p.k);
    RowPacksIt(p, h, row, idx, soln);
  }

  lemma SolutionIsTarget(p: Params, gen: nat -> seq<byte>, idx: seq<nat>, partial: seq<byte>)
    requires p.Valid() && GeneratorOk(p, gen) && Solution(p, gen, idx)
    requires p.CollisionBitLength() >= 7 && Refines(p, idx, partial)
    ensures Target(p, Hashes(p, gen), partial, idx)
  {
    hide Refines, TreeOk, ChunkZero, Hashes, GeneratorOk, FitsAccumulator, WidthBytes, Pow2, Params.Valid,
      Params.CollisionBitLength, Params.IndexLimit;
    ValidWidths(p);
  }

  /** And all of those bytes are a tree of colliding hashes: what the verifier checks beyond that is
      the range of the indices and the last chunk. */
  lemma RecreatedBytesAreTrees(p: Params, gen: nat -> seq<byte>, soln: seq<byte>, partial: seq<byte>,
                               solns: set<seq<byte>>)
    requires p.Valid() && GeneratorOk(p, gen) && SolutionsOf(p, Hashes(p, gen), partial, solns) && soln in solns
    ensures |soln| == p.SolutionWidth()
    ensures var idx := Expanded(soln, p.CollisionBitLength() + 1);
      && TreeOk(Hashes(p, gen), p.CollisionByteLength(), idx, p.k)
      && (Accepted(p, gen, soln) <==>
            && (forall i :: 0 <= i < |idx| ==> idx[i] < p.IndexLimit())
            && ChunkZero(Hashes(p, gen), p.CollisionByteLength(), idx, p.k))
  {
    hide LeafFails, Recreated, TreeOk, ChunkZero, Hashes, GeneratorOk, Represents, Below, Packs, AllGood, Expanded,
      HashLen, WidthBytes, Pow2, Params.Valid, Params.CollisionBitLength, Params.SolutionWidth, Params.IndexLimit;
    var h := Hashes(p, gen);
    var trace: seq<seq<Option<seq<Row>>>> :| SolutionsVia(p, h, partial, trace, solns);
    var row :| row in trace[|partial|][p.k].value && RowPacks(p, h, row, soln);
    var idx :| Stands(p, h, row, idx, p.k) && Packs(p, idx, soln);
    RecreatedRowAccepted(p, gen, row, idx, soln);
    StandsFor(p, h, row, idx, p.k);
    PacksLength(p, idx, soln);
  }

  // --- All truncated solutions ---

  ghost predicate HasApproved(solns: set<seq<byte>>, validBlock: seq<byte> -> bool) {
    exists soln :: soln in solns && validBlock(soln)
  }

  /** The truncated solutions are tried in order, up to the first with an approved solution. */
  ghost predicate Tried(p: Params, h: HashBytes, partials: seq<seq<byte>>, validBlock: seq<byte> -> bool,
                        tried: seq<set<seq<byte>>>, found: bool) {
    && |tried| <= |partials| && (!found ==> |tried| == |partials|) && (found ==> tried != [])
    && forall i :: 0 <= i < |tried| ==>
         && SolutionsOf(p, h, partials[i], tried[i])
         && (HasApproved(tried[i], validBlock) <==> found && i == |tried| - 1)
  }

  /** The loop over the set of solutions. */
  method AnyApproved(solns: set<seq<byte>>, validBlock: seq<byte> -> bool) returns (found: bool)
    ensures found <==> HasApproved(solns, validBlock)
  {
    var rest := solns;
    while rest != {}
      invariant rest <= solns && forall soln :: soln in solns && soln !in rest ==> !validBlock(soln)
      decreases |rest|
    {
      var soln :| soln in rest;
      if validBlock(soln) { return true; }
      rest := rest - {soln};
    }
    return false;
  }

  /** The last phase of the solver. */
  method RecreateSolutions(p: Params, gen: nat -> seq<byte>, partials: seq<seq<byte>>, validBlock: seq<byte> -> bool)
    returns (found: bool, ghost tried: seq<set<seq<byte>>>)
    requires p.Valid() && GeneratorOk(p, gen) && forall i :: 0 <= i < |partials| ==> |partials[i]| == Pow2(p.k)
    ensures Tried(p, Hashes(p, gen), partials, validBlock, tried, found)
  {
    hide SolutionsOf, HasApproved, Hashes, GeneratorOk, Pow2, Params.Valid;
    tried := [];
    for i := 0 to |partials|
      invariant |tried| == i && Tried(p, Hashes(p, gen), partials[..i], validBlock, tried, false)
    {
      var solns := SolutionsFrom(p, gen, partials[i]);
      tried := tried + [solns];
      var approved := AnyApproved(solns, validBlock);
      if approved { return true, tried; }
    }
    assert partials[..|partials|] == partials;
    return false, tried;
  }

  /** The phase succeeds only with an approved tree of colliding hashes, and it does succeed if an
      accepted solution is approved whose truncated indices were given. */
  lemma RecreatedMeans(p: Params, gen: nat -> seq<byte>, partials: seq<seq<byte>>, validBlock: seq<byte> -> bool,
                       tried: seq<set<seq<byte>>>, found: bool)
    requires p.Valid() && GeneratorOk(p, gen) && Tried(p, Hashes(p, gen), partials, validBlock, tried, found)
    ensures found ==> exists soln: seq<byte> ::
              && |soln| == p.SolutionWidth() && validBlock(soln)
              && TreeOk(Hashes(p, gen), p.CollisionByteLength(), Expanded(soln, p.CollisionBitLength() + 1), p.k)
    ensures (exists soln: seq<byte>, i :: 0 <= i < |partials| && validBlock(soln) && Accepted(p, gen, soln)
                               && Truncates(p, soln, partials[i])) ==> found
  {
    hide SolutionsOf, Accepted, Truncates, TreeOk, Hashes, GeneratorOk, Expanded, Params.Valid,
      Params.CollisionBitLength, Params.SolutionWidth;
    if found {
      var i := |tried| - 1;
      var soln :| soln in tried[i] && validBlock(soln);
      RecreatedBytesAreTrees(p, gen, soln, partials[i], tried[i]);
    } else {
      forall soln: seq<byte>, i | 0 <= i < |partials| && Accepted(p, gen, soln) && Truncates(p, soln, partials[i])
        ensures !validBlock(soln)
      {
        AcceptedBytesAreRecreated(p, gen, soln, partials[i], tried[i]);
        assert !HasApproved(tried[i], validBlock);
      }
    }
  }
}
