# Miningcore: verified models

Dafny models of the parts of Miningcore where a mistake is hard to see: the Equihash and BeamHash III
proof-of-work code, exact rational arithmetic, Merkle branches, the RandomX machine pool, variable
difficulty, the payout ledger, share recovery, and the framing of stratum connections. Each model takes
the same branches, in the same order, as the code it cites, and is proved against an independent
statement of what that code is for. Where a contract names a function of the model, lemmas say what that
function is in plain arithmetic or in terms of characters, bytes and bits, with the constants written out.
`dafny verify dfyconfig.toml` checks everything.

## What is modelled

**Equihash, Beam's variant** (`Numbers`, `Radix`, `BitPacking`, `AccumulatorWidth`, `IndexCodec`,
`EquihashTree`, `EquihashRows`, `EquihashVerifier`, `EquihashCollide`, `EquihashRecreate`,
`EquihashComplete`, `EquihashSolutions`, `EquihashLeaves`). Parametrised
over n, k and r; the repository's two instantiations are shown to be admissible. Machine words are
natural numbers with explicit 32-bit wrap-around. Bits and bytes are related by `Val` and `Digits`, the
value of a digit sequence and the digits of a value. The generator (`GenerateHash`, blake2b) is an
arbitrary function from a hash index to bytes. The central predicate is `TreeOk`, the condition of the
generalized birthday problem together with the algorithm binding condition, as in section 7.7.1
(Equihash) of the Zcash Protocol Specification; the verifier is proved to decide it, and accepted
solutions are proved canonical; `EquihashLeaves` says which bits of which output of the generator the hash of
an index is. On the solver's side, the in-place join and the binary counter of the
recreate phase are proved, and that the recreate phase, down to the bytes it offers to `validBlock`, finds
every solution with the truncations it is given.

**BeamHash III** (`BeamTree`, `BeamHashIII`, `BeamWords`, `BeamSolver`). The tree argument is generic in how
leaves are made and how work bits are mixed; `BeamHashIII` supplies the siphash leaves and the mixing
function and proves the verifier's loops; `BeamWords` says what they do to bits and words; `BeamSolver` is
the whole solver. Its outcome is the one that the lists of its rounds determine; for a `validBlock` that
approves accepted solutions only, it finds one if and only if there is one that is approved. Siphash and
blake2b are arbitrary functions.

**Exact arithmetic** (`Divisibility`, `Fractions`, `BigRational`, `DecimalConversion`). A rational is a
pair in lowest terms with a positive denominator (a subset type, so every operator's result is), and
`Val` is the real number it stands for. Integer division is the truncating division of .NET.

**Merkle branches** (`MerkleTree`), against the Merkle root of the Bitcoin protocol specification: odd
levels duplicate their last node. The root is stated twice, level by level and from the top down. The digest
is an arbitrary function.

**RandomX machine pool** (`RandomXVm`, `RandomXPool`, `RandomXLeases`, `RandomXLosses`). The objects that
own native memory are classes over a native library that logs what is released. The pool is a step relation:
any number of threads create seeds (holding the lock while they build machines), look seeds up, lease, hash,
return and delete. A look-up of a missing seed leaves the thread idle: the caller gets an exception because
the missing pair is taken apart. The lock is re-entrant, and `CryptonoteJobManager.cs:140-148` deletes one
seed and creates the next inside `WithLock`, so that a deletion can wait for machines while it holds the
lock. The model does not hold the lock across the two: its runs interleave more finely, and those runs are
among them.

**Variable difficulty** (`VarDiff`, `VarDiffRules`, `VarDiffRuns`, `VarDiffStale`). The context and the
worker are classes whose methods are proved against functions on their values. Doubles are exact reals, with
infinities and NaN where a zero average produces them. Runs assume that timestamps do not decrease in the
order in which the lock is taken; `Update` reads the clock before it takes the lock, so this is an
assumption about the clock and the scheduler. The difficulty that an update starts from is read before the
lock as well; that is a separate step. Shares of one connection are handled one after the other, so what
overlaps is a share and an idle sweep; the lemmas about all runs allow any number of threads. `VarDiffRules`
says when an update changes the difficulty, and to what. `VarDiffStale` builds its executions from a new
worker on, step by step.

**Payout ledger** (`Payouts`, `PayoutRuns`). Database, transactions and the loops over blocks,
recipients and balances are imperative; a transaction fails after an arbitrary number of calls, or at its
commit, and then leaves the store as it was. Runs interleave passes, new blocks and payments. The classifier
of a payout handler is abstract and may return any list of blocks; what depends on its returning pending
blocks, each once, is stated for runs that keep this promise. Payout schemes turn a block and its remaining
reward into a list of credits.

**Share recovery** (`ShareRecovery` for the import, `ShareFallback` for recording and the recovery file,
`ShareTornWrites` for writes that stop half-way). Texts are sequences of characters, split and trimmed as the
readers of .NET do. Serialiser and parser are parameters: a serialised share is one line holding a JSON
object, and parsing it gives the share back. For torn writes it is also assumed that the parser rejects a
record, whole or cut off, with another one behind it on the same line.

**Stratum framing** (`StratumFraming`). The receive loop over arbitrary chunks, with a request handler
that may throw and a proxy header that may be rejected.

`Wrappers` declares the one `Option` type, and `Sequences` has two facts about multiplicities.

## Where the code falls short of what it seems to promise

- `ExpandArray` and `CompressArray` assert only that the element width is between 8 and 32 bits. Of the
  widths up to 31, the 32-bit accumulator loses bits for 27, 29, 30 and 31, and for no others
  (`ExpandsExactlyWhen`, `CompressesExactlyWhen`). The repository uses 25 and 26.
- BeamHash III's solver does not end, unless it is cancelled, when a round leaves no element: the bound of
  the next match loop, the size less one, wraps around (`beamHashIII_imp.cpp:374`, `:416`). The model's
  outcome is then `Endless`. That happens exactly when a list that is to be matched is empty (`IsOutcome`,
  which `OptimisedSolve` ensures), and only if there is no solution that the verifier would accept
  (`OutcomeMeans`).
- `MaxDelta` limits the change from the difficulty that an update read, not from the one it replaces. An
  idle sweep that read the difficulty before a share's change was applied can exceed it
  (`StaleSampleOvershoots`). For any two difficulties in range there is an execution of a new worker in which
  a difficulty computed from the one replaces the other and changes it by more than `MaxDelta`, if and only
  if a proposal from the one can reach that far (`StaleStepsExactly`). `QuietStepIsLimited`: there is no such
  step while no update is between its read and its enqueuing.
- The length check of the receive loop applies to everything unread, not to a line, so whether a
  connection survives depends on how bytes arrive (`ArrivalMatters`). `SurvivesExactlyWhen`,
  `EveryChunkingFitsIff` and `SomeChunkingFitsIff` give the exact conditions.
- A recovery import commits its buffer only when it holds exactly 100 shares. After a failed commit it
  tries again only if the next record does not parse (`RetriedExactlyWhen`); otherwise the buffer outgrows
  the batch and everything hangs on the last commit (`Outgrown`). In a file without malformed records the
  first failed commit of a full batch therefore decides: what was stored before it stays, and all the rest
  is stored together by one more commit or not at all (`StoredExactly`). A written file of more than 100
  shares whose first commit fails is all or nothing (`OneFailureHoldsUpAll`).
- A batch of shares is lost, and nobody is told, when the database is unreachable and the recovery file
  cannot be written either (`ShareFallback.LostExactlyWhen`, `LosesABatch`).
- A fallback write that stops within a line swallows the first share of the next batch too, which is appended
  to that line: the import gets the whole lines of the one batch and all but the first share of the other,
  and counts one malformed record (`TornWriteSwallowsShare`). If it stops within a line of the header, the share
  becomes a part of the comment and is not even counted (`TornHeaderSwallowsShare`).
- A pass over pending blocks credits a block once for every entry that confirms it; the store does not
  check that the block is still pending (`PassCreditsEveryEntry`). A pass leaves a block credited at most once
  if and only if its list confirms the block at most once, and not at all if it was credited before
  (`PassCreditsOnceExactly`, `PassAfterPromiseExactly`); `CreditedTwice` is a run with a list that has a block
  twice, whose reward is credited twice. This is a gap of the interface between the payout manager and the
  handlers: each of the handlers' `ClassifyBlocksAsync` lists a block that it is given at most once.
- A hash request that found its seed can wait forever. It still gets a machine if and only if not all
  machines of its generation are disposed or about to be (`LeasesUnlessDead`); that happens to a generation
  in use only if it was created without machines, and to one being deleted from the moment its last machine
  is taken (`DeadExactly`). `LookUpBeforeDeletion` and `LookUpWithoutMachines` are such runs.
- Creating a seed drops the machines it has already built when a later one cannot be built, and nothing ever
  disposes them (`MachinesAreAccountedFor`, `RandomXLosses.LostExactlyWhen`; `OneIsLost`). Once all seeds
  are deleted, every machine ever built has been disposed if and only if no creation failed that late
  (`AllDisposedExactlyWhen`).

## Model

| member | source | states |
|---|---|---|
| BitPacking.ExpandArray | src/Native/libbeamhash/equihashR_imp.cpp:106-150 | Writes stay in front of `out_len`; the output is what the 32-bit accumulator loop takes out, and for widths that fit it is the elements of the bit stream, big-endian, padded |
| BitPacking.CompressArray | src/Native/libbeamhash/equihashR_imp.cpp:152-200 | Writes stay in front of `out_len`; for widths that fit the output is the bit stream of the stored elements, filled up with zero bits |
| BitPacking.WriteElement | src/Native/libbeamhash/equihashR_imp.cpp:134-146 | The two inner loops append one serialised element and touch nothing behind it |
| BitPacking.ReadElement | src/Native/libbeamhash/equihashR_imp.cpp:178-186 | The masked OR loop shifts the accumulator and adds the low `bit_len` bits of the stored element |
| BitPacking.ExpandLoop | src/Native/libbeamhash/equihashR_imp.cpp:121-149 | As many elements as whole fit the input are written, the rest of the output is unchanged |
| BitPacking.CompressLoop | src/Native/libbeamhash/equihashR_imp.cpp:169-199 | The loop writes exactly the bytes of the accumulator run over all elements |
| BitPacking.ExpandStepsFill | src/Native/libbeamhash/equihashR_imp.cpp:123-133 | The fill level stays below one element, and when the width fits the word no live bit is dropped |
| BitPacking.RoomForByte | src/Native/libbeamhash/equihashR_imp.cpp:125-126 | With bit_len + 8 - gcd(8, bit_len) <= 32 the accumulator has room for the next byte |
| BitPacking.RoomForElement | src/Native/libbeamhash/equihashR_imp.cpp:173-188 | Under the same condition it has room for the next element |
| AccumulatorWidth.ExpandHolds32Bits | src/Native/libbeamhash/equihashR_imp.cpp:118-126 | The accumulator is the last 32 bits of the stream, whatever the width |
| AccumulatorWidth.ExpandsExactlyWhen | src/Native/libbeamhash/equihashR_imp.cpp:110-149 | Expansion takes out the elements of every input if and only if the width fits |
| AccumulatorWidth.CompressesExactlyWhen | src/Native/libbeamhash/equihashR_imp.cpp:156-199 | Compression writes the stream of all elements if and only if the width fits |
| IndexCodec.UnpackPack | src/Native/libbeamhash/equihashR_imp.cpp:106-200 | Expanding a compressed exact-fit list gives the list back |
| IndexCodec.PackUnpack | src/Native/libbeamhash/equihashR_imp.cpp:106-200 | Compressing an expanded exact-fit byte string gives the bytes back |
| IndexCodec.UnpackInjective | src/Native/libbeamhash/equihashR_imp.cpp:234-249 | Different byte strings of one length unpack to different lists |
| IndexCodec.ElementIs | src/Native/libbeamhash/equihashR_imp.cpp:118-149 | Element j of a bit stream is its j-th group of bits: a quotient and a remainder of the number that the bytes spell |
| IndexCodec.CompressedIs | src/Native/libbeamhash/equihashR_imp.cpp:156-199 | Compressed bytes spell the number that the elements spell, followed by zero bits |
| IndexCodec.ValIs | src/Native/libbeamhash/equihashR_imp.cpp:118-149 | What number digits spell, from either end |
| IndexCodec.ElementsOfSerialize | src/Native/libbeamhash/equihashR_imp.cpp:134-186 | Compression reads back the elements that expansion writes |
| IndexCodec.IndexRoundTrip | src/Native/libbeamhash/equihashR_imp.cpp:204-219 | Index to big-endian bytes and back |
| IndexCodec.IndexBytesAre | src/Native/libbeamhash/equihashR_imp.cpp:204-210 | The four bytes of an index, most significant first |
| IndexCodec.GetIndicesFromMinimal | src/Native/libbeamhash/equihashR_imp.cpp:234-249 | Returns the elements of the minimal bytes |
| IndexCodec.GetMinimalFromIndices | src/Native/libbeamhash/equihashR_imp.cpp:251-267 | Returns the packed low bits of the indices |
| IndexCodec.IndexListRoundTrip | src/Native/libbeamhash/equihashR_imp.cpp:234-267 | Packing indices and unpacking them gives them back |
| EquihashTree.TreeOkIsOrderedBirthday | src/Native/libbeamhash/equihashR_imp.cpp:745-767 | The round by round conditions are the generalized birthday condition plus sibling order |
| EquihashTree.TreeOkIsShape | src/Native/libbeamhash/equihashR_imp.cpp:745-767 | They are the flat conditions: all indices distinct, every left subtree before its sibling, every subtree's chunk zero |
| EquihashTree.TotalXorZero | src/Native/libbeamhash/equihashR_imp.cpp:745-770 | In an accepted subtree of height lvl the XOR of all leaves vanishes on the first lvl chunks |
| EquihashTree.AcceptedIsCanonical | src/Native/libbeamhash/equihashR_imp.cpp:745-767 | Two accepted index lists that differ only by swapped siblings are equal |
| EquihashTree.ExactlyOneAccepted | src/Native/libbeamhash/equihashR_imp.cpp:745-767 | Of all arrangements of one birthday solution exactly one is accepted, the canonical one |
| EquihashRows.HasCollision | src/Native/libbeamhash/equihashR_imp.cpp:345-355 | Compares the first bytes of two rows |
| EquihashRows.IsZero | src/Native/libbeamhash/equihashR_imp.cpp:321-331 | True exactly when all bytes are zero |
| EquihashRows.DistinctIndices | src/Native/libbeamhash/equihashR.h:164-178 | The byte comparison decides disjointness of the two index lists |
| EquihashRows.LexIndexBytes | src/Native/libbeamhash/equihashR.h:112-112 | Byte order of big-endian index lists is the order of the index lists |
| EquihashRows.MergeRows | src/Native/libbeamhash/equihashR_imp.cpp:293-312 | The merged row: XOR without the trimmed chunk, then both index lists, smaller first, then the rest of the first row |
| EquihashVerifier.InstantiationsValid | src/Native/libbeamhash/equihashR.h:216-256 | The repository's parameters satisfy all size conditions; all sizes in numbers |
| EquihashVerifier.LimitIs | src/Native/libbeamhash/equihashR_imp.cpp:734-735 | The range of the indices is 2^(collision bits + 1 - r) |
| EquihashVerifier.LeafRow | src/Native/libbeamhash/equihashR_imp.cpp:738-740 | The row of an index represents its hash slice and the index |
| EquihashVerifier.CollisionIsChunkZero | src/Native/libbeamhash/equihashR_imp.cpp:750-753 | Equal leading chunks of siblings mean that the joint XOR vanishes on that level's chunk |
| EquihashVerifier.MergeRepresents | src/Native/libbeamhash/equihashR_imp.cpp:762-762 | The merge of siblings in order represents the joined index list one level up |
| EquihashVerifier.PairDecides | src/Native/libbeamhash/equihashR_imp.cpp:750-761 | The three checks on two rows decide the subtree over them |
| EquihashVerifier.LeafRows | src/Native/libbeamhash/equihashR_imp.cpp:732-741 | Rejects exactly the lists with an index out of range, else builds one row per index |
| EquihashVerifier.CombineLevel | src/Native/libbeamhash/equihashR_imp.cpp:747-764 | One round: succeeds exactly when all subtrees of the next level are acceptable, and then represents them |
| EquihashVerifier.CheckTree | src/Native/libbeamhash/equihashR_imp.cpp:743-770 | All rounds and the final zero test decide the tree condition and the last chunk |
| EquihashVerifier.IsValidSolution | src/Native/libbeamhash/equihashR_imp.cpp:721-771 | True if and only if the length is right and the unpacked indices are a solution |
| EquihashVerifier.SolutionIsShape | src/Native/libbeamhash/equihashR_imp.cpp:721-771 | A solution: indices in range and distinct, left before right, every chunk of every subtree zero where it must be |
| EquihashVerifier.SolutionXorIsZero | src/Native/libbeamhash/equihashR_imp.cpp:745-770 | The XOR of all leaf hashes of a solution is zero on every byte |
| EquihashVerifier.AcceptedBytesAreCanonical | src/Native/libbeamhash/equihashR_imp.cpp:721-771 | Accepted solution bytes that differ by sibling swaps only are identical |
| EquihashLeaves.SliceIs | src/Native/libbeamhash/equihashR_imp.cpp:738-740 | An output of the generator holds the hashes of 512 / n consecutive indices; the q-th starts behind q times (n + 7) / 8 bytes |
| EquihashLeaves.SlicesTile | src/Native/libbeamhash/equihashR_imp.cpp:738-740 | The hashes of the indices that share an output make up the output, in order |
| EquihashLeaves.ThreeToAnOutput | src/Native/libbeamhash/equihashR_imp.cpp:738-740 | For n = 150: three hashes to an output of 57 bytes |
| EquihashLeaves.ChunkIs | src/Native/libbeamhash/equihashR_imp.cpp:269-277 | Chunk j of an index's hash, as a number, is the j-th group of n / (k + 1) bits of its slice |
| EquihashCollide.FindRun | src/Native/libbeamhash/equihashR_imp.cpp:411-417 | The run of colliding rows is maximal |
| EquihashCollide.RunsAreContiguous | src/Native/libbeamhash/equihashR_imp.cpp:409-417 | In a sorted table colliding rows are neighbours, so no pair lies across two runs |
| EquihashCollide.CollectRun | src/Native/libbeamhash/equihashR_imp.cpp:419-436 | Emits exactly the merges of the valid pairs of one run |
| EquihashCollide.StoreFront | src/Native/libbeamhash/equihashR_imp.cpp:438-453 | Moves results into free slots, overwriting nothing at or behind the limit |
| EquihashCollide.CollideBranches | src/Native/libbeamhash/equihashR_imp.cpp:402-466 | The table ends as exactly the multiset of merges of all colliding, distinct, branch-valid pairs of the original |
| EquihashCollide.MergesMembers | src/Native/libbeamhash/equihashR_imp.cpp:420-435 | Every row of that multiset comes from such a pair |
| EquihashCollide.TruncateIs | src/Native/libbeamhash/equihashR_imp.cpp:221-226 | A truncation is made of the eight highest bits |
| EquihashCollide.UntruncateIs | src/Native/libbeamhash/equihashR_imp.cpp:228-232 | The other bits are put below it |
| EquihashRecreate.Increment | src/Native/libbeamhash/equihashR_imp.cpp:651-692 | Merging while a slot is full, then filling one, is adding one in binary |
| EquihashRecreate.ClearBit | src/Native/libbeamhash/equihashR_imp.cpp:664-664 | `lti` does not underflow: it is the leaf counter with a set bit cleared |
| EquihashRecreate.SortSorts | src/Native/libbeamhash/equihashR_imp.cpp:661-661 | Sorting by hash permutes the rows and puts colliding ones side by side |
| EquihashRecreate.MergeLists | src/Native/libbeamhash/equihashR_imp.cpp:658-668 | The merges of all valid pairs of the two lists, sorted somehow; every row has distinct indices and zero XOR one level up |
| EquihashRecreate.LeafCandidates | src/Native/libbeamhash/equihashR_imp.cpp:629-644 | One row for every full index with the given truncation, in order, the hash shared where the code shares it |
| EquihashRecreate.AddLeaf | src/Native/libbeamhash/equihashR_imp.cpp:645-692 | Merges slot after slot with the truncations of lti and rti, fails exactly when a merge is empty; afterwards slot r is occupied exactly when bit r of i + 1 is set, by rows of 2^r distinct indices |
| EquihashRecreate.Recreate | src/Native/libbeamhash/equihashR_imp.cpp:627-698 | The slots after every leaf; the top slot's rows, or the leaf at which nothing is left |
| EquihashRecreate.TopSlot | src/Native/libbeamhash/equihashR_imp.cpp:697-698 | X.size() == K + 1, and the top slot's rows are candidate solutions |
| EquihashRecreate.GetIndices | src/Native/libbeamhash/equihashR_imp.cpp:333-343 | Packs the row's indices to the solution width |
| EquihashRecreate.RecreatedRowAccepted | src/Native/libbeamhash/equihashR_imp.cpp:699-711 | A recreated row, packed, is accepted exactly when its indices are in range and the last chunk vanishes |
| EquihashComplete.EmitFinds | src/Native/libbeamhash/equihashR_imp.cpp:420-435 | Of two rows that stand for siblings, in either order in the table, the join emits one that stands for their parent |
| EquihashComplete.EmitsExactly | src/Native/libbeamhash/equihashR_imp.cpp:423-434 | A pair emits a row if and only if its indices are distinct and the truncations of the two first indices are those asked for, in either order |
| EquihashComplete.MergeFinds | src/Native/libbeamhash/equihashR_imp.cpp:658-668 | If both lists have a row for a sibling, the joined list has one for the parent |
| EquihashComplete.CarryFinds | src/Native/libbeamhash/equihashR_imp.cpp:651-692 | The list merged up to slot q has a row for the subtree of 2^q leaves that ends at the leaf |
| EquihashComplete.LeafKeepsSolution | src/Native/libbeamhash/equihashR_imp.cpp:645-692 | A leaf of a solution's truncations does not fail, and the slots keep a row for each complete subtree |
| EquihashComplete.SolutionIsRecreated | src/Native/libbeamhash/equihashR_imp.cpp:616-704 | For every index list with the given truncations that passes the checks, no leaf fails and the top slot ends with a row for it |
| EquihashComplete.AcceptedSolutionIsRecreated | src/Native/libbeamhash/equihashR_imp.cpp:616-704 | Every solution the verifier accepts is recreated from its truncated indices, with a zero last chunk |
| EquihashSolutions.TopSolutions | src/Native/libbeamhash/equihashR_imp.cpp:699-704 | The set of solutions that the rows of the top slot pack into, no more and no less |
| EquihashSolutions.AcceptedBytesAreRecreated | src/Native/libbeamhash/equihashR_imp.cpp:616-704 | The bytes of every solution the verifier accepts are in the set recreated from their truncated indices |
| EquihashSolutions.RecreatedBytesAreTrees | src/Native/libbeamhash/equihashR_imp.cpp:616-704 | All bytes of the set have the solution width and unpack to a tree of colliding hashes; the verifier accepts those with indices in range and a zero last chunk |
| EquihashSolutions.AnyApproved | src/Native/libbeamhash/equihashR_imp.cpp:705-709 | True exactly when the callback approves some member of the set |
| EquihashSolutions.RecreateSolutions | src/Native/libbeamhash/equihashR_imp.cpp:616-718 | Tries the truncated solutions in order, up to the first with an approved solution; invalid ones are passed over |
| EquihashSolutions.RecreatedMeans | src/Native/libbeamhash/equihashR_imp.cpp:616-718 | Succeeds only with an approved tree of colliding hashes, and whenever an accepted solution is approved whose truncated indices are among those given |
| BeamTree.AcceptedTreesAreCanonical | src/Native/libbeamhash/beamHashIII_imp.cpp:273-315 | Two accepted trees that differ only by swapped siblings are equal |
| BeamTree.VerifierRebuilds | src/Native/libbeamhash/beamHashIII_imp.cpp:346-436 | For every element the solver's merge rule builds, the verifier rebuilds that element level by level |
| BeamTree.SolverReaches | src/Native/libbeamhash/beamHashIII_imp.cpp:346-436 | Every tree the verifier accepts is one the solver's rule can build |
| BeamTree.AcceptsWhatTheSolverBuilds | src/Native/libbeamhash/beamHashIII_imp.cpp:273-317 | Acceptance of a tree means that the solver's rule builds it with zero work bits and distinct leaves, both ways |
| BeamHashIII.NewElem | src/Native/libbeamhash/beamHashIII_imp.cpp:55-67 | The seven siphash words, most significant first |
| BeamHashIII.NewMatch | src/Native/libbeamhash/beamHashIII_imp.cpp:69-92 | XOR without the collision bits, kept to remLen bits, index lists in order of their first index |
| BeamHashIII.LineUp | src/Native/libbeamhash/beamHashIII_imp.cpp:96-107 | The OR loop lines index digits up above the work bits, within 512 bits |
| BeamHashIII.ApplyMix | src/Native/libbeamhash/beamHashIII_imp.cpp:94-127 | Replaces the lowest 64 bits by the rotated sum of the eight words |
| BeamHashIII.RotlBelow | src/Native/libbeamhash/beamHashIII_imp.cpp:8-11 | A rotation is two shifts that do not overlap, within 64 bits |
| BeamHashIII.MixedBelow | src/Native/libbeamhash/beamHashIII_imp.cpp:123-126 | Mixing keeps the work bits within the remaining length |
| BeamHashIII.MixBitsDoNotOverlap | src/Native/libbeamhash/beamHashIII_imp.cpp:98-107 | The index bits are OR-ed above the work bits and do not meet them |
| BeamHashIII.WorkBitsFit | src/Native/libbeamhash/beamHashIII_imp.cpp:279-308 | At each mix the work bits are below 2^remLen |
| BeamHashIII.HasCollision | src/Native/libbeamhash/beamHashIII_imp.cpp:129-155 | Compares the lowest 24 bits |
| BeamHashIII.DistinctIndices | src/Native/libbeamhash/beamHashIII_imp.cpp:157-168 | The double loop decides disjointness |
| BeamHashIII.CombineRound | src/Native/libbeamhash/beamHashIII_imp.cpp:275-314 | One round succeeds exactly when all subtrees of the next level pass the checks, and rebuilds them |
| BeamHashIII.CheckRounds | src/Native/libbeamhash/beamHashIII_imp.cpp:272-317 | All rounds and the final zero test decide acceptance of the tree |
| BeamHashIII.GetIndicesFromMinimal | src/Native/libbeamhash/beamHashIII_imp.cpp:187-207 | The 32 little-endian 25-bit digits of the first 100 bytes |
| BeamHashIII.GetMinimalFromIndices | src/Native/libbeamhash/beamHashIII_imp.cpp:209-229 | The 100 bytes of 32 indices, whatever the element read past the end holds |
| BeamHashIII.UnpackedPacked | src/Native/libbeamhash/beamHashIII_imp.cpp:187-229 | Unpacking packed indices gives them back |
| BeamHashIII.PackedUnpacked | src/Native/libbeamhash/beamHashIII_imp.cpp:187-229 | Packing unpacked bytes gives them back |
| BeamHashIII.IsValidSolution | src/Native/libbeamhash/beamHashIII_imp.cpp:250-318 | True if and only if there are 104 bytes and the tree of the unpacked indices is accepted |
| BeamHashIII.AcceptedBytesAreSolverElements | src/Native/libbeamhash/beamHashIII_imp.cpp:250-448 | Accepted bytes are exactly the packed elements the solver's rule builds with zero work bits and distinct leaves |
| BeamHashIII.AcceptedBytesAreCanonical | src/Native/libbeamhash/beamHashIII_imp.cpp:250-318 | Accepted bytes that differ by sibling swaps only are identical |
| Numbers.BitwiseAt | src/Native/libbeamhash/beamHashIII_imp.cpp:74-79 | And, or and exclusive or, bit by bit |
| BeamWords.LeafWord | src/Native/libbeamhash/beamHashIII_imp.cpp:55-67 | Word i of a leaf is word 8 * index + i of the siphash stream; there are 448 bits |
| BeamWords.LinedUp | src/Native/libbeamhash/beamHashIII_imp.cpp:96-107 | The 512 bits are the work bits and above them the indices in 25 bits each, cut off at the end; what is not reached is zero |
| BeamWords.PadFills | src/Native/libbeamhash/beamHashIII_imp.cpp:99-100 | The indices that are lined up are all, or fill the 512 bits |
| BeamWords.RotlIs | src/Native/libbeamhash/beamHashIII_imp.cpp:8-11 | A rotation in terms of products, quotients and remainders by powers of two |
| BeamWords.MixIs | src/Native/libbeamhash/beamHashIII_imp.cpp:110-126 | The lowest word becomes the sum of the eight words, rotated by 29, 58, 23, 52, 17, 46, 11 and 40, itself rotated by 24; nothing else changes |
| BeamWords.SingleBit | src/Native/libbeamhash/beamHashIII_imp.cpp:110-126 | A single bit j of word i ends up as bit (j + 29 (i + 1) + 24) mod 64 |
| BeamWords.MatchIs | src/Native/libbeamhash/beamHashIII_imp.cpp:69-81 | Collision bits are the remainder by 2^24; a match keeps the next remLen bits of the XOR |
| BeamWords.Schedule | src/Native/libbeamhash/beamHashIII_imp.cpp:350-412 | The remaining lengths of the five rounds, in numbers |
| BeamWords.UnpackedIndex | src/Native/libbeamhash/beamHashIII_imp.cpp:187-207 | Index i of a solution is the i-th group of 25 bits from the low end of its bytes |
| BeamSolver.MatchAll | src/Native/libbeamhash/beamHashIII_imp.cpp:374-391 | The match loops, which stop at the first element that does not collide, give one match for every colliding pair, in order |
| BeamSolver.AllPairsMembers | src/Native/libbeamhash/beamHashIII_imp.cpp:374-391 | An element is among the matches exactly when two colliding elements make it |
| BeamSolver.SortElements | src/Native/libbeamhash/beamHashIII_imp.cpp:175-178 | Sorting by collision bits permutes the elements |
| BeamSolver.AllPairsDistinct | src/Native/libbeamhash/beamHashIII_imp.cpp:374-391 | Elements with different index lists have matches with different index lists: no two matches of a round are made of the same indices |
| BeamSolver.RoundIsSound | src/Native/libbeamhash/beamHashIII_imp.cpp:350-393 | Every match of a round is built by the merge rule from two different elements of the round before, and no two have the same index list |
| BeamSolver.RoundIsComplete | src/Native/libbeamhash/beamHashIII_imp.cpp:350-393 | If all subtrees that pass the checks have their element before a round, then so they have after it |
| BeamSolver.TryMatches | src/Native/libbeamhash/beamHashIII_imp.cpp:416-445 | True exactly when some match of the last round has zero work bits and is approved |
| BeamSolver.OutcomeMeans | src/Native/libbeamhash/beamHashIII_imp.cpp:323-448 | Finds a solution whenever the verifier accepts one that the callback approves; finds nothing that the merge rule does not build; runs out of elements only if there is no solution; for a callback that approves accepted solutions only, finds one if and only if one is approved |
| BeamSolver.OptimisedSolve | src/Native/libbeamhash/beamHashIII_imp.cpp:323-448 | The outcome is the one that the lists of the rounds determine, in all three cases, and means what `OutcomeMeans` says |
| Divisibility.EuclidsLemma | src/Miningcore/Util/BigRational.cs:749-762 | What coprimality of numerator and denominator gives |
| Divisibility.Reduced | src/Miningcore/Util/BigRational.cs:756-761 | Dividing by the common divisor leaves coprime numbers |
| Divisibility.TDivRem | src/Miningcore/Util/BigRational.cs:344-356 | Truncated quotient and remainder fit together, remainder signed like the dividend |
| BigRational.SameValueIsIdentical | src/Miningcore/Util/BigRational.cs:171-176 | Values in lowest terms are equal numbers exactly when they are identical pairs |
| BigRational.Reduce | src/Miningcore/Util/BigRational.cs:251-273 | The reduced pair stands for n / d |
| BigRational.Construct | src/Miningcore/Util/BigRational.cs:251-273 | The branches of the pair constructor give the reduced pair, and an error exactly for denominator zero |
| BigRational.Simplify | src/Miningcore/Util/BigRational.cs:749-762 | Gives the reduced pair |
| BigRational.ReduceOfParts | src/Miningcore/Util/BigRational.cs:749-762 | Simplifying a value again changes nothing |
| BigRational.FromInteger | src/Miningcore/Util/BigRational.cs:184-188 | The integer constructor is exact |
| BigRational.Add | src/Miningcore/Util/BigRational.cs:458-463 | Sum of the values |
| BigRational.Sub | src/Miningcore/Util/BigRational.cs:465-470 | Difference of the values |
| BigRational.Mul | src/Miningcore/Util/BigRational.cs:472-476 | Product of the values |
| BigRational.Neg | src/Miningcore/Util/BigRational.cs:443-446 | Negated value |
| BigRational.AbsOf | src/Miningcore/Util/BigRational.cs:304-307 | Absolute value |
| BigRational.Invert | src/Miningcore/Util/BigRational.cs:314-317 | The multiplicative inverse, or an error exactly for zero |
| BigRational.Div | src/Miningcore/Util/BigRational.cs:478-482 | Quotient of the values, or an error exactly for divisor zero |
| BigRational.Rem | src/Miningcore/Util/BigRational.cs:484-489 | x - y * trunc(x / y), or an error exactly for divisor zero |
| BigRational.DivRem | src/Miningcore/Util/BigRational.cs:344-356 | Agrees with the two operators |
| BigRational.WholePart | src/Miningcore/Util/BigRational.cs:123-126 | The value truncated toward zero |
| BigRational.FractionPart | src/Miningcore/Util/BigRational.cs:128-131 | The value less its whole part |
| BigRational.Equals | src/Miningcore/Util/BigRational.cs:171-176 | Holds exactly for identical values |
| BigRational.Compare | src/Miningcore/Util/BigRational.cs:398-402 | Orders by value; zero exactly for identical values |
| BigRational.CompareIsTotalOrder | src/Miningcore/Util/BigRational.cs:398-436 | Antisymmetric, transitive, total, compatible with addition |
| BigRational.RingLaws | src/Miningcore/Util/BigRational.cs:458-476 | Commutative, associative and distributive laws, units and negation, as identities of pairs |
| BigRational.FieldLaws | src/Miningcore/Util/BigRational.cs:478-482 | Division undoes multiplication and is multiplication by the inverse |
| BigRational.DivisionIdentity | src/Miningcore/Util/BigRational.cs:344-356 | x == y * whole(x / y) + x % y, the remainder smaller than the divisor and signed like x |
| BigRational.WholeAndFraction | src/Miningcore/Util/BigRational.cs:113-131 | Whole and fraction part make up the value; the fraction is below one and signed like it |
| BigRational.Pow | src/Miningcore/Util/BigRational.cs:358-379 | The loop computes the power; an error exactly for zero to a negative exponent |
| BigRational.PowersAre | src/Miningcore/Util/BigRational.cs:358-379 | The powers start with one and the number itself; each is the one before times the number |
| BigRational.PowerAdds | src/Miningcore/Util/BigRational.cs:358-379 | Exponents add, for all integers and non-zero bases |
| BigRational.PowersInvert | src/Miningcore/Util/BigRational.cs:358-379 | The power to -e is the inverse of the power to e |
| DecimalConversion.NestedQuotient | src/Miningcore/Util/BigRational.cs:607-611 | Truncating twice is truncating once by the product |
| DecimalConversion.ScaledStep | src/Miningcore/Util/BigRational.cs:607-611 | Each division by ten lowers the scale by one, exactly |
| DecimalConversion.CoefficientIs | src/Miningcore/Util/BigRational.cs:603-620 | Coefficients have 96 bits |
| DecimalConversion.ScaleToFit | src/Miningcore/Util/BigRational.cs:603-620 | trunc(n * 10^s / d) for the largest s in 0..28 that fits; overflow exactly when trunc(n / d) does not fit |
| DecimalConversion.ToDecimal | src/Miningcore/Util/BigRational.cs:595-621 | On the scaling path the truncated digits at the largest scale that fits, within one unit of the last place; overflow exactly when the whole part does not fit |
| DecimalConversion.FromDecimal | src/Miningcore/Util/BigRational.cs:223-249 | The constructor from a decimal is exact |
| MerkleTree.FoldIsRoot | src/Miningcore/Crypto/MerkleTree.cs:56-116 | Folding a first hash through the steps of the rest is the Merkle root of all, for every list |
| MerkleTree.PairsAt | src/Miningcore/Crypto/MerkleTree.cs:101-106 | A node is the digest of its two children, the left one in front |
| MerkleTree.RootIsTree | src/Miningcore/Crypto/MerkleTree.cs:24-116 | The root built level by level is the root of the tree built from the top down, in which a missing right half repeats the left one |
| MerkleTree.SmallRoots | src/Miningcore/Crypto/MerkleTree.cs:24-116 | The roots of blocks of one, two and three transactions |
| MerkleTree.StepCount | src/Miningcore/Crypto/MerkleTree.cs:66-88 | The number of steps is the least s with n + 1 <= 2^s |
| MerkleTree.MerkleTree.constructor | src/Miningcore/Crypto/MerkleTree.cs:24-27 | Holds the steps of its hash list |
| MerkleTree.MerkleTree.CalculateSteps | src/Miningcore/Crypto/MerkleTree.cs:56-91 | The loop over lists with a missing first entry computes the steps |
| MerkleTree.MerkleTree.JoinPairs | src/Miningcore/Crypto/MerkleTree.cs:79-86 | Joins the pairs behind the missing entry, without touching it |
| MerkleTree.MerkleTree.WithFirst | src/Miningcore/Crypto/MerkleTree.cs:108-116 | Folds the given hash through the steps |
| MerkleTree.BlockRoot | src/Miningcore/Crypto/MerkleTree.cs:24-116 | Steps and fold together give the Merkle root of the coinbase followed by the list |
| RandomXVm.RxDataSet.Init | src/Miningcore/Native/RandomX.cs:102-110 | Holds what was allocated |
| RandomXVm.RxDataSet.Dispose | src/Miningcore/Native/RandomX.cs:93-100 | Releases the data set once |
| RandomXVm.RxVm.Init | src/Miningcore/Native/RandomX.cs:136-161 | What is live afterwards, and that fast mode releases the cache |
| RandomXVm.RxVm.Dispose | src/Miningcore/Native/RandomX.cs:119-134 | Releases exactly the live handles, and leaves none |
| RandomXVm.CreateAndDispose | src/Miningcore/Native/RandomX.cs:119-161 | Over a machine's life every native handle that was obtained is released exactly once, in either mode; a failed allocation is not, except that fast mode releases its cache without a check |
| RandomXPool.StepKeepsInv | src/Miningcore/Native/RandomX.cs:183-325 | Every step of every thread keeps the pool invariant |
| RandomXPool.RunKeepsInv | src/Miningcore/Native/RandomX.cs:183-325 | Every reachable state satisfies it |
| RandomXPool.EveryVmIsSomewhere | src/Miningcore/Native/RandomX.cs:252-320 | Each machine is available, leased by the one thread hashing on it, held by the one thread deleting, or disposed once; the counts sum to VmCount |
| RandomXPool.StepMoves | src/Miningcore/Native/RandomX.cs:252-320 | Only the lessee returns a leased machine, only its holder disposes one; a leased machine is never disposed |
| RandomXPool.DisposedForever | src/Miningcore/Native/RandomX.cs:252-264 | A disposed machine never becomes available or leased again |
| RandomXPool.DeleteFinishes | src/Miningcore/Native/RandomX.cs:239-265 | When deletion finishes exactly VmCount machines are disposed, once each, nobody hashes on them, and no key leads to them |
| RandomXPool.DeleterHasSomethingToTake | src/Miningcore/Native/RandomX.cs:254-264 | A waiting deletion always has a machine to wait for: one that is available or leased |
| RandomXPool.SeedsAreStable | src/Miningcore/Native/RandomX.cs:186-205 | Creating an existing seed changes nothing; only its deletion takes it out |
| RandomXPool.LockExcludes | src/Miningcore/Native/RandomX.cs:183-285 | While a thread holds the lock, others neither create nor look up nor take out a seed |
| RandomXLeases.DeadStays | src/Miningcore/Native/RandomX.cs:239-320 | A generation whose machines are all disposed or about to be stays so, whatever any thread does |
| RandomXLeases.LeasesUnlessDead | src/Miningcore/Native/RandomX.cs:289-303 | A request that found its seed can still lease a machine if and only if the generation is not dead |
| RandomXLeases.DeadExactly | src/Miningcore/Native/RandomX.cs:239-265 | When that is: created without machines, or deleted up to its last machine |
| RandomXLeases.LookUpBeforeDeletion | src/Miningcore/Native/RandomX.cs:239-303 | A run that leaves a request with a deleted seed |
| RandomXLeases.LookUpWithoutMachines | src/Miningcore/Native/RandomX.cs:212-237 | A run that leaves a request with a seed created without machines |
| RandomXLosses.StepAccounts | src/Miningcore/Native/RandomX.cs:183-265 | Building adds a machine to those alive or in the making, disposing takes one away, a failing creation loses what it had built, and nothing else changes their number |
| RandomXLosses.MachinesAreAccountedFor | src/Miningcore/Native/RandomX.cs:183-325 | In every execution every machine that was built has been disposed, is alive in a generation, is in the making, or was lost |
| RandomXLosses.LostExactlyWhen | src/Miningcore/Native/RandomX.cs:207-237 | Machines are lost exactly when a creation fails with a machine already built |
| RandomXLosses.AllDisposedExactlyWhen | src/Miningcore/Native/RandomX.cs:207-265 | When nothing is being built and all seeds are deleted, all machines ever built have been disposed if and only if no creation failed that late |
| RandomXLosses.OneIsLost | src/Miningcore/Native/RandomX.cs:212-237 | An execution that leaves the pool as it was, and loses a machine |
| RandomXLosses.CreatedAsAsked | src/Miningcore/Native/RandomX.cs:183-237 | A creation that ends has made as many machines as were asked for, one per processor if minus one was, all available, and the seed leads to them |
| VarDiff.TryApplyNewDiff | src/Miningcore/VarDiff/VarDiffManager.cs:127-162 | Limit, clamp and change test, in floating-point terms, give the accepted change and restart the period exactly then |
| VarDiff.Update | src/Miningcore/VarDiff/VarDiffManager.cs:14-71 | New context and result of a share |
| VarDiff.IdleUpdate | src/Miningcore/VarDiff/VarDiffManager.cs:73-122 | New context and result of an idle sweep; nothing if the lock is taken |
| VarDiffRules.AcceptedIs | src/Miningcore/VarDiff/VarDiffManager.cs:127-152 | A proposal is brought to the closest value within the limit, and that to the closest in the range; no change if that is the old difficulty |
| VarDiffRules.ClosestExists | src/Miningcore/VarDiff/VarDiffManager.cs:127-152 | There is such a closest value |
| VarDiffRules.ShareChangesExactly | src/Miningcore/VarDiff/VarDiffManager.cs:25-59 | A share after the retarget time changes the difficulty if and only if the average share time is off target by more than the percentage and the accepted value is another one |
| VarDiffRules.UnlimitedShareChangesExactly | src/Miningcore/VarDiff/VarDiffManager.cs:44-59 | The same without a limit: the new difficulty is that at which the shares would have taken the target time |
| VarDiffRules.EarlyShareChangesNothing | src/Miningcore/VarDiff/VarDiffManager.cs:25-66 | No change before the retarget time is over, nor by the first share |
| VarDiffRules.InstantSharesExactly | src/Miningcore/VarDiff/VarDiffManager.cs:53-59 | An average of zero calls for the largest difficulty, and for no change under a limit |
| VarDiffRules.InstantSharesAtNothing | src/Miningcore/VarDiff/VarDiffManager.cs:53-59 | Zero over zero changes nothing |
| VarDiffRules.SweepChangesExactly | src/Miningcore/VarDiff/VarDiffManager.cs:84-113 | A sweep changes the difficulty if and only if the last update is the retarget time less a second ago and the accepted value is another one |
| VarDiffRules.IdleSweepLeaves | src/Miningcore/VarDiff/VarDiffManager.cs:84-99 | What a sweep leaves that changes nothing |
| VarDiffRules.ChangeRestarts | src/Miningcore/VarDiff/VarDiffManager.cs:153-161 | A change starts a new period with an empty buffer |
| VarDiffRules.BufferHolds | src/Miningcore/VarDiff/VarDiffManager.cs:34-42 | The buffer holds the last ten intervals since the first share or the last change |
| VarDiffRules.AverageSpans | src/Miningcore/VarDiff/VarDiffManager.cs:34-42 | So the average is the time since the share eleven shares ago, or since the first, over the number of intervals in it |
| VarDiff.WorkerContextBase.EnqueueNewDifficulty | src/Miningcore/Mining/WorkerContextBase.cs:79-82 | Overwrites the pending difficulty only |
| VarDiff.WorkerContextBase.ApplyPendingDifficulty | src/Miningcore/Mining/WorkerContextBase.cs:86-97 | A pending difficulty becomes the difficulty, the old one the previous, once |
| VarDiff.WorkerContextBase.SetDifficulty | src/Miningcore/Mining/WorkerContextBase.cs:99-103 | Sets difficulty and previous difficulty |
| VarDiffRuns.StepKeepsTimeInv | src/Miningcore/VarDiff/VarDiffManager.cs:14-162 | Each update keeps the time invariant and moves the retarget point forward only |
| VarDiffRuns.RunKeepsTimeInv | src/Miningcore/VarDiff/VarDiffManager.cs:14-122 | LastRetarget <= LastTs and 0 <= sum(TimeBuffer) <= LastTs - LastRetarget along every run |
| VarDiffRuns.ChangesAreApart | src/Miningcore/VarDiff/VarDiffManager.cs:47-98 | Any two changes, of either kind, are at least RetargetTime - SafetyMargin apart |
| VarDiffRuns.NewDifficultyIsAllowed | src/Miningcore/VarDiff/VarDiffManager.cs:127-152 | A new difficulty is in range, within MaxDelta of its base, and moves against the deviation |
| VarDiffRuns.StepKeepsRange | src/Miningcore/Mining/WorkerContextBase.cs:79-103 | Every step keeps all that may become the difficulty in range |
| VarDiffRuns.DifficultyStaysInRange | src/Miningcore/Mining/WorkerContextBase.cs:79-103 | In every interleaving the difficulty stays in [MinDiff, MaxDiff] |
| VarDiffRuns.AppliedStepIsLimited | src/Miningcore/VarDiff/VarDiffManager.cs:131-143 | In every run an applied step is within MaxDelta unless a proposal from its sample can reach further |
| VarDiffRuns.QuietStepIsLimited | src/Miningcore/VarDiff/VarDiffManager.cs:131-143 | So it always is in runs that apply only while no update is under way |
| VarDiffRuns.StaleBaseExactly | src/Miningcore/VarDiff/VarDiffManager.cs:16-17 | A proposal from a stale difficulty is within MaxDelta of the current one for every average exactly when the furthest proposals are |
| VarDiffRuns.StaleSampleOvershoots | src/Miningcore/VarDiff/VarDiffManager.cs:16-76 | A run of one share and one idle sweep in which an applied step is twice MaxDelta |
| VarDiffStale.MoveTo | src/Miningcore/VarDiff/VarDiffManager.cs:14-143 | By updates of shares and sweeps a worker can be brought from any difficulty in range to any other |
| VarDiffStale.StaleStepsExactly | src/Miningcore/VarDiff/VarDiffManager.cs:16-143 | For a sample and a difficulty to be replaced, both in range, some execution from a new worker on takes a step beyond MaxDelta if and only if a proposal from the sample can reach that far (variance below 100 percent, retarget time below eleven target times) |
| Payouts.UpdateBlockRewardBalances | src/Miningcore/Payments/PayoutHandlerBase.cs:85-106 | Credits the recipients other than the pool itself, and returns the remaining reward |
| Payouts.RewardIsSplit | src/Miningcore/Payments/PayoutHandlerBase.cs:87-105 | Credits, the pool's own part and the remainder add up to the reward |
| Payouts.CreditsArePercentages | src/Miningcore/Payments/PayoutHandlerBase.cs:90-102 | Every recipient with a positive percentage, other than the pool, is credited that percentage of the reward, once and in order |
| Payouts.RemainderIs | src/Miningcore/Payments/PayoutHandlerBase.cs:87-105 | What remains is the reward less all positive percentages |
| Payouts.SchemeCreditsAre | src/Miningcore/Payments/PayoutManager.cs:176-183 | The scheme is given that remainder, and its credits are recorded unchanged, for the block |
| Payouts.Transaction.AddAmount | src/Miningcore/Persistence/Postgres/Repositories/BalanceRepository.cs:18-73 | Records the change and adds it to the row of the address, inserting one if there is none |
| Payouts.Transaction.UpdateBlock | src/Miningcore/Persistence/Postgres/Repositories/BlockRepository.cs:37-45 | Replaces the row of that id, if there is one |
| Payouts.Transaction.InsertPayment | src/Miningcore/Persistence/Postgres/Repositories/PaymentRepository.cs:22-30 | Appends a payment row |
| Payouts.Database.Finish | src/Miningcore/Extensions/ConnectionFactoryExtensions.cs:38-61 | Commits, or leaves the store as it was |
| Payouts.ProcessBlock | src/Miningcore/Payments/PayoutManager.cs:168-190 | One block's transaction: all of its credits and its status, or nothing |
| Payouts.OrderKeepsElements | src/Miningcore/Payments/PayoutManager.cs:164-164 | Ordering by creation keeps every block |
| Payouts.OrderIsStable | src/Miningcore/Payments/PayoutManager.cs:164-164 | It is ascending, and blocks created at one time keep their order |
| Payouts.OnlyOneStableOrder | src/Miningcore/Payments/PayoutManager.cs:164-164 | No other list is |
| Payouts.UpdatePoolBalances | src/Miningcore/Payments/PayoutManager.cs:154-198 | A pass commits a prefix of the blocks, and ends at the first that fails |
| Payouts.PersistOnce | src/Miningcore/Payments/PayoutHandlerBase.cs:165-192 | One attempt: all payments and resets, or nothing |
| Payouts.PersistWithRetries | src/Miningcore/Payments/PayoutHandlerBase.cs:68-76 | With up to eight retries, payments are persisted exactly once or not at all, and when |
| Payouts.PersistPayments | src/Miningcore/Payments/PayoutHandlerBase.cs:155-202 | The form with a confirmation per balance: persists exactly when there is a balance and an attempt succeeds |
| Payouts.PersistPaymentsTogether | src/Miningcore/Payments/PayoutHandlerBase.cs:108-153 | The form with one confirmation: persists exactly when it is not empty and an attempt succeeds |
| Payouts.PaymentsAre | src/Miningcore/Payments/PayoutHandlerBase.cs:165-192 | Payment rows are written for balances with a confirmation whose address is not a recipient of rewards; every balance is reduced by its amount |
| PayoutRuns.StepKeepsInv | src/Miningcore/Payments/PayoutManager.cs:154-198 | Every step keeps conservation and one crediting per confirming entry, whatever the classifier returns |
| PayoutRuns.RunKeepsInv | src/Miningcore/Payments/PayoutManager.cs:154-198 | So does every run |
| PayoutRuns.MoneyIsConserved | src/Miningcore/Payments/PayoutHandlerBase.cs:85-202 | Rewards equal balances plus payments plus resets without a payment row; every balance is the sum of its changes |
| PayoutRuns.PaidOutIsZero | src/Miningcore/Payments/PayoutHandlerBase.cs:108-153 | Paying balances as they are stored leaves nothing of them, and all others alone |
| PayoutRuns.PassIsRun | src/Miningcore/Payments/PayoutManager.cs:154-198 | Whatever a pass leaves behind, complete or cut short, some run of the ledger leaves |
| PayoutRuns.AtMostOnceExactly | src/Miningcore/Payments/PayoutManager.cs:154-198 | Along every run a block whose entries have anything to credit is credited at most once exactly when at most one of them confirmed it |
| PayoutRuns.PassEntries | src/Miningcore/Payments/PayoutManager.cs:160-197 | A pass that gets through its list confirms what the list confirms, in addition to what was confirmed before, whatever its order and whatever happens in between |
| PayoutRuns.PassCreditsOnceExactly | src/Miningcore/Payments/PayoutManager.cs:160-197 | It leaves a block credited at most once if and only if its list confirms the block at most once, and not at all if it was credited before |
| PayoutRuns.PromisedRunKeepsInv | src/Miningcore/Payments/PayoutManager.cs:154-198 | If the classifier returns pending blocks, each once, a block is stored as confirmed exactly when one entry confirmed it, and none is twice |
| PayoutRuns.PassAfterPromiseExactly | src/Miningcore/Payments/PayoutManager.cs:160-197 | After a run that kept the promise: if and only if its list confirms the block at most once, and not at all if it is stored as confirmed |
| PayoutRuns.CreditedForever | src/Miningcore/Payments/PayoutManager.cs:176-188 | Then, once confirmed, a block stays confirmed and is never credited again |
| PayoutRuns.ConfirmedBlockIsFullyCredited | src/Miningcore/Payments/PayoutManager.cs:176-183 | The confirming transaction records exactly the recipients' and the scheme's credits |
| PayoutRuns.PassCreditsEveryEntry | src/Miningcore/Payments/PayoutManager.cs:164-190 | A pass credits a block once for each entry that confirms it |
| PayoutRuns.CreditedTwice | src/Miningcore/Payments/PayoutManager.cs:164-190 | A run in which a block listed twice is credited twice |
| ShareRecovery.ShareStore.PersistSharesCore | src/Miningcore/Mining/ShareRecorder.cs:85-109 | A batch and its pending blocks are stored together or not at all |
| ShareRecovery.CandidatesAre | src/Miningcore/Mining/ShareRecorder.cs:91-107 | The blocks stored are the shares that are candidates, in their order |
| ShareRecovery.ReadLineIs | src/Miningcore/Mining/ShareRecorder.cs:181-190 | A line holds no break; a carriage return and a line feed together are one terminator |
| ShareRecovery.ContentIs | src/Miningcore/Mining/ShareRecorder.cs:184-194 | A line says nothing if it is white space, or if what is in the white space begins with a number sign |
| ShareRecovery.RecoverShares | src/Miningcore/Mining/ShareRecorder.cs:163-255 | The import stores, counts and fails as the function on values says |
| ShareRecovery.TextKeeps | src/Miningcore/Mining/ShareRecorder.cs:181-226 | Stored shares followed by the buffer are the parsed prefix, whichever commits fail |
| ShareRecovery.RecoveryLosesNothing | src/Miningcore/Mining/ShareRecorder.cs:163-255 | At the end all parsed shares are stored, once and in order, if and only if the last commit succeeded; counters are right |
| ShareRecovery.Outgrown | src/Miningcore/Mining/ShareRecorder.cs:196-226 | A buffer beyond the batch size is not committed before the end: it collects all that follows |
| ShareRecovery.RetriedExactlyWhen | src/Miningcore/Mining/ShareRecorder.cs:196-226 | A failed batch is tried again during the import if and only if the next record does not parse |
| ShareRecovery.StoredExactly | src/Miningcore/Mining/ShareRecorder.cs:163-255 | Without malformed records: the batches before the first failed commit are stored, and the rest with one more commit, all or nothing |
| ShareFallback.RecoveryFile.Append | src/Miningcore/Mining/ShareRecorder.cs:122-161 | Appends header if empty, then one line per share; a write that stops half-way leaves what was written, and is swallowed |
| ShareFallback.WrittenIsParsed | src/Miningcore/Mining/ShareRecorder.cs:135-139 | Written shares are read back, all and in order |
| ShareFallback.AppendedIsParsed | src/Miningcore/Mining/ShareRecorder.cs:122-161 | After an append the file holds the old records and then the new ones |
| ShareFallback.AppendedLines | src/Miningcore/Mining/ShareRecorder.cs:122-161 | The lines of the file after an append: those before, three comments and an empty line in a new file, and one for every share |
| ShareFallback.FileIsParsed | src/Miningcore/Mining/ShareRecorder.cs:122-161 | A file of any number of fallbacks parses to their batches in order |
| ShareFallback.FallbackRoundTrip | src/Miningcore/Mining/ShareRecorder.cs:122-255 | Recovering such a file stores the concatenation of the batches exactly when the last commit succeeds |
| ShareFallback.PersistShares | src/Miningcore/Mining/ShareRecorder.cs:289-320 | A batch ends up in the tables, in the file, or in neither, never in both; what the file is then, to the character |
| ShareFallback.LostExactlyWhen | src/Miningcore/Mining/ShareRecorder.cs:122-153 | It is lost exactly to a failure no policy handles, or to a write that fails after the database did |
| ShareFallback.LosesABatch | src/Miningcore/Mining/ShareRecorder.cs:146-153 | A batch lost without an exception |
| ShareFallback.OneFailureHoldsUpAll | src/Miningcore/Mining/ShareRecorder.cs:122-255 | A file written by any number of fallbacks, of more than a batch, whose first commit fails: one more commit stores all or nothing |
| ShareTornWrites.TornWritten | src/Miningcore/Mining/ShareRecorder.cs:135-139 | What is read from any number of characters of a batch and the whole of the next |
| ShareTornWrites.TornWriteSwallowsShare | src/Miningcore/Mining/ShareRecorder.cs:122-255 | After a write that stopped within a line, the import gets that batch's whole lines and all but the first share of the next batch, and counts one malformed record |
| ShareTornWrites.WholeLinesLoseNothing | src/Miningcore/Mining/ShareRecorder.cs:122-255 | After one that stopped at the end of a line nothing else is lost |
| ShareTornWrites.TornHeaderSwallowsShare | src/Miningcore/Mining/ShareRecorder.cs:131-161 | After a header that stopped within a comment the next share is read as a part of it, and not counted |
| StratumFraming.StratumConnection.constructor | src/Miningcore/Stratum/StratumConnection.cs:33-62 | A maximum that is not positive means the default |
| StratumFraming.StratumConnection.ProcessProxyHeader | src/Miningcore/Stratum/StratumConnection.cs:619-660 | Consumes a trusted header, rejects a spoofed or missing one, and never runs again |
| StratumFraming.StratumConnection.ProcessReceivePipe | src/Miningcore/Stratum/StratumConnection.cs:275-315 | The loop's handled requests, header and failure are those of the function on chunks |
| StratumFraming.LinesMakeUp | src/Miningcore/Stratum/StratumConnection.cs:294-307 | Bytes are lines without line feeds, each ended by one, and an unread rest without any |
| StratumFraming.OnlySplit | src/Miningcore/Stratum/StratumConnection.cs:294-307 | There is no other way to split them |
| StratumFraming.FramingIgnoresChunks | src/Miningcore/Stratum/StratumConnection.cs:283-309 | What happens is what the newline-terminated lines of all bytes make happen, in order and once each, or of all bytes before the read that is too long |
| StratumFraming.NotFittingStops | src/Miningcore/Stratum/StratumConnection.cs:288-289 | A delivery with a read that is too long does not survive |
| StratumFraming.SurvivesExactlyWhen | src/Miningcore/Stratum/StratumConnection.cs:283-309 | A connection survives its input if and only if no read is too long and all lines are handled |
| StratumFraming.HandledExactly | src/Miningcore/Stratum/StratumConnection.cs:302-303 | All lines are handled if and only if the first is not rejected as a header and no request fails |
| StratumFraming.OnlyFirstLineIsHeader | src/Miningcore/Stratum/StratumConnection.cs:302-303 | Only the first line can be consumed as a header; all others are requests |
| StratumFraming.HandledLinesAreShort | src/Miningcore/Stratum/StratumConnection.cs:288-289 | No handled line reaches the maximum length |
| StratumFraming.EveryChunkingFitsIff | src/Miningcore/Stratum/StratumConnection.cs:288-289 | Every delivery passes the length check if and only if all bytes fit at once |
| StratumFraming.SomeChunkingFitsIff | src/Miningcore/Stratum/StratumConnection.cs:288-289 | Some delivery passes it if and only if every line with its terminator, and the rest, fit |
| StratumFraming.ArrivalMatters | src/Miningcore/Stratum/StratumConnection.cs:288-289 | The same bytes, delivered in two ways: once the loop handles all requests, once it stops before the first |

## Left out

- blake2b, siphash, SHA-256 and all native hashing: arbitrary functions.
- The truncated-index phase of the Equihash solver, `IsProbablyDuplicate`, and so whether the recreate phase is given every truncated solution: `validBlock` decides in the end.
- BeamSolver.OptimisedSolve: cancellation, lists of 2^32 and more elements (the loop counters are 32-bit), and memory; `validBlock` is a function.
- `std::sort`: an insertion sort stands in; the proofs use only that it permutes and sorts.
- BitPacking.ExpandArray: element width 32, which the assertion admits but for which the mask shift is undefined, is excluded.
- BitPacking.CompressArray: element width 32 is excluded for the same reason, and so are inputs that are not whole elements, for which the last element would be read past the input; all callers pass whole elements.
- Rows and step elements are values: a C++ row's fixed buffer is a sequence, copied where the source copies it.
- `BigRational` is a value, not a struct assigned in place; `Construct` and `Simplify` follow the assignments on local variables.
- `BigRational(double)`, the conversions to double, the three-argument constructor and `default(BigRational)`: no exactness claim is possible.
- `LeastCommonDenominator`, hash codes, parsing and formatting of rationals, and conversions to integer types.
- DecimalConversion.ToDecimal: when both parts fit a decimal the platform's rounding division is a parameter.
- Liveness of `Take`, fairness, and machine initialisation that never returns.
- What the native initialisers do when they are handed a null pointer of a failed allocation.
- RandomARQ, Panthera and RandomXSCash repeat the RandomX pool.
- VarDiffStale.StaleStepsExactly: for retarget times of eleven target times and more, or a variance of 100 percent, updates do not observe every average, and only the limited half, `AppliedStepIsLimited`, is stated.
- Rounding and overflow of doubles in `VarDiffManager`: exact reals, apart from division by zero.
- Effort statistics of blocks, deleted shares, notifications and logging.
- A commit that succeeds on the server but is reported as failed: a failed transaction leaves the store unchanged here.
- Rounding of decimal amounts and of the database columns.
- The circuit breaker's timing is a parameter. A fallback write that stops half-way ends between two characters here, not within one.
- ShareTornWrites.TornWriteSwallowsShare: that the JSON parser rejects two records on one line, the first whole or cut off, is assumed of the parameter.
- Whitespace beyond blank, tab and line breaks when lines are trimmed; culture-sensitive `StartsWith`.
- Parser failures that are not JSON errors: they end the import in the source.
- Cancellation, pipe back-pressure, TLS, JSON parsing of requests.
