/** What the payout ledger guarantees over every sequence of passes, payments and failures. */
module PayoutRuns {
  import opened Payouts
  import opened Sequences
  import opened Wrappers

  /** The store, the blocks a pass has still to process, and two histories: the blocks whose
      transactions were committed, and how much was reset without a payment row. */
  datatype Ledger = Ledger(
    store: Store,
    pass: Option<seq<Block>>,
    processed: seq<Block>,
    unrecorded: real)

  datatype Action =
    | InsertBlock(b: Block)
    | BeginPass(updated: seq<Block>)
    | BlockTx(commits: bool)
    | EndPass
    | Persist(payouts: seq<Payout>, commits: bool)

  const Empty: Ledger := Ledger(Store(map[], [], [], []), None, [], 0.0)

  predicate Distinct(bs: seq<Block>) {
    forall i, j :: 0 <= i < j < |bs| ==> bs[i].id != bs[j].id
  }

  predicate AllPending(s: Store, bs: seq<Block>) {
    forall b :: b in bs ==> b.id in s.blocks && s.blocks[b.id].status == Pending
  }

  function ResetWithoutRow(pool: Pool, ps: seq<Payout>): real {
    if ps == [] then 0.0
    else ResetWithoutRow(pool, ps[..|ps| - 1]) + if Recorded(pool, ps[|ps| - 1]) then 0.0 else ps[|ps| - 1].amount
  }

  /** A pass starts from whatever a classifier returns. New blocks may be inserted and payments
      persisted at any time; every transaction may fail. */
  predicate Step(pool: Pool, scheme: Scheme, l: Ledger, a: Action, l': Ledger) {
    match a
    case InsertBlock(b) =>
      && b.id !in l.store.blocks && b.status == Pending
      && l' == l.(store := l.store.(blocks := l.store.blocks[b.id := b]))
    case BeginPass(updated) =>
      l.pass == None && l' == l.(pass := Some(OrderByCreated(updated)))
    case BlockTx(commits) =>
      && l.pass.Some? && |l.pass.value| > 0
      && var b := l.pass.value[0];
         l' == if !commits then l.(pass := None)
               else l.(store := AfterBlock(pool, scheme, l.store, b),
                       pass := Some(l.pass.value[1..]),
                       processed := l.processed + [b])
    case EndPass =>
      l.pass == Some([]) && l' == l.(pass := None)
    case Persist(payouts, commits) =>
      l' == if !commits then l
            else l.(store := AfterPayouts(pool, l.store, payouts),
                    unrecorded := l.unrecorded + ResetWithoutRow(pool, payouts))
  }

  ghost predicate Next(pool: Pool, scheme: Scheme, l: Ledger, l': Ledger) {
    exists a :: Step(pool, scheme, l, a, l')
  }

  ghost predicate Run(pool: Pool, scheme: Scheme, run: seq<Ledger>) {
    && |run| > 0 && run[0] == Empty
    && forall i :: 0 < i < |run| ==> Next(pool, scheme, run[i - 1], run[i])
  }

  /** The classifier returns blocks that are stored as pending, each once. */
  predicate KeepsPromise(l: Ledger, a: Action) {
    a.BeginPass? ==> Distinct(a.updated) && AllPending(l.store, a.updated)
  }

  ghost predicate PromisedNext(pool: Pool, scheme: Scheme, l: Ledger, l': Ledger) {
    exists a :: Step(pool, scheme, l, a, l') && KeepsPromise(l, a)
  }

  ghost predicate PromisedRun(pool: Pool, scheme: Scheme, run: seq<Ledger>) {
    && |run| > 0 && run[0] == Empty
    && forall i :: 0 < i < |run| ==> PromisedNext(pool, scheme, run[i - 1], run[i])
  }

  // --- Sums ---

  function BalanceOf(rows: seq<BalanceRow>, a: Address): real {
    if rows == [] then 0.0 else if rows[0].address == a then rows[0].amount else BalanceOf(rows[1..], a)
  }

  function RowsTotal(rows: seq<BalanceRow>): real {
    if rows == [] then 0.0 else rows[0].amount + RowsTotal(rows[1..])
  }

  function PaymentsTotal(ps: seq<Payment>): real {
    if ps == [] then 0.0 else PaymentsTotal(ps[..|ps| - 1]) + ps[|ps| - 1].amount
  }

  /** The sum of the changes at an address. */
  function ChangesAt(cs: seq<Change>, a: Address): real {
    if cs == [] then 0.0
    else ChangesAt(cs[..|cs| - 1], a) + if cs[|cs| - 1].address == a then cs[|cs| - 1].amount else 0.0
  }

  /** The changes that are rewards for blocks, and those that are for block `id`. */
  function Rewards(cs: seq<Change>): real {
    if cs == [] then 0.0 else Rewards(cs[..|cs| - 1]) + if cs[|cs| - 1].block.Some? then cs[|cs| - 1].amount else 0.0
  }

  function RewardsFor(cs: seq<Change>, id: BlockId): seq<Change> {
    if cs == [] then []
    else RewardsFor(cs[..|cs| - 1], id) + if cs[|cs| - 1].block == Some(id) then [cs[|cs| - 1]] else []
  }

  // --- The invariant ---

  /** Every balance is the sum of its changes, and what was credited is either still there, was paid
      with a payment row, or was reset without one. */
  ghost predicate Conserved(l: Ledger) {
    && (forall a :: BalanceOf(l.store.balances, a) == ChangesAt(l.store.changes, a))
    && Rewards(l.store.changes) == RowsTotal(l.store.balances) + PaymentsTotal(l.store.payments) + l.unrecorded
  }

  predicate Confirms(b: Block, id: BlockId) { b.status == Confirmed && b.id == id }

  /** The credits of the entries that confirm block `id`, and how many there are. */
  function ConfirmedEntries(pool: Pool, scheme: Scheme, bs: seq<Block>, id: BlockId): seq<Change> {
    if bs == [] then []
    else
      var b := bs[|bs| - 1];
      ConfirmedEntries(pool, scheme, bs[..|bs| - 1], id) + if Confirms(b, id) then CreditsFor(pool, scheme, b) else []
  }

  function Entries(bs: seq<Block>, id: BlockId): nat {
    if bs == [] then 0 else Entries(bs[..|bs| - 1], id) + if Confirms(bs[|bs| - 1], id) then 1 else 0
  }

  /** Every block was credited once for each entry that confirmed it. */
  ghost predicate CreditedPerEntry(pool: Pool, scheme: Scheme, l: Ledger) {
    forall id :: RewardsFor(l.store.changes, id) == ConfirmedEntries(pool, scheme, l.processed, id)
  }

  ghost predicate Inv(pool: Pool, scheme: Scheme, l: Ledger) {
    Conserved(l) && CreditedPerEntry(pool, scheme, l)
  }

  predicate StoredAsConfirmed(s: Store, id: BlockId) { id in s.blocks && s.blocks[id].status == Confirmed }

  /** The blocks stored as confirmed are those that one entry confirmed, and none was confirmed twice. */
  ghost predicate ConfirmedOnce(l: Ledger) {
    forall id :: Entries(l.processed, id) == if StoredAsConfirmed(l.store, id) then 1 else 0
  }

  predicate PassOk(l: Ledger) {
    l.pass.Some? ==> Distinct(l.pass.value) && AllPending(l.store, l.pass.value)
  }

  ghost predicate PromisedInv(l: Ledger) { ConfirmedOnce(l) && PassOk(l) }

  // --- Money ---

  lemma {:induction false} CreditedRow(rows: seq<BalanceRow>, a: Address, amount: real, b: Address)
    ensures BalanceOf(Credited(rows, a, amount), b) == BalanceOf(rows, b) + if a == b then amount else 0.0
    ensures RowsTotal(Credited(rows, a, amount)) == RowsTotal(rows) + amount
  {
    if rows == [] {
      assert [BalanceRow(a, amount)][1..] == [];
    } else if rows[0].address != a {
      CreditedRow(rows[1..], a, amount, b);
    }
  }

  lemma ChangeKeepsSums(s: Store, c: Change)
    ensures var s' := WithChange(s, c);
      && Rewards(s'.changes) == Rewards(s.changes) + (if c.block.Some? then c.amount else 0.0)
      && RowsTotal(s'.balances) == RowsTotal(s.balances) + c.amount
      && (forall a :: BalanceOf(s'.balances, a) - ChangesAt(s'.changes, a)
            == BalanceOf(s.balances, a) - ChangesAt(s.changes, a))
  {
    var s' := WithChange(s, c);
    assert s'.changes[..|s'.changes| - 1] == s.changes;
    CreditedRow(s.balances, c.address, c.amount, c.address);
    forall a
      ensures BalanceOf(s'.balances, a) - ChangesAt(s'.changes, a)
        == BalanceOf(s.balances, a) - ChangesAt(s.changes, a)
    {
      CreditedRow(s.balances, c.address, c.amount, a);
    }
  }

  /** Rewards come from nowhere else: crediting adds as much to the balances as to the rewards. */
  lemma {:induction false} CreditsConserve(l: Ledger, cs: seq<Change>)
    requires Conserved(l) && forall c :: c in cs ==> c.block.Some?
    ensures Conserved(l.(store := WithChanges(l.store, cs)))
  {
    hide WithChange;
    if cs != [] {
      var before := cs[..|cs| - 1];
      CreditsConserve(l, before);
      ChangeKeepsSums(WithChanges(l.store, before), cs[|cs| - 1]);
      PaymentsUnchanged(WithChanges(l.store, before), cs[|cs| - 1]);
    }
  }

  lemma PaymentsUnchanged(s: Store, c: Change)
    ensures WithChange(s, c).payments == s.payments && WithChange(s, c).blocks == s.blocks
    ensures WithChange(s, c).changes == s.changes + [c]
  {
  }

  lemma PayoutConserves(pool: Pool, l: Ledger, p: Payout, l': Ledger)
    requires Conserved(l)
    requires l'.store == AfterPayout(pool, l.store, p)
    requires l'.unrecorded == l.unrecorded + if Recorded(pool, p) then 0.0 else p.amount
    ensures Conserved(l')
  {
    hide WithChange, Recorded;
    var payment := Payment(p.address, p.amount, p.confirmation);
    var s := if Recorded(pool, p) then l.store.(payments := l.store.payments + [payment]) else l.store;
    assert (l.store.payments + [payment])[..|l.store.payments|] == l.store.payments;
    ChangeKeepsSums(s, Change(p.address, -p.amount, None));
    PaymentsUnchanged(s, Change(p.address, -p.amount, None));
  }

  lemma {:induction false} PayoutsConserve(pool: Pool, l: Ledger, ps: seq<Payout>, l': Ledger)
    requires Conserved(l)
    requires l'.store == AfterPayouts(pool, l.store, ps)
    requires l'.unrecorded == l.unrecorded + ResetWithoutRow(pool, ps)
    ensures Conserved(l')
  {
    hide AfterPayout, Recorded;
    if ps != [] {
      var before := ps[..|ps| - 1];
      var m := l.(store := AfterPayouts(pool, l.store, before),
                  unrecorded := l.unrecorded + ResetWithoutRow(pool, before));
      PayoutsConserve(pool, l, before, m);
      PayoutConserves(pool, m, ps[|ps| - 1], l');
    }
  }

  /** What is paid to an address. */
  function PaidTo(ps: seq<Payout>, a: Address): real {
    if ps == [] then 0.0
    else PaidTo(ps[..|ps| - 1], a) + if ps[|ps| - 1].address == a then ps[|ps| - 1].amount else 0.0
  }

  lemma {:induction false} PayoutsReduce(pool: Pool, s: Store, ps: seq<Payout>, a: Address)
    ensures BalanceOf(AfterPayouts(pool, s, ps).balances, a) == BalanceOf(s.balances, a) - PaidTo(ps, a)
  {
    hide Credited, BalanceOf, Recorded;
    if ps != [] {
      var front, p := ps[..|ps| - 1], ps[|ps| - 1];
      PayoutsReduce(pool, s, front, a);
      CreditedRow(AfterPayouts(pool, s, front).balances, p.address, -p.amount, a);
    }
  }

  predicate DistinctAddresses(rows: seq<BalanceRow>) {
    forall i, j :: 0 <= i < j < |rows| ==> rows[i].address != rows[j].address
  }

  lemma {:induction false} PaidInFull(rows: seq<BalanceRow>, confirmation: string, a: Address)
    requires DistinctAddresses(rows)
    ensures forall i :: 0 <= i < |rows| && rows[i].address == a ==>
              PaidTo(PaidBy(rows, confirmation), a) == rows[i].amount
    ensures (forall i :: 0 <= i < |rows| ==> rows[i].address != a) ==> PaidTo(PaidBy(rows, confirmation), a) == 0.0
  {
    if rows != [] {
      var front := rows[..|rows| - 1];
      PaidInFull(front, confirmation, a);
      assert PaidBy(rows, confirmation)[..|rows| - 1] == PaidBy(front, confirmation);
    }
  }

  /** Paying balances as they are stored leaves nothing of them, and all other balances alone. */
  lemma PaidOutIsZero(pool: Pool, s: Store, rows: seq<BalanceRow>, confirmation: string, a: Address)
    requires DistinctAddresses(rows)
    requires forall i :: 0 <= i < |rows| ==> BalanceOf(s.balances, rows[i].address) == rows[i].amount
    ensures BalanceOf(AfterPayouts(pool, s, PaidBy(rows, confirmation)).balances, a)
      == if exists i :: 0 <= i < |rows| && rows[i].address == a then 0.0 else BalanceOf(s.balances, a)
  {
    hide AfterPayouts, BalanceOf, PaidBy, PaidTo;
    PayoutsReduce(pool, s, PaidBy(rows, confirmation), a);
    PaidInFull(rows, confirmation, a);
  }

  // --- Crediting ---

  lemma {:induction false} RewardsForAppend(cs: seq<Change>, ds: seq<Change>, id: BlockId)
    ensures RewardsFor(cs + ds, id) == RewardsFor(cs, id) + RewardsFor(ds, id)
  {
    hide RewardsFor;
    if ds == [] {
      assert cs + ds == cs;
      NoRewards(id);
    } else {
      var front, last := ds[..|ds| - 1], ds[|ds| - 1];
      RewardsForAppend(cs, front, id);
      OneMoreReward(cs + front, last, id);
      OneMoreReward(front, last, id);
      assert ds == front + [last] && cs + ds == (cs + front) + [last];
    }
  }

  lemma NoRewards(id: BlockId)
    ensures RewardsFor([], id) == []
  {
  }

  lemma OneMoreReward(cs: seq<Change>, c: Change, id: BlockId)
    ensures RewardsFor(cs + [c], id) == RewardsFor(cs, id) + if c.block == Some(id) then [c] else []
  {
    assert (cs + [c])[..|cs|] == cs;
  }

  lemma {:induction false} RewardsForOneBlock(cs: seq<Change>, id: BlockId, other: BlockId)
    requires forall c :: c in cs ==> c.block == Some(id)
    ensures RewardsFor(cs, other) == if other == id then cs else []
  {
    if cs != [] {
      var front, last := cs[..|cs| - 1], cs[|cs| - 1];
      assert cs == front + [last];
      assert last in cs && forall c :: c in front ==> c in cs;
      RewardsForOneBlock(front, id, other);
    }
  }

  lemma {:induction false} RecipientCreditsAreFor(pool: Pool, b: Block, n: nat)
    requires n <= |pool.recipients|
    ensures forall c :: c in RecipientCredits(pool, b, n) ==> c.block == Some(b.id)
  {
    if n > 0 {
      RecipientCreditsAreFor(pool, b, n - 1);
    }
  }

  lemma CreditsAreForTheirBlock(pool: Pool, scheme: Scheme, b: Block)
    ensures forall c :: c in CreditsFor(pool, scheme, b) ==> c.block == Some(b.id)
  {
    RecipientCreditsAreFor(pool, b, |pool.recipients|);
  }

  lemma {:induction false} WithChangesAppends(s: Store, cs: seq<Change>)
    ensures var s' := WithChanges(s, cs);
      s'.changes == s.changes + cs && s'.blocks == s.blocks && s'.payments == s.payments
  {
    hide WithChange;
    if cs != [] {
      WithChangesAppends(s, cs[..|cs| - 1]);
      PaymentsUnchanged(WithChanges(s, cs[..|cs| - 1]), cs[|cs| - 1]);
      assert cs == cs[..|cs| - 1] + [cs[|cs| - 1]];
    }
  }

  /** The changes a block's transaction adds: all for that block. */
  lemma BlockAddsItsCredits(pool: Pool, scheme: Scheme, s: Store, b: Block, id: BlockId)
    ensures var s' := AfterBlock(pool, scheme, s, b);
      && RewardsFor(s'.changes, id)
         == RewardsFor(s.changes, id) + (if Confirms(b, id) then CreditsFor(pool, scheme, b) else [])
      && s'.blocks == (if b.id in s.blocks then s.blocks[b.id := b] else s.blocks)
  {
    hide CreditsFor, RewardsFor;
    if b.status == Confirmed {
      var cs := CreditsFor(pool, scheme, b);
      WithChangesAppends(s, cs);
      RewardsForAppend(s.changes, cs, id);
      CreditsAreForTheirBlock(pool, scheme, b);
      RewardsForOneBlock(cs, b.id, id);
    }
  }

  lemma {:induction false} PayoutsCreditNoBlock(pool: Pool, s: Store, ps: seq<Payout>, id: BlockId)
    ensures var s' := AfterPayouts(pool, s, ps);
      RewardsFor(s'.changes, id) == RewardsFor(s.changes, id) && s'.blocks == s.blocks
  {
    hide Recorded, WithChange;
    if ps != [] {
      var p, before := ps[|ps| - 1], AfterPayouts(pool, s, ps[..|ps| - 1]);
      PayoutsCreditNoBlock(pool, s, ps[..|ps| - 1], id);
      var c := Change(p.address, -p.amount, None);
      PaymentsUnchanged(before, c);
      PaymentsUnchanged(before.(payments := before.payments + [Payment(p.address, p.amount, p.confirmation)]), c);
      assert (before.changes + [c])[..|before.changes|] == before.changes;
    }
  }

  lemma OrderKeepsPending(s: Store, bs: seq<Block>)
    requires Distinct(bs) && AllPending(s, bs)
    ensures Distinct(OrderByCreated(bs)) && AllPending(s, OrderByCreated(bs))
  {
    hide OrderByCreated;
    var sorted := OrderByCreated(bs);
    OrderKeepsElements(bs);
    forall b | b in sorted
      ensures b in bs
    {
      assert b in multiset(sorted);
    }
    forall i, j | 0 <= i < j < |sorted|
      ensures sorted[i].id != sorted[j].id
    {
      if sorted[i].id == sorted[j].id {
        SameIdTwice(bs, sorted, i, j);
      }
    }
  }

  lemma SameIdTwice(bs: seq<Block>, sorted: seq<Block>, i: nat, j: nat)
    requires Distinct(bs) && multiset(sorted) == multiset(bs) && i < j < |sorted|
    ensures sorted[i].id != sorted[j].id
  {
    assert sorted[i] in multiset(bs) && sorted[j] in multiset(bs);
    var k :| 0 <= k < |bs| && bs[k] == sorted[i];
    OccursOnce(bs, k);
    if sorted[i] == sorted[j] {
      OccursTwice(sorted, i, j);
    }
  }

  // --- Every step, every run ---

  lemma OneMoreEntry(pool: Pool, scheme: Scheme, bs: seq<Block>, b: Block, id: BlockId)
    ensures ConfirmedEntries(pool, scheme, bs + [b], id)
      == ConfirmedEntries(pool, scheme, bs, id) + if Confirms(b, id) then CreditsFor(pool, scheme, b) else []
  {
    assert (bs + [b])[..|bs|] == bs;
  }

  lemma BlockTxKeeps(pool: Pool, scheme: Scheme, l: Ledger, l': Ledger)
    requires Inv(pool, scheme, l) && Step(pool, scheme, l, BlockTx(true), l')
    ensures Inv(pool, scheme, l')
  {
    hide CreditsFor, WithChanges, RewardsFor, AfterBlock, Conserved, ConfirmedEntries;
    var b := l.pass.value[0];
    BlockTxConserves(pool, scheme, l, b, l');
    forall id
      ensures RewardsFor(l'.store.changes, id) == ConfirmedEntries(pool, scheme, l'.processed, id)
    {
      BlockAddsItsCredits(pool, scheme, l.store, b, id);
      OneMoreEntry(pool, scheme, l.processed, b, id);
    }
  }

  lemma BlockTxConserves(pool: Pool, scheme: Scheme, l: Ledger, b: Block, l': Ledger)
    requires Conserved(l) && l'.store == AfterBlock(pool, scheme, l.store, b) && l'.unrecorded == l.unrecorded
    ensures Conserved(l')
  {
    hide CreditsFor, WithChanges;
    CreditsAreForTheirBlock(pool, scheme, b);
    CreditsConserve(l, CreditsFor(pool, scheme, b));
  }

  lemma PersistKeeps(pool: Pool, scheme: Scheme, l: Ledger, payouts: seq<Payout>, l': Ledger)
    requires Inv(pool, scheme, l) && Step(pool, scheme, l, Persist(payouts, true), l')
    ensures Inv(pool, scheme, l')
  {
    hide RewardsFor, AfterPayouts, ResetWithoutRow, Conserved, ConfirmedEntries;
    PayoutsConserve(pool, l, payouts, l');
    forall id
      ensures RewardsFor(l'.store.changes, id) == RewardsFor(l.store.changes, id)
    {
      PayoutsCreditNoBlock(pool, l.store, payouts, id);
    }
  }

  /** Every step, whatever the classifier returned. */
  lemma StepKeepsInv(pool: Pool, scheme: Scheme, l: Ledger, a: Action, l': Ledger)
    requires Inv(pool, scheme, l) && Step(pool, scheme, l, a, l')
    ensures Inv(pool, scheme, l')
  {
    hide RewardsFor, AfterBlock, AfterPayouts, OrderByCreated, ResetWithoutRow, ConfirmedEntries;
    if a.BlockTx? && a.commits {
      BlockTxKeeps(pool, scheme, l, l');
    } else if a.Persist? && a.commits {
      PersistKeeps(pool, scheme, l, a.payouts, l');
    }
  }

  lemma EmptyInv(pool: Pool, scheme: Scheme)
    ensures Inv(pool, scheme, Empty) && PromisedInv(Empty)
  {
  }

  /** Along every run no money is lost, and every block was credited once for each entry that
      confirmed it. */
  lemma {:induction false} RunKeepsInv(pool: Pool, scheme: Scheme, run: seq<Ledger>, n: nat)
    requires Run(pool, scheme, run) && n < |run|
    ensures Inv(pool, scheme, run[n])
  {
    hide Inv, Step;
    if n == 0 {
      EmptyInv(pool, scheme);
    } else {
      RunKeepsInv(pool, scheme, run, n - 1);
      var a :| Step(pool, scheme, run[n - 1], a, run[n]);
      StepKeepsInv(pool, scheme, run[n - 1], a, run[n]);
    }
  }

  /** Along every run: all that was credited for blocks is still owed, was paid with a payment row, or
      was reset without one; and every balance is the sum of its changes. */
  lemma MoneyIsConserved(pool: Pool, scheme: Scheme, run: seq<Ledger>, n: nat)
    requires Run(pool, scheme, run) && n < |run|
    ensures var l := run[n];
      && Rewards(l.store.changes) == RowsTotal(l.store.balances) + PaymentsTotal(l.store.payments) + l.unrecorded
      && forall a :: BalanceOf(l.store.balances, a) == ChangesAt(l.store.changes, a)
  {
    hide Run, CreditedPerEntry;
    RunKeepsInv(pool, scheme, run, n);
  }

  // --- At most once ---

  /** What was credited for block `id` is nothing, or the credits of one entry that confirmed it. */
  ghost predicate CreditedAtMostOnce(pool: Pool, scheme: Scheme, l: Ledger, id: BlockId) {
    || RewardsFor(l.store.changes, id) == []
    || exists b :: b in l.processed && Confirms(b, id)
                   && RewardsFor(l.store.changes, id) == CreditsFor(pool, scheme, b)
  }

  /** An entry's credits are a part of those of all entries, and not all if there are more. */
  lemma {:induction false} EntryIsPart(pool: Pool, scheme: Scheme, bs: seq<Block>, id: BlockId, b: Block)
    requires b in bs && Confirms(b, id)
    requires forall c :: c in bs && Confirms(c, id) ==> CreditsFor(pool, scheme, c) != []
    ensures Entries(bs, id) >= 1
    ensures |ConfirmedEntries(pool, scheme, bs, id)| >= |CreditsFor(pool, scheme, b)|
    ensures Entries(bs, id) > 1 ==> |ConfirmedEntries(pool, scheme, bs, id)| > |CreditsFor(pool, scheme, b)|
  {
    hide CreditsFor;
    var front, last := bs[..|bs| - 1], bs[|bs| - 1];
    assert bs == front + [last];
    if b in front {
      EntryIsPart(pool, scheme, front, id, b);
    } else {
      SomeCredits(pool, scheme, front, id);
    }
  }

  lemma {:induction false} SomeCredits(pool: Pool, scheme: Scheme, bs: seq<Block>, id: BlockId)
    requires forall c :: c in bs && Confirms(c, id) ==> CreditsFor(pool, scheme, c) != []
    ensures Entries(bs, id) > 0 <==> ConfirmedEntries(pool, scheme, bs, id) != []
  {
    hide CreditsFor;
    if bs != [] {
      assert bs == bs[..|bs| - 1] + [bs[|bs| - 1]];
      SomeCredits(pool, scheme, bs[..|bs| - 1], id);
    }
  }

  lemma {:induction false} OnlyEntry(pool: Pool, scheme: Scheme, bs: seq<Block>, id: BlockId) returns (b: Block)
    requires Entries(bs, id) == 1
    ensures b in bs && Confirms(b, id) && ConfirmedEntries(pool, scheme, bs, id) == CreditsFor(pool, scheme, b)
  {
    hide CreditsFor;
    var front, last := bs[..|bs| - 1], bs[|bs| - 1];
    assert bs == front + [last];
    if Confirms(last, id) {
      NoEntry(pool, scheme, front, id);
      b := last;
    } else {
      b := OnlyEntry(pool, scheme, front, id);
    }
  }

  lemma {:induction false} NoEntry(pool: Pool, scheme: Scheme, bs: seq<Block>, id: BlockId)
    requires Entries(bs, id) == 0
    ensures ConfirmedEntries(pool, scheme, bs, id) == []
  {
    if bs != [] {
      NoEntry(pool, scheme, bs[..|bs| - 1], id);
    }
  }

  /** Along every run a block is credited at most once exactly when at most one entry confirmed it,
      provided that its entries have anything to credit. */
  lemma AtMostOnceExactly(pool: Pool, scheme: Scheme, run: seq<Ledger>, n: nat, id: BlockId)
    requires Run(pool, scheme, run) && n < |run|
    requires forall b :: b in run[n].processed && Confirms(b, id) ==> CreditsFor(pool, scheme, b) != []
    ensures CreditedAtMostOnce(pool, scheme, run[n], id) <==> Entries(run[n].processed, id) <= 1
  {
    hide Run, Conserved, CreditsFor, ConfirmedEntries, Entries, RewardsFor;
    RunKeepsInv(pool, scheme, run, n);
    var l := run[n];
    SomeCredits(pool, scheme, l.processed, id);
    if Entries(l.processed, id) == 0 {
      NoEntry(pool, scheme, l.processed, id);
    } else if Entries(l.processed, id) == 1 {
      var b := OnlyEntry(pool, scheme, l.processed, id);
    } else {
      forall b | b in l.processed && Confirms(b, id)
        ensures RewardsFor(l.store.changes, id) != CreditsFor(pool, scheme, b)
      {
        EntryIsPart(pool, scheme, l.processed, id, b);
      }
    }
  }

  // --- One pass ---

  /** After step `m` a pass over `updated` began, and at step `n` it has got through its list. Blocks
      may be inserted and payments persisted in between. */
  ghost predicate Passed(pool: Pool, scheme: Scheme, run: seq<Ledger>, m: nat, n: nat, updated: seq<Block>) {
    && m < n < |run| && Step(pool, scheme, run[m], BeginPass(updated), run[m + 1])
    && (forall i :: m < i <= n ==> run[i].pass.Some?) && run[n].pass == Some([])
  }

  lemma PassStep(pool: Pool, scheme: Scheme, l: Ledger, a: Action, l': Ledger)
    requires Step(pool, scheme, l, a, l') && l.pass.Some? && l'.pass.Some?
    ensures l'.processed + l'.pass.value == l.processed + l.pass.value
  {
    hide AfterBlock, AfterPayouts, OrderByCreated, ResetWithoutRow;
    if a.BlockTx? {
      assert l.pass.value == [l.pass.value[0]] + l.pass.value[1..];
    }
  }

  /** What a pass has committed and what it has still to process are its list, behind what was
      committed before. */
  lemma {:induction false} PassProgress(pool: Pool, scheme: Scheme, run: seq<Ledger>, m: nat, n: nat,
                                        updated: seq<Block>)
    requires Run(pool, scheme, run) && m < n < |run| && Step(pool, scheme, run[m], BeginPass(updated), run[m + 1])
    requires forall i :: m < i <= n ==> run[i].pass.Some?
    ensures run[n].processed + run[n].pass.value == run[m].processed + OrderByCreated(updated)
  {
    hide OrderByCreated;
    if n > m + 1 {
      hide Step;
      PassProgress(pool, scheme, run, m, n - 1, updated);
      var a :| Step(pool, scheme, run[n - 1], a, run[n]);
      PassStep(pool, scheme, run[n - 1], a, run[n]);
    }
  }

  lemma {:induction false} EntriesAppend(bs: seq<Block>, cs: seq<Block>, id: BlockId)
    ensures Entries(bs + cs, id) == Entries(bs, id) + Entries(cs, id)
  {
    if cs == [] {
      assert bs + cs == bs;
    } else {
      EntriesAppend(bs, cs[..|cs| - 1], id);
      assert (bs + cs)[..|bs + cs| - 1] == bs + cs[..|cs| - 1];
    }
  }

  lemma WithoutOne(bs: seq<Block>, k: nat, id: BlockId)
    requires k < |bs|
    ensures var rest := bs[..k] + bs[k + 1..];
      && |rest| == |bs| - 1 && multiset(rest) == multiset(bs) - multiset{bs[k]}
      && Entries(bs, id) == Entries(rest, id) + if Confirms(bs[k], id) then 1 else 0
  {
    hide Entries;
    var front, back := bs[..k], bs[k + 1..];
    assert bs == front + [bs[k]] + back;
    assert multiset(bs) == multiset(front) + multiset{bs[k]} + multiset(back);
    EntriesAppend(front, back, id);
    EntriesAppend(front + [bs[k]], back, id);
    OneMoreConfirms(front, bs[k], id);
  }

  lemma OneMoreConfirms(bs: seq<Block>, b: Block, id: BlockId)
    ensures Entries(bs + [b], id) == Entries(bs, id) + if Confirms(b, id) then 1 else 0
  {
    assert (bs + [b])[..|bs|] == bs;
  }

  lemma LongerRun(pool: Pool, scheme: Scheme, run: seq<Ledger>, a: Action, l: Ledger)
    requires Run(pool, scheme, run) && Step(pool, scheme, run[|run| - 1], a, l)
    ensures Run(pool, scheme, run + [l])
  {
    hide Step;
    var longer := run + [l];
    forall i | 0 < i < |longer|
      ensures Next(pool, scheme, longer[i - 1], longer[i])
    {
      assert i < |run| ==> longer[i - 1] == run[i - 1] && longer[i] == run[i];
    }
  }

  lemma {:induction false} FirstBlocks(pool: Pool, scheme: Scheme, run: seq<Ledger>, updated: seq<Block>, n: nat)
    returns (longer: seq<Ledger>)
    requires Run(pool, scheme, run) && run[|run| - 1].pass == None && n <= |OrderByCreated(updated)|
    ensures Run(pool, scheme, longer) && |longer| == |run| + 1 + n
    ensures longer[|longer| - 1]
      == run[|run| - 1].(store := AfterBlocks(pool, scheme, run[|run| - 1].store, OrderByCreated(updated)[..n]),
                         pass := Some(OrderByCreated(updated)[n..]),
                         processed := run[|run| - 1].processed + OrderByCreated(updated)[..n])
  {
    hide Run, AfterBlock, OrderByCreated;
    NotEmpty(pool, scheme, run);
    var ordered, l := OrderByCreated(updated), run[|run| - 1];
    if n == 0 {
      var begun := l.(pass := Some(ordered));
      LongerRun(pool, scheme, run, BeginPass(updated), begun);
      longer := run + [begun];
      assert ordered[..0] == [] && ordered[0..] == ordered && l.processed + [] == l.processed;
    } else {
      longer := FirstBlocks(pool, scheme, run, updated, n - 1);
      var before, b := longer[|longer| - 1], ordered[n - 1];
      assert ordered[n - 1..] == [b] + ordered[n..] && ordered[..n] == ordered[..n - 1] + [b];
      assert ordered[..n][..n - 1] == ordered[..n - 1];
      var after := Ledger(AfterBlock(pool, scheme, before.store, b), Some(ordered[n..]), before.processed + [b],
                          before.unrecorded);
      assert l.processed + ordered[..n - 1] + [b] == l.processed + ordered[..n];
      LongerRun(pool, scheme, longer, BlockTx(true), after);
      longer := longer + [after];
    }
  }

  lemma NotEmpty(pool: Pool, scheme: Scheme, run: seq<Ledger>)
    requires Run(pool, scheme, run)
    ensures |run| > 0
  {
  }

  /** What `UpdatePoolBalances` leaves behind is what a run of the ledger leaves: it commits the first `done`
      blocks of the pass and, if there are more, fails at the next; either way the pass is over. */
  lemma PassIsRun(pool: Pool, scheme: Scheme, run: seq<Ledger>, updated: seq<Block>, done: nat)
    returns (longer: seq<Ledger>)
    requires Run(pool, scheme, run) && run[|run| - 1].pass == None && done <= |OrderByCreated(updated)|
    ensures Run(pool, scheme, longer) && |longer| == |run| + done + 2
    ensures longer[|longer| - 1]
      == run[|run| - 1].(store := AfterBlocks(pool, scheme, run[|run| - 1].store, OrderByCreated(updated)[..done]),
                         processed := run[|run| - 1].processed + OrderByCreated(updated)[..done])
  {
    hide Run, AfterBlock, AfterBlocks, OrderByCreated;
    NotEmpty(pool, scheme, run);
    var ordered := OrderByCreated(updated);
    longer := FirstBlocks(pool, scheme, run, updated, done);
    var last := longer[|longer| - 1];
    if done == |ordered| {
      assert ordered[done..] == [];
      LongerRun(pool, scheme, longer, EndPass, last.(pass := None));
    } else {
      LongerRun(pool, scheme, longer, BlockTx(false), last.(pass := None));
    }
    longer := longer + [last.(pass := None)];
  }

  /** The order of a list does not matter to what it confirms. */
  lemma {:induction false} EntriesPermuted(bs: seq<Block>, cs: seq<Block>, id: BlockId)
    requires multiset(bs) == multiset(cs)
    ensures Entries(bs, id) == Entries(cs, id)
    decreases |bs|
  {
    hide Entries, Confirms;
    if bs == [] {
      assert |multiset(cs)| == 0;
    } else {
      assert bs[0] in multiset(cs);
      var k :| 0 <= k < |cs| && cs[k] == bs[0];
      WithoutOne(bs, 0, id);
      WithoutOne(cs, k, id);
      EntriesPermuted(bs[..0] + bs[1..], cs[..k] + cs[k + 1..], id);
    }
  }

  /** A pass adds the entries of its list to those before it. */
  lemma PassEntries(pool: Pool, scheme: Scheme, run: seq<Ledger>, m: nat, n: nat, updated: seq<Block>, id: BlockId)
    requires Run(pool, scheme, run) && Passed(pool, scheme, run, m, n, updated)
    ensures Entries(run[n].processed, id) == Entries(run[m].processed, id) + Entries(updated, id)
    ensures forall b :: b in run[n].processed ==> b in run[m].processed || b in updated
    ensures forall b :: b in run[m].processed ==> b in run[n].processed
  {
    hide Run, Step, OrderByCreated, Entries;
    PassProgress(pool, scheme, run, m, n, updated);
    var ordered := OrderByCreated(updated);
    assert run[n].processed == run[m].processed + ordered;
    EntriesAppend(run[m].processed, ordered, id);
    OrderKeepsElements(updated);
    EntriesPermuted(ordered, updated, id);
    forall b | b in ordered
      ensures b in updated
    {
      assert b in multiset(ordered);
    }
  }

  /** After a pass a block is credited at most once exactly when its list confirms the block at most
      once, and not at all if it was credited before. */
  lemma PassCreditsOnceExactly(pool: Pool, scheme: Scheme, run: seq<Ledger>, m: nat, n: nat, updated: seq<Block>,
                               id: BlockId)
    requires Run(pool, scheme, run) && Passed(pool, scheme, run, m, n, updated)
    requires forall b :: (b in run[m].processed || b in updated) && Confirms(b, id) ==>
               CreditsFor(pool, scheme, b) != []
    ensures CreditedAtMostOnce(pool, scheme, run[n], id) <==>
              if RewardsFor(run[m].store.changes, id) == [] then Entries(updated, id) <= 1
              else Entries(updated, id) == 0 && CreditedAtMostOnce(pool, scheme, run[m], id)
  {
    hide Run, Conserved, CreditsFor, ConfirmedEntries, Entries, RewardsFor, CreditedAtMostOnce;
    PassEntries(pool, scheme, run, m, n, updated, id);
    AtMostOnceExactly(pool, scheme, run, m, id);
    AtMostOnceExactly(pool, scheme, run, n, id);
    RunKeepsInv(pool, scheme, run, m);
    SomeCredits(pool, scheme, run[m].processed, id);
  }

  // --- When the classifier keeps its promise ---

  lemma StepKeepsPromise(pool: Pool, scheme: Scheme, l: Ledger, a: Action, l': Ledger)
    requires PromisedInv(l) && Step(pool, scheme, l, a, l') && KeepsPromise(l, a)
    ensures PromisedInv(l')
  {
    hide CreditsFor, AfterBlock, AfterPayouts, OrderByCreated, ResetWithoutRow, Entries;
    match a {
      case BlockTx(commits) =>
        if commits {
          ConfirmedOnceMore(pool, scheme, l, l');
        }
      case Persist(payouts, commits) => PayoutsCreditNoBlock(pool, l.store, payouts, 0);
      case BeginPass(updated) => OrderKeepsPending(l.store, updated);
      case InsertBlock(_) =>
      case EndPass =>
    }
  }

  lemma ConfirmedOnceMore(pool: Pool, scheme: Scheme, l: Ledger, l': Ledger)
    requires PromisedInv(l) && Step(pool, scheme, l, BlockTx(true), l')
    ensures PromisedInv(l')
  {
    hide CreditsFor, AfterBlock, Entries, RewardsFor;
    var b := l.pass.value[0];
    BlockAddsItsCredits(pool, scheme, l.store, b, b.id);
    forall id
      ensures Entries(l'.processed, id) == Entries(l.processed, id) + if Confirms(b, id) then 1 else 0
    {
      OneMoreConfirms(l.processed, b, id);
    }
  }

  /** Then a block is stored as confirmed exactly when one entry confirmed it, and none was twice. */
  lemma {:induction false} PromisedRunKeepsInv(pool: Pool, scheme: Scheme, run: seq<Ledger>, n: nat)
    requires PromisedRun(pool, scheme, run) && n < |run|
    ensures Inv(pool, scheme, run[n]) && PromisedInv(run[n])
  {
    hide Inv, PromisedInv, Step, KeepsPromise;
    if n == 0 {
      EmptyInv(pool, scheme);
    } else {
      PromisedRunKeepsInv(pool, scheme, run, n - 1);
      var a :| Step(pool, scheme, run[n - 1], a, run[n]) && KeepsPromise(run[n - 1], a);
      StepKeepsInv(pool, scheme, run[n - 1], a, run[n]);
      StepKeepsPromise(pool, scheme, run[n - 1], a, run[n]);
    }
  }

  /** So after a run that kept the promise any list does no harm to a block exactly when it confirms it
      at most once, and not at all if it is stored as confirmed. */
  lemma PassAfterPromiseExactly(pool: Pool, scheme: Scheme, run: seq<Ledger>, m: nat, n: nat, updated: seq<Block>,
                                id: BlockId)
    requires Run(pool, scheme, run) && Passed(pool, scheme, run, m, n, updated)
    requires PromisedRun(pool, scheme, run[..m + 1])
    requires forall b :: (b in run[m].processed || b in updated) && Confirms(b, id) ==>
               CreditsFor(pool, scheme, b) != []
    ensures CreditedAtMostOnce(pool, scheme, run[n], id) <==>
              Entries(updated, id) <= if StoredAsConfirmed(run[m].store, id) then 0 else 1
  {
    hide Run, PromisedRun, Conserved, CreditsFor, ConfirmedEntries, Entries, RewardsFor, CreditedAtMostOnce;
    PromisedRunKeepsInv(pool, scheme, run[..m + 1], m);
    PassEntries(pool, scheme, run, m, n, updated, id);
    AtMostOnceExactly(pool, scheme, run, n, id);
  }

  /** Once confirmed, always confirmed, and never credited again. */
  lemma {:induction false} CreditedForever(pool: Pool, scheme: Scheme, run: seq<Ledger>, m: nat, n: nat, id: BlockId)
    requires PromisedRun(pool, scheme, run) && m <= n < |run|
    requires StoredAsConfirmed(run[m].store, id)
    ensures StoredAsConfirmed(run[n].store, id)
    ensures RewardsFor(run[n].store.changes, id) == RewardsFor(run[m].store.changes, id)
  {
    hide Conserved, RewardsFor, Step, ConfirmedOnce, PassOk, StoredAsConfirmed, KeepsPromise;
    if m < n {
      CreditedForever(pool, scheme, run, m, n - 1, id);
      PromisedRunKeepsInv(pool, scheme, run, n - 1);
      var a :| Step(pool, scheme, run[n - 1], a, run[n]) && KeepsPromise(run[n - 1], a);
      CreditedStays(pool, scheme, run[n - 1], a, run[n], id);
    }
  }

  lemma CreditedStays(pool: Pool, scheme: Scheme, l: Ledger, a: Action, l': Ledger, id: BlockId)
    requires PromisedInv(l) && Step(pool, scheme, l, a, l') && StoredAsConfirmed(l.store, id)
    ensures StoredAsConfirmed(l'.store, id)
    ensures RewardsFor(l'.store.changes, id) == RewardsFor(l.store.changes, id)
  {
    hide RewardsFor, AfterBlock, AfterPayouts, CreditsFor, ConfirmedOnce;
    match a {
      case BlockTx(commits) =>
        if commits {
          BlockAddsItsCredits(pool, scheme, l.store, l.pass.value[0], id);
        }
      case Persist(payouts, commits) => PayoutsCreditNoBlock(pool, l.store, payouts, id);
      case BeginPass(_) =>
      case InsertBlock(_) =>
      case EndPass =>
    }
  }

  /** What a confirmed block was credited: its recipients' shares and what the scheme made of the
      rest, which together with the pool's own share is the reward. */
  lemma ConfirmedBlockIsFullyCredited(pool: Pool, scheme: Scheme, l: Ledger, l': Ledger)
    requires Inv(pool, scheme, l) && PromisedInv(l)
    requires Step(pool, scheme, l, BlockTx(true), l') && l.pass.value[0].status == Confirmed
    ensures var b, n := l.pass.value[0], |pool.recipients|;
      && RewardsFor(l.store.changes, b.id) == []
      && RewardsFor(l'.store.changes, b.id) == RecipientCredits(pool, b, n) + SchemeCredits(pool, scheme, b)
      && Total(RecipientCredits(pool, b, n)) + KeptByPool(pool, b, n) + RemainingReward(pool, b, n) == b.reward
      && b.id in l'.store.blocks && l'.store.blocks[b.id] == b
  {
    hide Conserved, RewardsFor, AfterBlock, WithChanges, Entries, ConfirmedEntries, Total, KeptByPool, RemainingReward,
      RecipientCredits, SchemeCredits;
    var b := l.pass.value[0];
    BlockAddsItsCredits(pool, scheme, l.store, b, b.id);
    RewardIsSplit(pool, b, |pool.recipients|);
    assert Entries(l.processed, b.id) == 0;
    NoEntry(pool, scheme, l.processed, b.id);
  }

  // --- When it does not ---

  /** A pass credits a block once for every entry that confirms it: the store does not check that the
      block is still pending. */
  lemma {:induction false} PassCreditsEveryEntry(pool: Pool, scheme: Scheme, s: Store, bs: seq<Block>, id: BlockId)
    ensures RewardsFor(AfterBlocks(pool, scheme, s, bs).changes, id)
      == RewardsFor(s.changes, id) + ConfirmedEntries(pool, scheme, bs, id)
  {
    hide CreditsFor, RewardsFor, AfterBlock;
    if bs != [] {
      var before := bs[..|bs| - 1];
      PassCreditsEveryEntry(pool, scheme, s, before, id);
      BlockAddsItsCredits(pool, scheme, AfterBlocks(pool, scheme, s, before), bs[|bs| - 1], id);
    }
  }

  const NO_FEES: Pool := Pool("pool", [])

  function Solo(b: Block, remaining: real): seq<Change> { [Change("miner", remaining, None)] }

  lemma SoloCredits(b: Block)
    ensures CreditsFor(NO_FEES, Solo, b) == [Change("miner", b.reward, Some(b.id))]
  {
    assert RecipientCredits(NO_FEES, b, 0) == [] && RemainingReward(NO_FEES, b, 0) == b.reward;
    assert SchemeCredits(NO_FEES, Solo, b) == [Change("miner", b.reward, Some(b.id))];
  }

  lemma SoloStore(s: Store, b: Block, amount: real)
    requires b.status == Confirmed && b.id in s.blocks && s.balances == [BalanceRow("miner", amount)]
    ensures AfterBlock(NO_FEES, Solo, s, b)
      == s.(blocks := s.blocks[b.id := b], balances := [BalanceRow("miner", amount + b.reward)],
            changes := s.changes + [Change("miner", b.reward, Some(b.id))])
  {
    hide CreditsFor;
    SoloCredits(b);
    WithFewChanges(s, Change("miner", b.reward, Some(b.id)));
  }

  lemma FirstSoloStore(s: Store, b: Block)
    requires b.status == Confirmed && b.id in s.blocks && s.balances == []
    ensures AfterBlock(NO_FEES, Solo, s, b)
      == s.(blocks := s.blocks[b.id := b], balances := [BalanceRow("miner", b.reward)],
            changes := s.changes + [Change("miner", b.reward, Some(b.id))])
  {
    hide CreditsFor;
    SoloCredits(b);
    WithFewChanges(s, Change("miner", b.reward, Some(b.id)));
  }

  lemma TwiceInOrder(b: Block)
    ensures OrderByCreated([b, b]) == [b, b]
  {
    assert [b, b][1..] == [b] && [b][1..] == [];
    assert OrderByCreated([b]) == [b];
  }

  lemma TwoRewards(c: Change, id: BlockId)
    requires c.block == Some(id)
    ensures RewardsFor([c, c], id) == [c, c]
  {
    RewardsForOneBlock([c, c], id, id);
  }

  /** A run with a classifier that lists one block twice: its reward of 1 is credited twice. */
  lemma CreditedTwice() returns (run: seq<Ledger>)
    ensures Run(NO_FEES, Solo, run) && |run| == 5
    ensures |run[4].store.blocks| == 1 && 0 in run[4].store.blocks && run[4].store.blocks[0].reward == 1.0
    ensures RewardsFor(run[4].store.changes, 0)
      == [Change("miner", 1.0, Some(0)), Change("miner", 1.0, Some(0))]
    ensures BalanceOf(run[4].store.balances, "miner") == 2.0
    ensures !CreditedAtMostOnce(NO_FEES, Solo, run[4], 0)
  {
    hide AfterBlock, CreditsFor, OrderByCreated, RewardsFor, Run;
    var read, b := Block(0, 0, Pending, 1.0), Block(0, 0, Confirmed, 1.0);
    var c := Change("miner", 1.0, Some(0));
    var s1 := Store(map[0 := read], [], [], []);
    var s2 := Store(map[0 := b], [BalanceRow("miner", 1.0)], [c], []);
    var s3 := Store(map[0 := b], [BalanceRow("miner", 2.0)], [c, c], []);
    var l1 := Ledger(s1, None, [], 0.0);
    var l2 := Ledger(s1, Some([b, b]), [], 0.0);
    var l3 := Ledger(s2, Some([b]), [b], 0.0);
    var l4 := Ledger(s3, Some([]), [b, b], 0.0);
    run := [Empty, l1, l2, l3, l4];
    FirstSoloStore(s1, b);
    SoloStore(s2, b, 1.0);
    SoloCredits(b);
    TwoRewards(c, 0);
    assert Step(NO_FEES, Solo, run[0], InsertBlock(read), run[1]);
    TwiceInOrder(b);
    assert Step(NO_FEES, Solo, run[1], BeginPass([b, b]), run[2]);
    assert Step(NO_FEES, Solo, run[2], BlockTx(true), run[3]);
    assert Step(NO_FEES, Solo, run[3], BlockTx(true), run[4]);
    FourSteps(run, read, [b, b]);
  }

  lemma FourSteps(run: seq<Ledger>, read: Block, updated: seq<Block>)
    requires |run| == 5 && run[0] == Empty
    requires Step(NO_FEES, Solo, run[0], InsertBlock(read), run[1])
    requires Step(NO_FEES, Solo, run[1], BeginPass(updated), run[2])
    requires Step(NO_FEES, Solo, run[2], BlockTx(true), run[3]) && Step(NO_FEES, Solo, run[3], BlockTx(true), run[4])
    ensures Run(NO_FEES, Solo, run)
  {
    hide Step;
    forall i | 0 < i < |run|
      ensures Next(NO_FEES, Solo, run[i - 1], run[i])
    {
      assert i == 1 || i == 2 || i == 3 || i == 4;
    }
  }
}
