/** The payout ledger of one pool: block rewards credited, and balances paid out, in database
    transactions that may fail at any statement. Amounts are exact. */
module Payouts {
  import opened Wrappers

  type Address = string
  type BlockId = nat

  datatype Status = Pending | Orphaned | Confirmed

  datatype Block = Block(id: BlockId, created: int, status: Status, reward: real)

  datatype BalanceRow = BalanceRow(address: Address, amount: real)

  /** A row of the balance history; `block` is the block that a credit is the reward for. */
  datatype Change = Change(address: Address, amount: real, block: Option<BlockId>)

  datatype Payment = Payment(address: Address, amount: real, confirmation: string)

  datatype Store = Store(
    blocks: map<BlockId, Block>,
    balances: seq<BalanceRow>,
    changes: seq<Change>,
    payments: seq<Payment>)

  datatype Recipient = Recipient(address: Address, percentage: real)

  datatype Pool = Pool(address: Address, recipients: seq<Recipient>)

  /** A payout scheme: how it distributes what is left of a block's reward. */
  type Scheme = (Block, real) -> seq<Change>

  // --- The tables ---

  /** Adds to the address's row, or inserts one. */
  function Credited(rows: seq<BalanceRow>, a: Address, amount: real): seq<BalanceRow> {
    if rows == [] then [BalanceRow(a, amount)]
    else if rows[0].address == a then [rows[0].(amount := rows[0].amount + amount)] + rows[1..]
    else [rows[0]] + Credited(rows[1..], a, amount)
  }

  function WithChange(s: Store, c: Change): Store {
    s.(changes := s.changes + [c], balances := Credited(s.balances, c.address, c.amount))
  }

  function WithChanges(s: Store, cs: seq<Change>): Store {
    if cs == [] then s else WithChange(WithChanges(s, cs[..|cs| - 1]), cs[|cs| - 1])
  }

  /** `UPDATE` on a missing block changes nothing. */
  function WithBlock(s: Store, b: Block): Store {
    if b.id in s.blocks then s.(blocks := s.blocks[b.id := b]) else s
  }

  /** A database transaction: its working copy, and how many more calls it serves before the
      database fails. */
  class Transaction {
    var store: Store
    var budget: nat

    constructor (store: Store, budget: nat)
      ensures this.store == store && this.budget == budget
    {
      this.store, this.budget := store, budget;
    }

    method AddAmount(c: Change) returns (ok: bool)
      modifies this
      ensures ok <==> old(budget) > 0
      ensures ok ==> store == WithChange(old(store), c) && budget == old(budget) - 1
    {
      if budget == 0 {
        return false;
      }
      budget := budget - 1;
      store := store.(changes := store.changes + [c]);
      store := store.(balances := Credited(store.balances, c.address, c.amount));
      return true;
    }

    method InsertPayment(p: Payment) returns (ok: bool)
      modifies this
      ensures ok <==> old(budget) > 0
      ensures ok ==> store == old(store).(payments := old(store).payments + [p]) && budget == old(budget) - 1
    {
      if budget == 0 {
        return false;
      }
      budget := budget - 1;
      store := store.(payments := store.payments + [p]);
      return true;
    }

    method UpdateBlock(b: Block) returns (ok: bool)
      modifies this
      ensures ok <==> old(budget) > 0
      ensures ok ==> store == WithBlock(old(store), b) && budget == old(budget) - 1
    {
      if budget == 0 {
        return false;
      }
      budget := budget - 1;
      if b.id in store.blocks {
        store := store.(blocks := store.blocks[b.id := b]);
      }
      return true;
    }
  }

  class Database {
    var store: Store

    constructor (store: Store)
      ensures this.store == store
    {
      this.store := store;
    }

    /** The end of a transaction: committed if its body and the commit itself went through, rolled
        back otherwise. */
    method Finish(tx: Transaction, ok: bool) returns (committed: bool)
      modifies this
      ensures committed <==> ok && tx.budget > 0
      ensures store == if committed then tx.store else old(store)
    {
      committed := ok && tx.budget > 0;
      if committed {
        store := tx.store;
      }
    }
  }

  // --- Block rewards ---

  function Share(reward: real, r: Recipient): real { reward * (r.percentage / 100.0) }

  /** What the first `n` recipients are credited: the pool's own address is not. */
  function RecipientCredits(pool: Pool, b: Block, n: nat): seq<Change>
    requires n <= |pool.recipients|
  {
    if n == 0 then []
    else
      var r := pool.recipients[n - 1];
      RecipientCredits(pool, b, n - 1)
      + if r.percentage > 0.0 && r.address != pool.address then [Change(r.address, Share(b.reward, r), Some(b.id))]
        else []
  }

  function RemainingReward(pool: Pool, b: Block, n: nat): real
    requires n <= |pool.recipients|
  {
    if n == 0 then b.reward
    else
      var r := pool.recipients[n - 1];
      RemainingReward(pool, b, n - 1) - if r.percentage > 0.0 then Share(b.reward, r) else 0.0
  }

  /** The part for recipients with the pool's own address, which stays where it is. */
  function KeptByPool(pool: Pool, b: Block, n: nat): real
    requires n <= |pool.recipients|
  {
    if n == 0 then 0.0
    else
      var r := pool.recipients[n - 1];
      KeptByPool(pool, b, n - 1) + if r.percentage > 0.0 && r.address == pool.address then Share(b.reward, r) else 0.0
  }

  function Total(cs: seq<Change>): real {
    if cs == [] then 0.0 else Total(cs[..|cs| - 1]) + cs[|cs| - 1].amount
  }

  /** No part of a block's reward is lost or made up. */
  lemma {:induction false} RewardIsSplit(pool: Pool, b: Block, n: nat)
    requires n <= |pool.recipients|
    ensures Total(RecipientCredits(pool, b, n)) + KeptByPool(pool, b, n) + RemainingReward(pool, b, n) == b.reward
  {
    hide Share;
    if n > 0 {
      RewardIsSplit(pool, b, n - 1);
      var before := RecipientCredits(pool, b, n - 1);
      var now := RecipientCredits(pool, b, n);
      if now != before {
        assert now[..|now| - 1] == before;
      }
    }
  }

  /** The first `n` recipients that are credited: those with a positive percentage, other than the pool. */
  function Paying(pool: Pool, n: nat): seq<Recipient>
    requires n <= |pool.recipients|
  {
    if n == 0 then []
    else
      var r := pool.recipients[n - 1];
      Paying(pool, n - 1) + if r.percentage > 0.0 && r.address != pool.address then [r] else []
  }

  /** Each of them is credited its percentage of the reward, once and in order, and nobody else is. */
  lemma {:induction false} CreditsArePercentages(pool: Pool, b: Block, n: nat)
    requires n <= |pool.recipients|
    ensures |RecipientCredits(pool, b, n)| == |Paying(pool, n)|
    ensures forall i :: 0 <= i < |Paying(pool, n)| ==>
              var c, r := RecipientCredits(pool, b, n)[i], Paying(pool, n)[i];
              c.address == r.address && c.block == Some(b.id) && c.amount * 100.0 == b.reward * r.percentage
  {
    if n > 0 {
      CreditsArePercentages(pool, b, n - 1);
    }
  }

  /** The positive percentages of the first `n` recipients. */
  function Percentages(pool: Pool, n: nat): real
    requires n <= |pool.recipients|
  {
    if n == 0 then 0.0
    else Percentages(pool, n - 1) + if pool.recipients[n - 1].percentage > 0.0 then pool.recipients[n - 1].percentage
                                    else 0.0
  }

  lemma OnePercentage(reward: real, r: Recipient, before: real, sum: real)
    requires before * 100.0 == reward * (100.0 - sum)
    ensures Share(reward, r) * 100.0 == reward * r.percentage
    ensures (before - Share(reward, r)) * 100.0 == reward * (100.0 - (sum + r.percentage))
  {
  }

  /** The scheme gets what the percentages leave. */
  lemma {:induction false} RemainderIs(pool: Pool, b: Block, n: nat)
    requires n <= |pool.recipients|
    ensures RemainingReward(pool, b, n) * 100.0 == b.reward * (100.0 - Percentages(pool, n))
    ensures (Total(RecipientCredits(pool, b, n)) + KeptByPool(pool, b, n)) * 100.0 == b.reward * Percentages(pool, n)
  {
    hide Share, RecipientCredits, KeptByPool, Total;
    RewardIsSplit(pool, b, n);
    if n > 0 {
      RemainderIs(pool, b, n - 1);
      OnePercentage(b.reward, pool.recipients[n - 1], RemainingReward(pool, b, n - 1), Percentages(pool, n - 1));
    }
    Rest(b.reward, RemainingReward(pool, b, n), Percentages(pool, n));
  }

  lemma Rest(reward: real, remaining: real, sum: real)
    requires remaining * 100.0 == reward * (100.0 - sum)
    ensures (reward - remaining) * 100.0 == reward * sum
  {
  }

  method UpdateBlockRewardBalances(tx: Transaction, pool: Pool, block: Block) returns (ok: bool, remaining: real)
    modifies tx
    ensures ok <==> |RecipientCredits(pool, block, |pool.recipients|)| <= old(tx.budget)
    ensures ok ==> tx.store == WithChanges(old(tx.store), RecipientCredits(pool, block, |pool.recipients|))
    ensures ok ==> tx.budget == old(tx.budget) - |RecipientCredits(pool, block, |pool.recipients|)|
    ensures ok ==> remaining == RemainingReward(pool, block, |pool.recipients|)
  {
    hide Share, WithChange, WithChanges;
    remaining := block.reward;
    var i := 0;
    WithFewChanges(tx.store, Change("", 0.0, None));
    while i < |pool.recipients|
      invariant i <= |pool.recipients|
      invariant remaining == RemainingReward(pool, block, i)
      invariant |RecipientCredits(pool, block, i)| <= old(tx.budget)
      invariant tx.store == WithChanges(old(tx.store), RecipientCredits(pool, block, i))
      invariant tx.budget == old(tx.budget) - |RecipientCredits(pool, block, i)|
    {
      var recipient := pool.recipients[i];
      if recipient.percentage > 0.0 {
        var amount := Share(block.reward, recipient);
        remaining := remaining - amount;
        if recipient.address != pool.address {
          var c := Change(recipient.address, amount, Some(block.id));
          CreditsGrow(pool, block, i + 1, |pool.recipients|);
          WithMoreChanges(old(tx.store), RecipientCredits(pool, block, i), [c]);
          WithFewChanges(tx.store, c);
          ok := tx.AddAmount(c);
          if !ok {
            return false, remaining;
          }
        } else {
          assert RecipientCredits(pool, block, i + 1) == RecipientCredits(pool, block, i);
        }
      } else {
        assert RecipientCredits(pool, block, i + 1) == RecipientCredits(pool, block, i);
      }
      i := i + 1;
    }
    return true, remaining;
  }

  lemma WithFewChanges(s: Store, c: Change)
    ensures WithChanges(s, []) == s && WithChanges(s, [c]) == WithChange(s, c)
  {
    assert [c][..0] == [];
  }

  lemma {:induction false} CreditsGrow(pool: Pool, b: Block, m: nat, n: nat)
    requires m <= n <= |pool.recipients|
    ensures |RecipientCredits(pool, b, m)| <= |RecipientCredits(pool, b, n)|
  {
    if m < n {
      CreditsGrow(pool, b, m, n - 1);
    }
  }

  /** Everything credited when a block is confirmed: the recipients, then the scheme's shares of the
      remaining reward. */
  function CreditsFor(pool: Pool, scheme: Scheme, b: Block): seq<Change> {
    RecipientCredits(pool, b, |pool.recipients|) + SchemeCredits(pool, scheme, b)
  }

  function SchemeCredits(pool: Pool, scheme: Scheme, b: Block): seq<Change> {
    ForBlock(scheme(b, RemainingReward(pool, b, |pool.recipients|)), b.id)
  }

  /** The scheme's credits carry the block they are for. */
  function ForBlock(cs: seq<Change>, id: BlockId): seq<Change> {
    seq(|cs|, i requires 0 <= i < |cs| => cs[i].(block := Some(id)))
  }

  /** The scheme is given what the percentages leave, and its credits are recorded as they are, for the
      block. */
  lemma SchemeCreditsAre(pool: Pool, scheme: Scheme, b: Block, remaining: real)
    requires remaining * 100.0 == b.reward * (100.0 - Percentages(pool, |pool.recipients|))
    ensures |SchemeCredits(pool, scheme, b)| == |scheme(b, remaining)|
    ensures forall i :: 0 <= i < |scheme(b, remaining)| ==>
              var c, given := SchemeCredits(pool, scheme, b)[i], scheme(b, remaining)[i];
              c.address == given.address && c.amount == given.amount && c.block == Some(b.id)
  {
    hide RemainingReward, Percentages;
    RemainderIs(pool, b, |pool.recipients|);
    assert remaining == RemainingReward(pool, b, |pool.recipients|);
  }

  /** The store after a block's transaction commits. */
  function AfterBlock(pool: Pool, scheme: Scheme, s: Store, b: Block): Store {
    WithBlock(if b.status == Confirmed then WithChanges(s, CreditsFor(pool, scheme, b)) else s, b)
  }

  /** How many database calls that takes, without the commit. */
  function CallsFor(pool: Pool, scheme: Scheme, b: Block): nat {
    1 + if b.status == Confirmed then |CreditsFor(pool, scheme, b)| else 0
  }

  lemma {:induction false} WithMoreChanges(s: Store, cs: seq<Change>, ds: seq<Change>)
    ensures WithChanges(s, cs + ds) == WithChanges(WithChanges(s, cs), ds)
  {
    hide WithChange;
    if ds == [] {
      assert cs + ds == cs;
    } else {
      var last := |ds| - 1;
      WithMoreChanges(s, cs, ds[..last]);
      assert (cs + ds)[..|cs + ds| - 1] == cs + ds[..last];
    }
  }

  method UpdateBalances(tx: Transaction, credits: seq<Change>) returns (ok: bool)
    modifies tx
    ensures ok <==> |credits| <= old(tx.budget)
    ensures ok ==> tx.store == WithChanges(old(tx.store), credits) && tx.budget == old(tx.budget) - |credits|
  {
    hide WithChange;
    var i := 0;
    while i < |credits|
      invariant i <= |credits| && i <= old(tx.budget)
      invariant tx.store == WithChanges(old(tx.store), credits[..i]) && tx.budget == old(tx.budget) - i
    {
      assert credits[..i + 1][..i] == credits[..i];
      ok := tx.AddAmount(credits[i]);
      if !ok {
        return false;
      }
      i := i + 1;
    }
    assert credits[..i] == credits;
    return true;
  }

  /** One block of a pass, in its own transaction. */
  method ProcessBlock(db: Database, pool: Pool, scheme: Scheme, block: Block, budget: nat) returns (committed: bool)
    modifies db
    ensures committed <==> CallsFor(pool, scheme, block) < budget
    ensures db.store == if committed then AfterBlock(pool, scheme, old(db.store), block) else old(db.store)
  {
    hide RecipientCredits, RemainingReward, WithChanges, ForBlock, WithBlock;
    var tx := new Transaction(db.store, budget);
    var ok := true;
    match block.status {
      case Confirmed =>
        var remaining;
        ok, remaining := UpdateBlockRewardBalances(tx, pool, block);
        if ok {
          ok := UpdateBalances(tx, ForBlock(scheme(block, remaining), block.id));
        }
        WithMoreChanges(db.store, RecipientCredits(pool, block, |pool.recipients|), SchemeCredits(pool, scheme, block));
      case Orphaned =>
      case Pending =>
    }
    if ok {
      ok := tx.UpdateBlock(block);
    }
    committed := db.Finish(tx, ok);
  }

  // --- A pass over the updated blocks ---

  function InsertByCreated(b: Block, bs: seq<Block>): seq<Block> {
    if bs == [] || b.created <= bs[0].created then [b] + bs else [bs[0]] + InsertByCreated(b, bs[1..])
  }

  /** Stable ascending order of creation. */
  function OrderByCreated(bs: seq<Block>): seq<Block> {
    if bs == [] then [] else InsertByCreated(bs[0], OrderByCreated(bs[1..]))
  }

  lemma {:induction false} InsertKeepsElements(b: Block, bs: seq<Block>)
    ensures multiset(InsertByCreated(b, bs)) == multiset([b]) + multiset(bs)
  {
    if bs != [] && b.created > bs[0].created {
      InsertKeepsElements(b, bs[1..]);
      assert bs == [bs[0]] + bs[1..];
    }
  }

  lemma {:induction false} OrderKeepsElements(bs: seq<Block>)
    ensures multiset(OrderByCreated(bs)) == multiset(bs)
  {
    if bs != [] {
      OrderKeepsElements(bs[1..]);
      InsertKeepsElements(bs[0], OrderByCreated(bs[1..]));
      assert bs == [bs[0]] + bs[1..];
    }
  }

  predicate Ascending(bs: seq<Block>) {
    forall i, j :: 0 <= i < j < |bs| ==> bs[i].created <= bs[j].created
  }

  /** The blocks created at time `t`, in the order in which they are listed. */
  function CreatedAt(bs: seq<Block>, t: int): seq<Block> {
    if bs == [] then [] else (if bs[0].created == t then [bs[0]] else []) + CreatedAt(bs[1..], t)
  }

  lemma {:induction false} InsertAscends(b: Block, bs: seq<Block>)
    requires Ascending(bs)
    ensures Ascending(InsertByCreated(b, bs))
  {
    hide Ascending;
    if bs == [] || b.created <= bs[0].created {
      AscendsFrom(b, bs);
    } else {
      AscendingRest(bs);
      InsertAscends(b, bs[1..]);
      InsertedAbove(b, bs);
      AscendsFrom(bs[0], InsertByCreated(b, bs[1..]));
    }
  }

  lemma AscendingRest(bs: seq<Block>)
    requires Ascending(bs) && bs != []
    ensures Ascending(bs[1..])
  {
  }

  lemma AscendsFrom(b: Block, bs: seq<Block>)
    requires Ascending(bs) && (bs == [] || b.created <= bs[0].created)
    ensures Ascending([b] + bs)
  {
  }

  lemma InsertedAbove(b: Block, bs: seq<Block>)
    requires Ascending(bs) && bs != [] && bs[0].created < b.created
    ensures InsertByCreated(b, bs[1..]) != [] && bs[0].created <= InsertByCreated(b, bs[1..])[0].created
  {
  }

  lemma CreatedAtCons(b: Block, bs: seq<Block>, t: int)
    ensures CreatedAt([b] + bs, t) == (if b.created == t then [b] else []) + CreatedAt(bs, t)
  {
    assert ([b] + bs)[1..] == bs;
  }

  lemma {:induction false} InsertIsStable(b: Block, bs: seq<Block>, t: int)
    ensures CreatedAt(InsertByCreated(b, bs), t) == CreatedAt([b] + bs, t)
  {
    hide CreatedAt;
    if bs != [] && b.created > bs[0].created {
      InsertIsStable(b, bs[1..], t);
      CreatedAtCons(bs[0], InsertByCreated(b, bs[1..]), t);
      CreatedAtCons(b, bs[1..], t);
      CreatedAtCons(b, bs, t);
      CreatedAtCons(bs[0], bs[1..], t);
      assert bs == [bs[0]] + bs[1..];
    }
  }

  lemma NothingAscends()
    ensures Ascending([])
  {
  }

  /** The order is ascending and stable: blocks created at one time stay in the order they came in. */
  lemma {:induction false} OrderIsStable(bs: seq<Block>, t: int)
    ensures Ascending(OrderByCreated(bs))
    ensures CreatedAt(OrderByCreated(bs), t) == CreatedAt(bs, t)
  {
    hide InsertByCreated, Ascending;
    if bs == [] {
      NothingAscends();
    } else {
      OrderIsStable(bs[1..], t);
      InsertAscends(bs[0], OrderByCreated(bs[1..]));
      InsertIsStable(bs[0], OrderByCreated(bs[1..]), t);
      CreatedAtCons(bs[0], OrderByCreated(bs[1..]), t);
    }
  }

  lemma {:induction false} CreatedAtSome(bs: seq<Block>, t: int)
    ensures CreatedAt(bs, t) != [] <==> exists b :: b in bs && b.created == t
  {
    if bs != [] {
      CreatedAtSome(bs[1..], t);
      assert bs == [bs[0]] + bs[1..];
    }
  }

  /** No other list is. */
  lemma {:induction false} OnlyOneStableOrder(a: seq<Block>, b: seq<Block>)
    requires Ascending(a) && Ascending(b) && forall t :: CreatedAt(a, t) == CreatedAt(b, t)
    ensures a == b
    decreases |a|
  {
    hide CreatedAt;
    if a == [] {
      if b != [] {
        CreatedAtSome(a, b[0].created);
        CreatedAtSome(b, b[0].created);
      }
    } else {
      SameFirst(a, b);
      forall t
        ensures CreatedAt(a[1..], t) == CreatedAt(b[1..], t)
      {
        CreatedAtRest(a, b, t);
      }
      OnlyOneStableOrder(a[1..], b[1..]);
    }
  }

  lemma SameFirst(a: seq<Block>, b: seq<Block>)
    requires Ascending(a) && Ascending(b) && a != [] && forall t :: CreatedAt(a, t) == CreatedAt(b, t)
    ensures b != [] && a[0] == b[0]
  {
    CreatedAtSome(a, a[0].created);
    CreatedAtSome(b, a[0].created);
    CreatedAtSome(a, b[0].created);
    CreatedAtSome(b, b[0].created);
    assert a[0].created == b[0].created;
    assert CreatedAt(a, a[0].created)[0] == a[0] && CreatedAt(b, b[0].created)[0] == b[0];
  }

  lemma CreatedAtRest(a: seq<Block>, b: seq<Block>, t: int)
    requires a != [] && b != [] && a[0] == b[0] && CreatedAt(a, t) == CreatedAt(b, t)
    ensures CreatedAt(a[1..], t) == CreatedAt(b[1..], t)
  {
    var n := if a[0].created == t then 1 else 0;
    assert CreatedAt(a, t)[n..] == CreatedAt(a[1..], t);
    assert CreatedAt(b, t)[n..] == CreatedAt(b[1..], t);
  }

  function AfterBlocks(pool: Pool, scheme: Scheme, s: Store, bs: seq<Block>): Store {
    if bs == [] then s else AfterBlock(pool, scheme, AfterBlocks(pool, scheme, s, bs[..|bs| - 1]), bs[|bs| - 1])
  }

  /** A pass over the classified blocks: a failing transaction ends it, and leaves its block and all
      later ones for the next pass. */
  method UpdatePoolBalances(db: Database, pool: Pool, scheme: Scheme, updated: seq<Block>, budgets: nat -> nat)
    returns (ok: bool, done: nat)
    modifies db
    ensures done <= |OrderByCreated(updated)| && (ok <==> done == |OrderByCreated(updated)|)
    ensures db.store == AfterBlocks(pool, scheme, old(db.store), OrderByCreated(updated)[..done])
    ensures forall i :: 0 <= i < done ==> CallsFor(pool, scheme, OrderByCreated(updated)[i]) < budgets(i)
    ensures !ok ==> CallsFor(pool, scheme, OrderByCreated(updated)[done]) >= budgets(done)
  {
    hide AfterBlock, CallsFor, OrderByCreated;
    var ordered := OrderByCreated(updated);
    done := 0;
    while done < |ordered|
      invariant done <= |ordered|
      invariant db.store == AfterBlocks(pool, scheme, old(db.store), ordered[..done])
      invariant forall i :: 0 <= i < done ==> CallsFor(pool, scheme, ordered[i]) < budgets(i)
    {
      var committed := ProcessBlock(db, pool, scheme, ordered[done], budgets(done));
      if !committed {
        return false, done;
      }
      assert ordered[..done + 1][..done] == ordered[..done];
      done := done + 1;
    }
    return true, done;
  }

  // --- Payments ---

  /** A balance as it was read for the payout, and the confirmation of its payment. */
  datatype Payout = Payout(address: Address, amount: real, confirmation: string)

  predicate IsRecipient(pool: Pool, a: Address) {
    exists r :: r in pool.recipients && r.address == a
  }

  /** Whether a payment row is recorded. */
  predicate Recorded(pool: Pool, p: Payout) { p.confirmation != "" && !IsRecipient(pool, p.address) }

  /** The balance is always reset; the payment is recorded for addresses that are not reward
      recipients. */
  function AfterPayout(pool: Pool, s: Store, p: Payout): Store {
    WithChange(if Recorded(pool, p) then s.(payments := s.payments + [Payment(p.address, p.amount, p.confirmation)])
               else s,
               Change(p.address, -p.amount, None))
  }

  function AfterPayouts(pool: Pool, s: Store, ps: seq<Payout>): Store {
    if ps == [] then s else AfterPayout(pool, AfterPayouts(pool, s, ps[..|ps| - 1]), ps[|ps| - 1])
  }

  function PayoutCalls(pool: Pool, ps: seq<Payout>): nat {
    if ps == [] then 0
    else PayoutCalls(pool, ps[..|ps| - 1]) + if Recorded(pool, ps[|ps| - 1]) then 2 else 1
  }

  lemma {:induction false} CallsGrow(pool: Pool, ps: seq<Payout>, n: nat)
    requires n <= |ps|
    ensures PayoutCalls(pool, ps[..n]) <= PayoutCalls(pool, ps)
  {
    hide Recorded;
    if n < |ps| {
      CallsGrow(pool, ps[..|ps| - 1], n);
      assert ps[..|ps| - 1][..n] == ps[..n];
    } else {
      assert ps[..n] == ps;
    }
  }

  method PersistOnce(db: Database, pool: Pool, payouts: seq<Payout>, budget: nat) returns (committed: bool)
    modifies db
    ensures committed <==> PayoutCalls(pool, payouts) < budget
    ensures db.store == if committed then AfterPayouts(pool, old(db.store), payouts) else old(db.store)
  {
    hide Recorded, WithChange;
    var tx := new Transaction(db.store, budget);
    var i, ok := 0, true;
    while i < |payouts| && ok
      invariant i <= |payouts| && db.store == old(db.store)
      invariant ok ==> PayoutCalls(pool, payouts[..i]) + tx.budget == budget
      invariant ok ==> tx.store == AfterPayouts(pool, db.store, payouts[..i])
      invariant !ok ==> PayoutCalls(pool, payouts) >= budget
      decreases |payouts| - i, ok
    {
      var p := payouts[i];
      assert payouts[..i + 1][..i] == payouts[..i];
      CallsGrow(pool, payouts, i + 1);
      if Recorded(pool, p) {
        ok := tx.InsertPayment(Payment(p.address, p.amount, p.confirmation));
      }
      if ok {
        ok := tx.AddAmount(Change(p.address, -p.amount, None));
      }
      if ok {
        i := i + 1;
      }
    }
    assert ok ==> payouts[..i] == payouts;
    committed := db.Finish(tx, ok);
  }

  /** The payments of a list of balances: those with a confirmation, to addresses that are not among the
      recipients of rewards. */
  function PaymentsOf(pool: Pool, ps: seq<Payout>): seq<Payment> {
    if ps == [] then []
    else
      var p := ps[|ps| - 1];
      PaymentsOf(pool, ps[..|ps| - 1])
      + if p.confirmation != "" && (forall r :: r in pool.recipients ==> r.address != p.address) then
          [Payment(p.address, p.amount, p.confirmation)]
        else []
  }

  lemma {:induction false} PaymentsAre(pool: Pool, s: Store, ps: seq<Payout>)
    ensures AfterPayouts(pool, s, ps).payments == s.payments + PaymentsOf(pool, ps)
    ensures |AfterPayouts(pool, s, ps).changes| == |s.changes| + |ps|
    ensures forall i :: 0 <= i < |ps| ==>
              AfterPayouts(pool, s, ps).changes[|s.changes| + i] == Change(ps[i].address, -ps[i].amount, None)
  {
    hide Credited;
    if ps != [] {
      PaymentsAre(pool, s, ps[..|ps| - 1]);
    }
  }

  const RETRY_COUNT: nat := 8

  /** How one attempt would go: the budget of its transaction, and whether a failure is of the kind
      that is retried. */
  datatype Attempt = Attempt(budget: nat, transient: bool)

  /** The retry policy: the first attempt and up to eight retries. Payments are persisted at most
      once, however many attempts it takes. */
  method PersistWithRetries(db: Database, pool: Pool, payouts: seq<Payout>, attempts: nat -> Attempt)
    returns (ok: bool)
    modifies db
    ensures db.store == if ok then AfterPayouts(pool, old(db.store), payouts) else old(db.store)
    ensures ok <==> exists k: nat :: k <= 8 && SucceedsAt(pool, payouts, attempts, k)
  {
    hide PayoutCalls, AfterPayouts;
    var k := 0;
    while k <= RETRY_COUNT
      invariant k <= RETRY_COUNT + 1 && db.store == old(db.store)
      invariant forall j: nat :: j < k ==> PayoutCalls(pool, payouts) >= attempts(j).budget && attempts(j).transient
    {
      ok := PersistOnce(db, pool, payouts, attempts(k).budget);
      if ok {
        assert SucceedsAt(pool, payouts, attempts, k);
        return true;
      }
      if !attempts(k).transient {
        return false;
      }
      k := k + 1;
    }
    return false;
  }

  /** Attempt `k` goes through, after retried failures only. */
  predicate SucceedsAt(pool: Pool, payouts: seq<Payout>, attempts: nat -> Attempt, k: nat) {
    && PayoutCalls(pool, payouts) < attempts(k).budget
    && forall j: nat :: j < k ==> PayoutCalls(pool, payouts) >= attempts(j).budget && attempts(j).transient
  }

  /** Each balance with its own confirmation, possibly an empty one: at least one balance. */
  method PersistPayments(db: Database, pool: Pool, payouts: seq<Payout>, attempts: nat -> Attempt) returns (ok: bool)
    modifies db
    ensures ok <==> payouts != [] && exists k: nat :: k <= 8 && SucceedsAt(pool, payouts, attempts, k)
    ensures db.store == if ok then AfterPayouts(pool, old(db.store), payouts) else old(db.store)
  {
    if |payouts| == 0 {
      return false;
    }
    ok := PersistWithRetries(db, pool, payouts, attempts);
  }

  /** All balances paid in one transaction, which has to have a confirmation. */
  method PersistPaymentsTogether(db: Database, pool: Pool, balances: seq<BalanceRow>, confirmation: string,
                                 attempts: nat -> Attempt)
    returns (ok: bool)
    modifies db
    ensures ok <==>
      && confirmation != ""
      && exists k: nat :: k <= 8 && SucceedsAt(pool, PaidBy(balances, confirmation), attempts, k)
    ensures db.store == if ok then AfterPayouts(pool, old(db.store), PaidBy(balances, confirmation)) else old(db.store)
  {
    if confirmation == "" {
      return false;
    }
    ok := PersistWithRetries(db, pool, PaidBy(balances, confirmation), attempts);
  }

  function PaidBy(balances: seq<BalanceRow>, confirmation: string): seq<Payout> {
    seq(|balances|, i requires 0 <= i < |balances| => Payout(balances[i].address, balances[i].amount, confirmation))
  }
}
