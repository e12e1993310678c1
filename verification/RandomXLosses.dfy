/** Where the machines of the pool end up. Every machine that was ever built has been disposed, belongs
    to a generation, is being handed over by the thread that builds, or was lost: a creation that fails
    drops the machines it had already built, and nothing ever disposes them. */
module RandomXLosses {
  import opened RandomXPool
  import opened Wrappers

  datatype Move = Move(thread: ThreadId, action: Action, processors: nat)

  /** The states of the pool, and what made each of them from the one before. */
  ghost predicate Execution(run: seq<State>, moves: seq<Move>) {
    && |run| == |moves| + 1 && run[0] == Initial
    && forall i :: 0 <= i < |moves| ==>
         Step(run[i], moves[i].thread, moves[i].action, moves[i].processors, run[i + 1])
  }

  /** The machines built so far, and those disposed. */
  function Built(moves: seq<Move>): nat {
    if moves == [] then 0
    else Built(moves[..|moves| - 1]) + if moves[|moves| - 1].action.CreateVm? then 1 else 0
  }

  function Disposals(moves: seq<Move>): nat {
    if moves == [] then 0
    else Disposals(moves[..|moves| - 1]) + if moves[|moves| - 1].action.Dispose? then 1 else 0
  }

  /** What a move loses: the machines that a failing creation had built. */
  function Loses(s: State, move: Move): nat {
    if move.action.CreateFail? && s.At(move.thread).Creating? then |s.At(move.thread).vms| else 0
  }

  function Lost(run: seq<State>, moves: seq<Move>): nat
    requires |run| > |moves|
  {
    if moves == [] then 0
    else Lost(run[..|moves|], moves[..|moves| - 1]) + Loses(run[|moves| - 1], moves[|moves| - 1])
  }

  /** The machines of a generation that are not disposed, and those of all generations. */
  function Alive(g: Generation): nat { |g.vms| - CountDisposed(g.vms) }

  function AllAlive(gens: seq<Generation>): nat {
    if gens == [] then 0 else AllAlive(gens[..|gens| - 1]) + Alive(gens[|gens| - 1])
  }

  /** The machines that the holder of the lock has built for a seed that is not in the dictionary yet. */
  function InTheMaking(s: State): nat {
    if s.lock.Some? && s.At(s.lock.value).Creating? then |s.At(s.lock.value).vms| else 0
  }

  // --- One step ---

  lemma {:induction false} AliveFollows(before: seq<Generation>, after: seq<Generation>, g: GenId, d: nat)
    requires |before| <= |after|
    requires forall k :: 0 <= k < |before| ==> Alive(before[k]) == Alive(after[k]) + if k == g then d else 0
    ensures AllAlive(before) == AllAlive(after[..|before|]) + if g < |before| then d else 0
  {
    hide Alive;
    if before != [] {
      var n := |before| - 1;
      AliveFollows(before[..n], after, g, d);
      assert after[..|before|][..n] == after[..n];
    }
  }

  /** Only `Dispose` takes a machine out of a generation's living ones. */
  lemma OldGensStay(s: State, t: ThreadId, a: Action, processors: nat, s': State)
    requires Inv(s) && Step(s, t, a, processors, s')
    ensures |s.gens| <= |s'.gens|
    ensures AllAlive(s.gens) == AllAlive(s'.gens[..|s.gens|]) + if a.Dispose? then 1 else 0
  {
    hide Step, CountDisposed, AllAlive, VmsOk, GensOk;
    assert ThreadOk(s, t);
    if a.Dispose? {
      DisposesOwn(s, t, processors, s');
    }
    forall g: GenId | g < |s.gens|
      ensures g < |s'.gens|
      ensures Alive(s.gens[g]) == Alive(s'.gens[g]) + if a.Dispose? && s.At(t).gen == g then 1 else 0
    {
      GenStays(s, t, a, processors, s', g);
    }
    GensGrow(s, t, a, processors, s');
    if a.Dispose? {
      AliveFollows(s.gens, s'.gens, s.At(t).gen, 1);
    } else {
      AliveFollows(s.gens, s'.gens, 0, 0);
    }
  }

  lemma GensGrow(s: State, t: ThreadId, a: Action, processors: nat, s': State)
    requires ThreadOk(s, t) && Step(s, t, a, processors, s')
    ensures |s'.gens| == |s.gens| + if a.CreateEnd? then 1 else 0
  {
    hide CountDisposed;
  }

  lemma DisposesOwn(s: State, t: ThreadId, processors: nat, s': State)
    requires Step(s, t, Action.Dispose, processors, s')
    ensures s.At(t).Deleting? && s.At(t).gen < |s.gens|
  {
    hide CountDisposed;
  }

  /** Handing over: what was in the making belongs to the new generation, and all of it is alive. */
  lemma HandedOver(s: State, t: ThreadId, processors: nat, s': State)
    requires ThreadOk(s, t) && Step(s, t, CreateEnd, processors, s')
    ensures |s'.gens| == |s.gens| + 1 && Alive(s'.gens[|s.gens|]) == InTheMaking(s) && InTheMaking(s') == 0
  {
    CountNone(s.At(t).vms);
  }

  /** Otherwise only the builder changes what is in the making. */
  lemma MakingStays(s: State, t: ThreadId, a: Action, processors: nat, s': State)
    requires Inv(s) && Step(s, t, a, processors, s') && !a.CreateEnd?
    ensures InTheMaking(s') + Loses(s, Move(t, a, processors)) == InTheMaking(s) + if a.CreateVm? then 1 else 0
  {
    hide CountDisposed, VmsOk, GensOk, DictionaryOk;
    assert ThreadOk(s, t);
  }

  lemma StepAccounts(s: State, t: ThreadId, a: Action, processors: nat, s': State)
    requires Inv(s) && Step(s, t, a, processors, s')
    ensures AllAlive(s'.gens) + InTheMaking(s') + Loses(s, Move(t, a, processors)) + (if a.Dispose? then 1 else 0)
      == AllAlive(s.gens) + InTheMaking(s) + if a.CreateVm? then 1 else 0
  {
    hide Inv, Step, CountDisposed, Alive, InTheMaking, AllAlive;
    OldGensStay(s, t, a, processors, s');
    ThreadIsOk(s, t);
    GensGrow(s, t, a, processors, s');
    if a.CreateEnd? {
      HandedOver(s, t, processors, s');
      OneMoreGeneration(s'.gens);
    } else {
      MakingStays(s, t, a, processors, s');
      assert s'.gens[..|s.gens|] == s'.gens;
    }
  }

  lemma ThreadIsOk(s: State, t: ThreadId)
    requires Inv(s)
    ensures ThreadOk(s, t)
  {
  }

  lemma OneMoreGeneration(gens: seq<Generation>)
    requires gens != []
    ensures AllAlive(gens) == AllAlive(gens[..|gens| - 1]) + Alive(gens[|gens| - 1])
  {
  }

  // --- Every execution ---

  lemma {:induction false} ExecutionKeepsInv(run: seq<State>, moves: seq<Move>, i: nat)
    requires Execution(run, moves) && i <= |moves|
    ensures Inv(run[i])
  {
    hide Inv, Step;
    if i == 0 {
      InitialInv();
    } else {
      ExecutionKeepsInv(run, moves, i - 1);
      StepKeepsInv(run[i - 1], moves[i - 1].thread, moves[i - 1].action, moves[i - 1].processors, run[i]);
    }
  }

  lemma Shorter(run: seq<State>, moves: seq<Move>)
    requires Execution(run, moves) && moves != []
    ensures Execution(run[..|moves|], moves[..|moves| - 1])
  {
    hide Step;
  }

  /** Every machine that was built has been disposed, is alive in a generation, is in the making, or
      was lost to a creation that failed. */
  lemma {:induction false} MachinesAreAccountedFor(run: seq<State>, moves: seq<Move>)
    requires Execution(run, moves)
    ensures var s := run[|moves|];
      Built(moves) == Disposals(moves) + AllAlive(s.gens) + InTheMaking(s) + Lost(run, moves)
  {
    hide Inv, Step, Loses, InTheMaking, AllAlive;
    if moves == [] {
      NothingBuilt();
    } else {
      var n := |moves| - 1;
      var m := moves[n];
      Shorter(run, moves);
      MachinesAreAccountedFor(run[..|moves|], moves[..n]);
      ExecutionKeepsInv(run, moves, n);
      StepAccounts(run[n], m.thread, m.action, m.processors, run[n + 1]);
    }
  }

  lemma NothingBuilt()
    ensures AllAlive(Initial.gens) == 0 && InTheMaking(Initial) == 0
  {
  }

  // --- What a creation makes ---

  /** From its beginning after move `i` until after move `j` thread `t` only builds machines. */
  ghost predicate Builds(run: seq<State>, moves: seq<Move>, t: ThreadId, i: nat, j: nat) {
    && Execution(run, moves) && i < j <= |moves|
    && moves[i].thread == t && moves[i].action.CreateBegin?
    && !run[i].Has(moves[i].action.realm, moves[i].action.seed)
    && forall k :: i < k < j && moves[k].thread == t ==> moves[k].action.CreateVm?
  }

  lemma {:induction false} BuilderKeepsAim(run: seq<State>, moves: seq<Move>, t: ThreadId, i: nat, j: nat)
    requires Builds(run, moves, t, i, j)
    ensures run[j].At(t).Creating? && run[j].At(t).realm == moves[i].action.realm
    ensures run[j].At(t).seed == moves[i].action.seed
    ensures run[j].At(t).vmCount
      == if moves[i].action.vmCount == -1 then moves[i].processors else moves[i].action.vmCount
  {
    if j > i + 1 {
      hide Inv, Step, State.Has;
      BuilderKeepsAim(run, moves, t, i, j - 1);
      var m := moves[j - 1];
      if m.thread == t {
        BuildsOn(run[j - 1], t, m.action, m.processors, run[j]);
      } else {
        OthersStay(run[j - 1], m.thread, m.action, m.processors, run[j], t);
      }
    }
  }

  lemma BuildsOn(s: State, t: ThreadId, a: Action, processors: nat, s': State)
    requires Step(s, t, a, processors, s') && a.CreateVm?
    ensures s.At(t).Creating? && s'.At(t) == s.At(t).(vms := s'.At(t).vms)
  {
  }

  /** A creation that ends makes as many machines as were asked for: none for a negative number, except that
      minus one stands for the number of processors. All are available, and the seed leads to them. */
  lemma CreatedAsAsked(run: seq<State>, moves: seq<Move>, t: ThreadId, i: nat, j: nat)
    requires Builds(run, moves, t, i, j) && j < |moves| && moves[j].thread == t && moves[j].action.CreateEnd?
    ensures var asked, s := moves[i].action, run[j + 1];
      var count := if asked.vmCount == -1 then moves[i].processors else asked.vmCount;
      && s.Has(asked.realm, asked.seed) && s.realms[asked.realm][asked.seed] == |s.gens| - 1
      && |s.gens| > 0 && |s.gens[|s.gens| - 1].vms| == (if count < 0 then 0 else count)
      && (forall vm :: vm in s.gens[|s.gens| - 1].vms ==> vm.loc == Available)
  {
    hide Inv, State.Has;
    BuilderKeepsAim(run, moves, t, i, j);
    ExecutionKeepsInv(run, moves, j);
    ThreadIsOk(run[j], t);
    PublishesIts(run[j], t, moves[j].processors, run[j + 1]);
  }

  lemma PublishesIts(s: State, t: ThreadId, processors: nat, s': State)
    requires ThreadOk(s, t) && Step(s, t, CreateEnd, processors, s')
    ensures var c := s.At(t);
      && c.Creating? && s'.Has(c.realm, c.seed) && |s'.gens| == |s.gens| + 1
      && s'.realms[c.realm][c.seed] == |s.gens|
      && s'.gens[|s.gens|].vms == c.vms && |c.vms| == (if c.vmCount < 0 then 0 else c.vmCount)
      && forall vm :: vm in c.vms ==> vm.loc == Available
  {
    hide CountDisposed;
  }

  /** A creation failed with a machine already built. */
  ghost predicate FailsLate(run: seq<State>, moves: seq<Move>, i: nat)
    requires |run| > |moves|
  {
    && i < |moves| && moves[i].action.CreateFail?
    && run[i].At(moves[i].thread).Creating? && run[i].At(moves[i].thread).vms != []
  }

  /** Machines are lost exactly when some creation fails with a machine already built. */
  lemma {:induction false} LostExactlyWhen(run: seq<State>, moves: seq<Move>)
    requires Execution(run, moves)
    ensures Lost(run, moves) > 0 <==> exists i :: FailsLate(run, moves, i)
  {
    hide Inv, Step;
    if moves != [] {
      var n := |moves| - 1;
      Shorter(run, moves);
      LostExactlyWhen(run[..|moves|], moves[..n]);
      if i :| FailsLate(run[..|moves|], moves[..n], i) {
        assert FailsLate(run, moves, i);
      }
      if i :| FailsLate(run, moves, i) {
        assert i == n || FailsLate(run[..|moves|], moves[..n], i);
      }
      assert Loses(run[n], moves[n]) > 0 <==> FailsLate(run, moves, n);
    }
  }

  lemma {:induction false} DrainedIsDead(s: State, n: nat)
    requires GensOk(s) && n <= |s.gens| && forall g: GenId :: g < |s.gens| ==> s.gens[g].phase == Drained
    ensures AllAlive(s.gens[..n]) == 0
  {
    hide CountDisposed, GensOk;
    if n > 0 {
      DrainedIsDead(s, n - 1);
      assert s.gens[..n][..n - 1] == s.gens[..n - 1];
      GenIsOk(s, n - 1);
    }
  }

  lemma GenIsOk(s: State, g: GenId)
    requires GensOk(s) && g < |s.gens|
    ensures GenOk(s, g)
  {
  }

  /** When nobody builds and every seed has been deleted, the machines that were never disposed are
      exactly those lost; so all were disposed if and only if no creation failed late. */
  lemma AllDisposedExactlyWhen(run: seq<State>, moves: seq<Move>)
    requires Execution(run, moves)
    requires run[|moves|].lock == None
    requires forall g: GenId :: g < |run[|moves|].gens| ==> run[|moves|].gens[g].phase == Drained
    ensures Built(moves) == Disposals(moves) + Lost(run, moves)
    ensures Built(moves) == Disposals(moves) <==> !exists i :: FailsLate(run, moves, i)
  {
    hide Step, VmsOk, ThreadsOk, GenOk, DictionaryOk, CountDisposed, FailsLate, AllAlive, Built, Disposals,
      Lost;
    var s := run[|moves|];
    ExecutionKeepsInv(run, moves, |moves|);
    MachinesAreAccountedFor(run, moves);
    LostExactlyWhen(run, moves);
    DrainedIsDead(s, |s.gens|);
    assert s.gens[..|s.gens|] == s.gens;
  }

  /** A seed is to get two machines; the second cannot be built. All is as if nothing had been tried,
      but the first is lost. */
  lemma OneIsLost() returns (run: seq<State>, moves: seq<Move>)
    ensures Execution(run, moves) && |moves| == 3
    ensures run[3].gens == [] && run[3].lock == None && forall t :: run[3].At(t) == Idle
    ensures Built(moves) == 1 && Disposals(moves) == 0 && Lost(run, moves) == 1
  {
    var s0 := Initial;
    var s1 := s0.(realms := s0.realms["r" := map[]]).Become(0, Creating("r", "k", 2, [])).(lock := Some(0));
    var s2 := s1.Become(0, Creating("r", "k", 2, [] + [Vm(Available, 0)]));
    var s3 := s2.Become(0, Idle).(lock := None);
    run := [s0, s1, s2, s3];
    moves := [Move(0, CreateBegin("r", "k", 2), 1), Move(0, CreateVm, 1), Move(0, CreateFail, 1)];
    assert Step(run[0], 0, moves[0].action, 1, run[1]);
    assert Step(run[1], 0, moves[1].action, 1, run[2]);
    assert Step(run[2], 0, moves[2].action, 1, run[3]);
    ThreeMoves(run, moves);
  }

  lemma ThreeMoves(run: seq<State>, moves: seq<Move>)
    requires |run| == 4 && |moves| == 3 && run[0] == Initial
    requires forall i :: 0 <= i < 3 ==> run[i].At(moves[i].thread).Creating? == (i > 0)
    requires moves[0].action.CreateBegin? && moves[1].action.CreateVm? && moves[2].action.CreateFail?
    requires |run[2].At(moves[2].thread).vms| == 1
    ensures Built(moves) == 1 && Disposals(moves) == 0 && Lost(run, moves) == 1
  {
    var two, one := moves[..2], moves[..1];
    assert two[..1] == one && one[..0] == [] && run[..3][..2] == run[..2] && run[..2][..1] == run[..1];
    assert Built(one) == 0 && Built(two) == 1 && Disposals(two) == Disposals(one) == 0;
    assert Lost(run[..2], one) == 0 && Lost(run[..3], two) == 0;
  }
}
