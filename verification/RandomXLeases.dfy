/** Which requests can still get a machine: a look-up returns a generation, and the lease follows in a
    later step, without the lock. */
module RandomXLeases {
  import opened RandomXPool
  import opened Wrappers

  /** No machine of the generation will ever be available again. */
  ghost predicate Dead(s: State, g: GenId) {
    forall i: nat :: s.IsVm(g, i) ==> s.Loc(g, i).Held? || s.Loc(g, i).Disposed?
  }

  lemma DeadStays(s: State, t: ThreadId, a: Action, processors: nat, s': State, g: GenId)
    requires Inv(s) && Step(s, t, a, processors, s') && g < |s.gens| && Dead(s, g)
    ensures g < |s'.gens| && Dead(s', g)
  {
    hide Step, CountDisposed, DictionaryOk, VmsOk, GensOk, ThreadOk;
    assert ThreadOk(s, t);
    GenStays(s, t, a, processors, s', g);
    forall i: nat | s'.IsVm(g, i)
      ensures s'.Loc(g, i).Held? || s'.Loc(g, i).Disposed?
    {
      StepMoves(s, t, a, processors, s', g, i);
    }
  }

  /** From `path[0]` on, whatever any thread does. */
  ghost predicate Path(path: seq<State>) {
    |path| > 0 && forall i :: 0 < i < |path| ==> Next(path[i - 1], path[i])
  }

  lemma {:induction false} PathKeeps(path: seq<State>, n: nat, g: GenId)
    requires Path(path) && Inv(path[0]) && n < |path| && g < |path[0].gens|
    ensures Inv(path[n]) && g < |path[n].gens|
    ensures Dead(path[0], g) ==> Dead(path[n], g)
  {
    hide Inv, Step, Dead;
    if n > 0 {
      PathKeeps(path, n - 1, g);
      var t, a, processors :| Step(path[n - 1], t, a, processors, path[n]);
      StepKeepsInv(path[n - 1], t, a, processors, path[n]);
      GenExists(path[n - 1], t, a, processors, path[n], g);
      if Dead(path[n - 1], g) {
        DeadStays(path[n - 1], t, a, processors, path[n], g);
      }
    }
  }

  lemma GenExists(s: State, t: ThreadId, a: Action, processors: nat, s': State, g: GenId)
    requires Inv(s) && Step(s, t, a, processors, s') && g < |s.gens|
    ensures g < |s'.gens|
  {
    hide Step, CountDisposed, DictionaryOk, VmsOk, GensOk, ThreadOk;
    assert ThreadOk(s, t);
    GenStays(s, t, a, processors, s', g);
  }

  /** Thread `t` can lease a machine in the next step. */
  ghost predicate CanLease(s: State, t: ThreadId) {
    exists i, processors, s' :: Step(s, t, Lease(i), processors, s')
  }

  /** Thread `t` is still waiting for a machine of generation `g`, and can lease one, after some steps. */
  ghost predicate LeasesLater(s: State, t: ThreadId, g: GenId) {
    exists path :: LeasesAlong(s, t, g, path)
  }

  ghost predicate LeasesAlong(s: State, t: ThreadId, g: GenId, path: seq<State>) {
    && Path(path) && path[0] == s
    && path[|path| - 1].At(t) == Found(g) && CanLease(path[|path| - 1], t)
  }

  lemma DeadNeverLeases(s: State, t: ThreadId, g: GenId, path: seq<State>)
    requires Inv(s) && s.At(t) == Found(g) && Dead(s, g)
    ensures !LeasesAlong(s, t, g, path)
  {
    hide Inv, Next;
    FoundExists(s, t, g);
    if Path(path) && path[0] == s {
      PathKeeps(path, |path| - 1, g);
    }
  }

  lemma FoundExists(s: State, t: ThreadId, g: GenId)
    requires Inv(s) && s.At(t) == Found(g)
    ensures g < |s.gens|
  {
    hide DictionaryOk, GensOk, VmsOk, CountDisposed;
    assert ThreadOk(s, t);
  }

  /** The state after a thread returns machine `i`. */
  function Returned(s: State, u: ThreadId, g: GenId, i: nat): State
    requires s.IsVm(g, i)
  {
    s.Put(g, i, s.gens[g].vms[i].(loc := Available)).Become(u, Idle)
  }

  /** Where a machine is available, or leased to a thread that may return it, the request can succeed
      after at most that one step. */
  lemma AliveLeases(s: State, t: ThreadId, g: GenId)
    requires Inv(s) && s.At(t) == Found(g) && !Dead(s, g)
    ensures LeasesLater(s, t, g)
  {
    hide DictionaryOk, GensOk, ThreadsOk, CountDisposed;
    var i: nat :| s.IsVm(g, i) && !s.Loc(g, i).Held? && !s.Loc(g, i).Disposed?;
    assert VmOk(s, g, i);
    if s.Loc(g, i) == Available {
      AvailableLeases(s, t, g, i);
      assert LeasesAlong(s, t, g, [s]);
    } else {
      var u := s.Loc(g, i).owner;
      var s' := Returned(s, u, g, i);
      assert Step(s, u, Return, 0, s');
      assert Next(s, s');
      AvailableLeases(s', t, g, i);
      assert LeasesAlong(s, t, g, [s, s']);
    }
  }

  lemma AvailableLeases(s: State, t: ThreadId, g: GenId, i: nat)
    requires s.At(t) == Found(g) && s.IsVm(g, i) && s.Loc(g, i) == Available
    ensures CanLease(s, t)
  {
    var s' := s.Put(g, i, s.gens[g].vms[i].(loc := Leased(t))).Become(t, Hashing(g, i));
    assert Step(s, t, Lease(i), 0, s');
  }

  /** A request that found its seed can still get a machine exactly when not all machines of the
      generation are disposed or about to be. */
  lemma LeasesUnlessDead(s: State, t: ThreadId, g: GenId)
    requires Inv(s) && s.At(t) == Found(g)
    ensures LeasesLater(s, t, g) <==> !Dead(s, g)
  {
    hide Inv, LeasesAlong, Dead;
    if Dead(s, g) {
      forall path
        ensures !LeasesAlong(s, t, g, path)
      {
        DeadNeverLeases(s, t, g, path);
      }
    } else {
      AliveLeases(s, t, g);
    }
  }

  // --- When that is ---

  lemma OtherNotDisposed(vms: seq<Vm>, i: nat) returns (j: nat)
    requires i < |vms| && vms[i].loc != Disposed && CountDisposed(vms) + 1 < |vms|
    ensures j < |vms| && j != i && vms[j].loc != Disposed
  {
    var v := Vm(Disposed, 1);
    CountPut(vms, i, v);
    j := SomeNotDisposed(vms[i := v]);
  }

  lemma OthersDisposed(vms: seq<Vm>, i: nat, j: nat)
    requires i < |vms| && j < |vms| && j != i && vms[i].loc != Disposed && CountDisposed(vms) + 1 == |vms|
    ensures vms[j].loc == Disposed
  {
    var v := Vm(Disposed, 1);
    CountPut(vms, i, v);
    AllDisposed(vms[i := v], j);
  }

  /** A generation in the dictionary is dead only if it was created without machines; one that is being
      deleted from the moment its last machine is taken; one that was deleted always. */
  lemma DeadExactly(s: State, g: GenId)
    requires Inv(s) && g < |s.gens|
    ensures Dead(s, g) <==>
      match s.gens[g].phase
      case Published => s.gens[g].vmCount <= 0
      case Draining(t) => s.At(t).Deleting? && s.At(t).remaining <= if s.At(t).holding.Some? then 1 else 0
      case Drained => true
  {
    hide Inv;
    match s.gens[g].phase {
      case Published => PublishedDead(s, g);
      case Draining(t) => DrainingDead(s, g, t);
      case Drained => DrainedDead(s, g);
    }
  }

  lemma PublishedDead(s: State, g: GenId)
    requires Inv(s) && g < |s.gens| && s.gens[g].phase == Published
    ensures Dead(s, g) <==> s.gens[g].vmCount <= 0
  {
    hide CountDisposed, DictionaryOk;
    assert GenOk(s, g);
    if s.gens[g].vmCount > 0 {
      assert s.IsVm(g, 0);
      NotHeld(s, g, 0);
    }
  }

  /** Machines are held by the thread that drains the generation only. */
  lemma NotHeld(s: State, g: GenId, i: nat)
    requires Inv(s) && s.IsVm(g, i)
    ensures s.Loc(g, i).Held? ==>
      var t := s.Loc(g, i).owner;
      s.gens[g].phase == Draining(t) && s.At(t).Deleting? && s.At(t).gen == g && s.At(t).holding == Some(i)
    ensures s.Loc(g, i).Disposed? ==> s.gens[g].phase != Published
  {
    hide CountDisposed, DictionaryOk, GensOk;
    assert VmOk(s, g, i);
    if s.Loc(g, i).Held? {
      assert ThreadOk(s, s.Loc(g, i).owner);
    }
  }

  lemma DrainingDead(s: State, g: GenId, t: ThreadId)
    requires Inv(s) && g < |s.gens| && s.gens[g].phase == Draining(t)
    ensures s.At(t).Deleting?
    ensures Dead(s, g) <==> s.At(t).remaining <= if s.At(t).holding.Some? then 1 else 0
  {
    hide CountDisposed, DictionaryOk, VmsOk, VmOk;
    assert GenOk(s, g) && ThreadOk(s, t);
    var vms, remaining, holding := s.gens[g].vms, s.At(t).remaining, s.At(t).holding;
    assert CountDisposed(vms) == |vms| - Created(remaining);
    if remaining <= if holding.Some? then 1 else 0 {
      forall j: nat | s.IsVm(g, j)
        ensures s.Loc(g, j).Held? || s.Loc(g, j).Disposed?
      {
        if holding.None? {
          AllDisposed(vms, j);
        } else if j != holding.value {
          OthersDisposed(vms, holding.value, j);
        }
      }
    } else {
      var j: nat;
      if holding.None? {
        j := SomeNotDisposed(vms);
      } else {
        j := OtherNotDisposed(vms, holding.value);
      }
      NotHeld(s, g, j);
      assert s.IsVm(g, j);
    }
  }

  lemma DrainedDead(s: State, g: GenId)
    requires Inv(s) && g < |s.gens| && s.gens[g].phase == Drained
    ensures Dead(s, g)
  {
    hide CountDisposed, DictionaryOk, VmsOk, ThreadsOk;
    assert GenOk(s, g);
    forall i: nat | s.IsVm(g, i)
      ensures s.Loc(g, i).Disposed?
    {
      AllDisposed(s.gens[g].vms, i);
    }
  }

  // --- Two requests that never get a machine ---

  function Last(run: seq<State>): State
    requires |run| > 0
  {
    run[|run| - 1]
  }

  lemma Extend(run: seq<State>, t: ThreadId, a: Action, processors: nat, s': State)
    requires Run(run) && Step(Last(run), t, a, processors, s')
    ensures Run(run + [s']) && Last(run + [s']) == s'
  {
    hide Step;
    var longer := run + [s'];
    forall i | 0 < i < |longer|
      ensures Next(longer[i - 1], longer[i])
    {
      if i < |run| {
        assert longer[i - 1] == run[i - 1] && longer[i] == run[i];
      }
    }
  }

  function OneVm(loc: Location, disposals: nat, phase: Phase): Generation {
    Generation(1, [Vm(loc, disposals)], phase)
  }

  /** Thread 0 creates a seed with one machine. */
  lemma OneMachine() returns (run: seq<State>)
    ensures Run(run)
    ensures var s := Last(run);
      && s.lock == None && s.At(0) == s.At(1) == Idle && s.gens == [OneVm(Available, 0, Published)]
      && s.Has("r", "k") && s.realms["r"]["k"] == 0
  {
    hide Run;
    run := [Initial];
    Starts();
    var s0 := Initial;
    var s1 := s0.(realms := s0.realms["r" := map[]]).Become(0, Creating("r", "k", 1, [])).(lock := Some(0));
    Extend(run, 0, CreateBegin("r", "k", 1), 1, s1);
    run := run + [s1];
    var vms := [] + [Vm(Available, 0)];
    var s2 := s1.Become(0, Creating("r", "k", 1, vms));
    Extend(run, 0, CreateVm, 1, s2);
    run := run + [s2];
    var s3 := s2.Become(0, Idle).(gens := s2.gens + [Generation(1, vms, Published)],
                                  realms := s2.realms["r" := SeedsOf(s2, "r")["k" := |s2.gens|]], lock := None);
    Extend(run, 0, CreateEnd, 1, s3);
    run := run + [s3];
    assert s2.gens == [];
    assert vms == [Vm(Available, 0)];
    assert s3.gens == [OneVm(Available, 0, Published)];
  }

  lemma Starts()
    ensures Run([Initial])
  {
  }

  lemma NotEmpty(run: seq<State>)
    requires Run(run)
    ensures |run| > 0
  {
  }

  /** Thread 1 looks the seed up, and thread 0 takes it out of the dictionary. */
  lemma Overtaken(before: seq<State>) returns (run: seq<State>)
    requires Run(before)
    requires var s := Last(before);
      && s.lock == None && s.At(0) == s.At(1) == Idle && s.gens == [OneVm(Available, 0, Published)]
      && s.Has("r", "k") && s.realms["r"]["k"] == 0
    ensures Run(run)
    ensures var s := Last(run);
      s.At(0) == Deleting(0, 1, None) && s.At(1) == Found(0) && s.gens == [OneVm(Available, 0, Draining(0))]
  {
    hide Run;
    NotEmpty(before);
    var s0 := Last(before);
    var s1 := s0.Become(1, Found(0));
    Extend(before, 1, LookUp("r", "k"), 1, s1);
    run := before + [s1];
    var s2 := s1.Become(0, Deleting(0, 1, None)).(realms := s1.realms["r" := s1.realms["r"] - {"k"}],
                                                  gens := s1.gens[0 := s1.gens[0].(phase := Draining(0))]);
    Extend(run, 0, DeleteBegin("r", "k"), 1, s2);
    run := run + [s2];
  }

  /** The look-up came before a deletion that has finished since. */
  lemma LookUpBeforeDeletion() returns (run: seq<State>)
    ensures Run(run) && Last(run).At(1) == Found(0) && |Last(run).gens| == 1
    ensures Last(run).gens[0].phase == Drained && !LeasesLater(Last(run), 1, 0)
  {
    hide Run;
    run := OneMachine();
    NotEmpty(run);
    run := Overtaken(run);
    NotEmpty(run);
    var s0 := Last(run);
    var s1 := s0.Put(0, 0, Vm(Held(0), 0)).Become(0, Deleting(0, 1, Some(0)));
    Extend(run, 0, DeleteTake(0), 1, s1);
    run := run + [s1];
    var s2 := s1.Put(0, 0, Vm(Disposed, 1)).Become(0, Deleting(0, 0, None));
    Extend(run, 0, Action.Dispose, 1, s2);
    run := run + [s2];
    var s3 := s2.Become(0, Idle).(gens := s2.gens[0 := s2.gens[0].(phase := Drained)]);
    Extend(run, 0, Action.DeleteEnd, 1, s3);
    run := run + [s3];
    Doomed(run, 1, 0);
  }

  lemma Doomed(run: seq<State>, t: ThreadId, g: GenId)
    requires Run(run) && Last(run).At(t) == Found(g) && g < |Last(run).gens|
    requires var gen := Last(run).gens[g];
      gen.phase == Drained || (gen.phase == Published && gen.vmCount <= 0)
    ensures !LeasesLater(Last(run), t, g)
  {
    hide Inv, LeasesLater, Dead;
    RunKeepsInv(run, |run| - 1);
    DeadExactly(Last(run), g);
    LeasesUnlessDead(Last(run), t, g);
  }

  /** The seed was created without machines. */
  lemma LookUpWithoutMachines() returns (run: seq<State>)
    ensures Run(run) && Last(run).At(1) == Found(0) && |Last(run).gens| == 1
    ensures Last(run).gens[0].phase == Published && !LeasesLater(Last(run), 1, 0)
  {
    hide Run, LeasesLater;
    run := [Initial];
    Starts();
    var s0 := Initial;
    var s1 := s0.(realms := s0.realms["r" := map[]]).Become(0, Creating("r", "k", 0, [])).(lock := Some(0));
    Extend(run, 0, CreateBegin("r", "k", 0), 1, s1);
    run := run + [s1];
    var s2 := s1.Become(0, Idle).(gens := s1.gens + [Generation(0, [], Published)],
                                  realms := s1.realms["r" := SeedsOf(s1, "r")["k" := |s1.gens|]], lock := None);
    Extend(run, 0, CreateEnd, 1, s2);
    run := run + [s2];
    assert s1.gens == [];
    assert s2.gens == [Generation(0, [], Published)];
    var s3 := s2.Become(1, Found(0));
    Extend(run, 1, LookUp("r", "k"), 1, s3);
    run := run + [s3];
    Doomed(run, 1, 0);
  }
}
