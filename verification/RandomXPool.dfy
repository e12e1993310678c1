/** The pool of RandomX virtual machines as a step relation: any number of threads create seeds,
    look them up, lease machines for hashing, return them, and delete seeds, in any interleaving.
    The lock on the dictionary is explicit; `Take` and `Add` of the blocking collections are steps. */
module RandomXPool {
  import opened Wrappers

  type ThreadId = nat
  type GenId = nat

  /** Where a machine is. `Held` is between `Take` and `Dispose` in the deleting thread. */
  datatype Location = Available | Leased(owner: ThreadId) | Held(owner: ThreadId) | Disposed

  /** A machine, with the number of times it has been disposed. */
  datatype Vm = Vm(loc: Location, disposals: nat)

  /** History of a generation: in the dictionary, being drained by one thread, or drained. */
  datatype Phase = Published | Draining(owner: ThreadId) | Drained

  /** The machines created together for one seed. */
  datatype Generation = Generation(vmCount: int, vms: seq<Vm>, phase: Phase)

  datatype Activity =
    | Idle
    | Creating(realm: string, seed: string, vmCount: int, vms: seq<Vm>)
    | Found(gen: GenId)
    | Hashing(gen: GenId, vm: nat)
    | Deleting(gen: GenId, remaining: int, holding: Option<nat>)

  datatype State = State(
    realms: map<string, map<string, GenId>>,
    gens: seq<Generation>,
    threads: map<ThreadId, Activity>,
    lock: Option<ThreadId>)
  {
    function At(t: ThreadId): Activity { if t in threads then threads[t] else Idle }

    predicate Has(realm: string, seed: string) { realm in realms && seed in realms[realm] }

    predicate IsVm(g: GenId, i: nat) { g < |gens| && i < |gens[g].vms| }

    function Loc(g: GenId, i: nat): Location
      requires IsVm(g, i)
    {
      gens[g].vms[i].loc
    }

    function Become(t: ThreadId, a: Activity): State { this.(threads := threads[t := a]) }

    function Put(g: GenId, i: nat, vm: Vm): State
      requires IsVm(g, i)
    {
      this.(gens := gens[g := gens[g].(vms := gens[g].vms[i := vm])])
    }
  }

  datatype Action =
    | CreateBegin(realm: string, seed: string, vmCount: int)
    | CreateVm
    | CreateEnd
    | CreateFail
    | LookUp(realm: string, seed: string)
    | Lease(vm: nat)
    | LeaseFail
    | Return
    | DeleteBegin(realm: string, seed: string)
    | DeleteTake(vm: nat)
    | Dispose
    | DeleteEnd

  const Initial: State := State(map[], [], map[], None)

  /** The machines a generation gets: none for a negative count. */
  function Created(vmCount: int): nat { if vmCount < 0 then 0 else vmCount }

  function SeedsOf(s: State, realm: string): map<string, GenId> {
    if realm in s.realms then s.realms[realm] else map[]
  }

  /** One step of thread `t`: `processors` is what a count of -1 stands for. */
  ghost predicate Step(s: State, t: ThreadId, a: Action, processors: nat, s': State) {
    match a
    case CreateBegin(realm, seed, vmCount) =>
      && s.At(t) == Idle && s.lock == None
      && var entered := s.(realms := s.realms[realm := SeedsOf(s, realm)]);
         s' == if s.Has(realm, seed) then s
               else entered.Become(t, Creating(realm, seed, if vmCount == -1 then processors else vmCount, []))
                           .(lock := Some(t))
    case CreateVm =>
      && s.At(t).Creating? && |s.At(t).vms| < Created(s.At(t).vmCount)
      && s' == s.Become(t, s.At(t).(vms := s.At(t).vms + [Vm(Available, 0)]))
    case CreateEnd =>
      && s.At(t).Creating? && |s.At(t).vms| == Created(s.At(t).vmCount)
      && var c := s.At(t);
         s' == s.Become(t, Idle).(
                 gens := s.gens + [Generation(c.vmCount, c.vms, Published)],
                 realms := s.realms[c.realm := SeedsOf(s, c.realm)[c.seed := |s.gens|]],
                 lock := None)
    case CreateFail =>
      s.At(t).Creating? && s' == s.Become(t, Idle).(lock := None)
    case LookUp(realm, seed) =>
      && s.At(t) == Idle && s.lock == None
      && s' == if s.Has(realm, seed) then s.Become(t, Found(s.realms[realm][seed])) else s
    case Lease(i) =>
      && s.At(t).Found? && s.IsVm(s.At(t).gen, i) && s.Loc(s.At(t).gen, i) == Available
      && s' == s.Put(s.At(t).gen, i, s.gens[s.At(t).gen].vms[i].(loc := Leased(t)))
                .Become(t, Hashing(s.At(t).gen, i))
    case LeaseFail =>
      s.At(t).Found? && s' == s.Become(t, Idle)
    case Return =>
      && s.At(t).Hashing? && s.IsVm(s.At(t).gen, s.At(t).vm)
      && s' == s.Put(s.At(t).gen, s.At(t).vm, s.gens[s.At(t).gen].vms[s.At(t).vm].(loc := Available))
                .Become(t, Idle)
    case DeleteBegin(realm, seed) =>
      && s.At(t) == Idle && s.lock == None
      && if s.Has(realm, seed) && s.realms[realm][seed] < |s.gens| then
           var g := s.realms[realm][seed];
           s' == s.Become(t, Deleting(g, s.gens[g].vmCount, None)).(
                   realms := s.realms[realm := s.realms[realm] - {seed}],
                   gens := s.gens[g := s.gens[g].(phase := Draining(t))])
         else s' == s
    case DeleteTake(i) =>
      && s.At(t).Deleting? && s.At(t).remaining > 0 && s.At(t).holding == None
      && s.IsVm(s.At(t).gen, i) && s.Loc(s.At(t).gen, i) == Available
      && s' == s.Put(s.At(t).gen, i, s.gens[s.At(t).gen].vms[i].(loc := Held(t)))
                .Become(t, s.At(t).(holding := Some(i)))
    case Dispose =>
      && s.At(t).Deleting? && s.At(t).holding.Some? && s.IsVm(s.At(t).gen, s.At(t).holding.value)
      && var vm := s.gens[s.At(t).gen].vms[s.At(t).holding.value];
         s' == s.Put(s.At(t).gen, s.At(t).holding.value, Vm(Disposed, vm.disposals + 1))
                .Become(t, s.At(t).(remaining := s.At(t).remaining - 1, holding := None))
    case DeleteEnd =>
      && s.At(t).Deleting? && s.At(t).remaining <= 0 && s.At(t).holding == None && s.At(t).gen < |s.gens|
      && s' == s.Become(t, Idle).(gens := s.gens[s.At(t).gen := s.gens[s.At(t).gen].(phase := Drained)])
  }

  // --- The invariant ---

  /** How many machines have been disposed. */
  function CountDisposed(vms: seq<Vm>): (n: nat)
    ensures n <= |vms|
  {
    if vms == [] then 0
    else CountDisposed(vms[..|vms| - 1]) + if vms[|vms| - 1].loc == Disposed then 1 else 0
  }

  /** A machine is where its location says: leased by a thread that hashes on it, held by the thread
      that drains its generation, and disposed at most once. */
  ghost predicate VmOk(s: State, g: GenId, i: nat)
    requires s.IsVm(g, i)
  {
    && s.gens[g].vms[i].disposals == (if s.Loc(g, i) == Disposed then 1 else 0)
    && match s.Loc(g, i) {
         case Available => true
         case Leased(t) => s.At(t) == Hashing(g, i)
         case Held(t) => s.At(t).Deleting? && s.At(t).gen == g && s.At(t).holding == Some(i)
         case Disposed => s.gens[g].phase != Published
       }
  }

  ghost predicate VmsOk(s: State) {
    forall g: GenId, i: nat :: s.IsVm(g, i) ==> VmOk(s, g, i)
  }

  /** What a thread believes about machines is true. */
  ghost predicate ThreadOk(s: State, t: ThreadId) {
    match s.At(t)
    case Idle => true
    case Creating(realm, seed, vmCount, vms) =>
      && s.lock == Some(t) && |vms| <= Created(vmCount) && realm in s.realms && !s.Has(realm, seed)
      && forall i :: 0 <= i < |vms| ==> vms[i] == Vm(Available, 0)
    case Found(g) => g < |s.gens|
    case Hashing(g, i) => s.IsVm(g, i) && s.Loc(g, i) == Leased(t)
    case Deleting(g, remaining, holding) =>
      && g < |s.gens| && s.gens[g].phase == Draining(t)
      && CountDisposed(s.gens[g].vms) == Created(s.gens[g].vmCount) - Created(remaining)
      && (holding.Some? ==> remaining > 0 && s.IsVm(g, holding.value) && s.Loc(g, holding.value) == Held(t))
  }

  ghost predicate ThreadsOk(s: State) {
    forall t: ThreadId :: ThreadOk(s, t)
  }

  ghost predicate GenOk(s: State, g: GenId)
    requires g < |s.gens|
  {
    && |s.gens[g].vms| == Created(s.gens[g].vmCount)
    && match s.gens[g].phase {
         case Published => true
         case Draining(t) => s.At(t).Deleting? && s.At(t).gen == g
         case Drained => CountDisposed(s.gens[g].vms) == |s.gens[g].vms|
       }
  }

  ghost predicate GensOk(s: State) {
    forall g: GenId :: g < |s.gens| ==> GenOk(s, g)
  }

  /** The dictionary names published generations, each under one key only. */
  ghost predicate DictionaryOk(s: State) {
    && (forall r, k :: s.Has(r, k) ==> s.realms[r][k] < |s.gens| && s.gens[s.realms[r][k]].phase == Published)
    && (forall r, k, r', k' :: s.Has(r, k) && s.Has(r', k') && s.realms[r][k] == s.realms[r'][k'] ==>
          r == r' && k == k')
  }

  ghost predicate Inv(s: State) {
    && VmsOk(s) && ThreadsOk(s) && GensOk(s) && DictionaryOk(s)
    && (s.lock.Some? ==> s.At(s.lock.value).Creating?)
  }

  lemma InitialInv()
    ensures Inv(Initial)
  {
  }

  lemma {:induction false} CountPut(vms: seq<Vm>, i: nat, vm: Vm)
    requires i < |vms|
    ensures CountDisposed(vms[i := vm]) + (if vms[i].loc == Disposed then 1 else 0)
      == CountDisposed(vms) + if vm.loc == Disposed then 1 else 0
  {
    var last := |vms| - 1;
    if i < last {
      CountPut(vms[..last], i, vm);
      assert vms[i := vm][..last] == vms[..last][i := vm];
    } else {
      assert vms[i := vm][..last] == vms[..last];
    }
  }

  lemma {:induction false} CountNone(vms: seq<Vm>)
    requires forall i :: 0 <= i < |vms| ==> vms[i].loc != Disposed
    ensures CountDisposed(vms) == 0
  {
    if vms != [] {
      CountNone(vms[..|vms| - 1]);
    }
  }

  /** No machine of a published generation has been disposed. */
  lemma PublishedIsWhole(s: State, g: GenId)
    requires VmsOk(s) && g < |s.gens| && s.gens[g].phase == Published
    ensures CountDisposed(s.gens[g].vms) == 0
  {
    forall i: nat | i < |s.gens[g].vms|
      ensures s.gens[g].vms[i].loc != Disposed
    {
      assert VmOk(s, g, i);
    }
    CountNone(s.gens[g].vms);
  }

  // --- What one step keeps, machine by machine and thread by thread ---

  /** Generations only grow in number; only disposing changes the number of disposed machines, and only
      the thread that drains a generation, or takes it out of the dictionary, changes its phase. */
  lemma GenStays(s: State, t: ThreadId, a: Action, processors: nat, s': State, g: GenId)
    requires ThreadOk(s, t) && DictionaryOk(s) && Step(s, t, a, processors, s') && g < |s.gens|
    ensures g < |s'.gens| && s'.gens[g].vmCount == s.gens[g].vmCount && |s'.gens[g].vms| == |s.gens[g].vms|
    ensures CountDisposed(s'.gens[g].vms)
      == CountDisposed(s.gens[g].vms) + if a.Dispose? && s.At(t).gen == g then 1 else 0
    ensures s'.gens[g].phase == s.gens[g].phase || s.gens[g].phase == Published || s.gens[g].phase == Draining(t)
  {
    hide CountDisposed;
    match a {
      case Lease(i) => CountPut(s.gens[s.At(t).gen].vms, i, s'.gens[s.At(t).gen].vms[i]);
      case Return => CountPut(s.gens[s.At(t).gen].vms, s.At(t).vm, s'.gens[s.At(t).gen].vms[s.At(t).vm]);
      case DeleteTake(i) => CountPut(s.gens[s.At(t).gen].vms, i, s'.gens[s.At(t).gen].vms[i]);
      case Dispose =>
        var i := s.At(t).holding.value;
        CountPut(s.gens[s.At(t).gen].vms, i, s'.gens[s.At(t).gen].vms[i]);
      case _ =>
    }
  }

  /** A machine that another thread uses stays where it is, and so does that thread. */
  lemma UsedVmStays(s: State, t: ThreadId, a: Action, processors: nat, s': State, g: GenId, i: nat)
    requires ThreadOk(s, t) && Step(s, t, a, processors, s') && s.IsVm(g, i)
    requires (s.Loc(g, i).Leased? || s.Loc(g, i).Held?) && s.Loc(g, i).owner != t
    ensures s'.IsVm(g, i) && s'.gens[g].vms[i] == s.gens[g].vms[i]
  {
    hide CountDisposed;
  }

  lemma OthersStay(s: State, t: ThreadId, a: Action, processors: nat, s': State, u: ThreadId)
    requires Step(s, t, a, processors, s') && u != t
    ensures s'.At(u) == s.At(u)
  {
  }

  lemma FreeVmKeeps(s: State, t: ThreadId, a: Action, processors: nat, s': State, g: GenId, i: nat)
    requires ThreadOk(s, t) && Step(s, t, a, processors, s') && s.IsVm(g, i) && VmOk(s, g, i)
    requires s.Loc(g, i) == Available || s.Loc(g, i) == Disposed
    ensures s'.IsVm(g, i) && VmOk(s', g, i)
  {
    hide CountDisposed;
  }

  lemma OwnVmKeeps(s: State, t: ThreadId, a: Action, processors: nat, s': State, g: GenId, i: nat)
    requires ThreadOk(s, t) && Step(s, t, a, processors, s') && s.IsVm(g, i) && VmOk(s, g, i)
    requires s.Loc(g, i) == Leased(t) || s.Loc(g, i) == Held(t)
    ensures s'.IsVm(g, i) && VmOk(s', g, i)
  {
    hide CountDisposed;
  }

  lemma OldVmKeeps(s: State, t: ThreadId, a: Action, processors: nat, s': State, g: GenId, i: nat)
    requires Inv(s) && Step(s, t, a, processors, s') && s.IsVm(g, i)
    ensures s'.IsVm(g, i) && VmOk(s', g, i)
  {
    hide Step, CountDisposed, DictionaryOk, GensOk;
    assert VmOk(s, g, i) && ThreadOk(s, t);
    if s.Loc(g, i) == Available || s.Loc(g, i) == Disposed {
      FreeVmKeeps(s, t, a, processors, s', g, i);
    } else if s.Loc(g, i).owner == t {
      OwnVmKeeps(s, t, a, processors, s', g, i);
    } else {
      UsedVmStays(s, t, a, processors, s', g, i);
      OthersStay(s, t, a, processors, s', s.Loc(g, i).owner);
    }
  }

  lemma NewVmKeeps(s: State, t: ThreadId, a: Action, processors: nat, s': State, g: GenId, i: nat)
    requires ThreadOk(s, t) && Step(s, t, a, processors, s') && s'.IsVm(g, i) && !s.IsVm(g, i)
    ensures VmOk(s', g, i)
  {
    hide CountDisposed;
  }

  /** The lock keeps a thread that builds machines alone with the dictionary. */
  lemma BuilderIsAlone(s: State, t: ThreadId, a: Action, processors: nat, s': State, u: ThreadId)
    requires ThreadOk(s, t) && ThreadOk(s, u) && Step(s, t, a, processors, s') && u != t && s.At(u).Creating?
    ensures s'.lock == s.lock && s'.realms == s.realms
  {
    hide CountDisposed;
  }

  lemma OtherThreadKeeps(s: State, t: ThreadId, a: Action, processors: nat, s': State, u: ThreadId)
    requires Inv(s) && Step(s, t, a, processors, s') && u != t
    ensures ThreadOk(s', u)
  {
    hide Step, CountDisposed, DictionaryOk, GensOk, VmsOk;
    assert ThreadOk(s, t) && ThreadOk(s, u);
    OthersStay(s, t, a, processors, s', u);
    match s.At(u) {
      case Creating(_, _, _, _) => BuilderIsAlone(s, t, a, processors, s', u);
      case Found(g) => GenStays(s, t, a, processors, s', g);
      case Hashing(g, i) => UsedVmStays(s, t, a, processors, s', g, i);
      case Deleting(g, remaining, holding) =>
        GenStays(s, t, a, processors, s', g);
        DrainingStays(s, t, a, processors, s', u, g);
        if holding.Some? {
          UsedVmStays(s, t, a, processors, s', g, holding.value);
        }
      case Idle =>
    }
  }

  lemma DrainingStays(s: State, t: ThreadId, a: Action, processors: nat, s': State, u: ThreadId, g: GenId)
    requires ThreadOk(s, t) && DictionaryOk(s) && Step(s, t, a, processors, s')
    requires u != t && g < |s.gens| && s.gens[g].phase == Draining(u)
    ensures !(a.Dispose? && s.At(t).gen == g)
  {
    hide CountDisposed;
  }

  lemma OwnThreadKeeps(s: State, t: ThreadId, a: Action, processors: nat, s': State)
    requires Inv(s) && Step(s, t, a, processors, s')
    ensures ThreadOk(s', t)
  {
    hide CountDisposed, GensOk, VmsOk;
    assert ThreadOk(s, t);
    if s.At(t).Deleting? {
      GenStays(s, t, a, processors, s', s.At(t).gen);
    }
    if a.DeleteBegin? && s.Has(a.realm, a.seed) {
      PublishedIsWhole(s, s.realms[a.realm][a.seed]);
    }
  }

  lemma OldGenKeeps(s: State, t: ThreadId, a: Action, processors: nat, s': State, g: GenId)
    requires ThreadOk(s, t) && DictionaryOk(s) && Step(s, t, a, processors, s') && g < |s.gens| && GenOk(s, g)
    ensures g < |s'.gens| && GenOk(s', g)
  {
    hide CountDisposed;
    GenStays(s, t, a, processors, s', g);
  }

  lemma NewGenKeeps(s: State, t: ThreadId, a: Action, processors: nat, s': State, g: GenId)
    requires ThreadOk(s, t) && Step(s, t, a, processors, s') && |s.gens| <= g < |s'.gens|
    ensures GenOk(s', g)
  {
    hide CountDisposed;
  }

  // --- The dictionary ---

  /** How a step changes the dictionary: an entry is added with a new generation, taken out, or kept. */
  lemma EntryStays(s: State, t: ThreadId, a: Action, processors: nat, s': State, r: string, k: string)
    requires ThreadOk(s, t) && Step(s, t, a, processors, s')
    ensures s.Has(r, k) && a != DeleteBegin(r, k) ==> s'.Has(r, k)
    ensures s'.Has(r, k) && s.Has(r, k) ==> s'.realms[r][k] == s.realms[r][k]
    ensures s'.Has(r, k) && !s.Has(r, k) ==>
      s.At(t).Creating? && a.CreateEnd? && r == s.At(t).realm && k == s.At(t).seed && s'.realms[r][k] == |s.gens|
  {
    hide CountDisposed;
  }

  lemma NewEntry(s: State, t: ThreadId, a: Action, processors: nat, s': State)
    requires ThreadOk(s, t) && Step(s, t, a, processors, s') && a.CreateEnd?
    ensures |s'.gens| == |s.gens| + 1 && s'.gens[|s.gens|].phase == Published
  {
    hide CountDisposed;
  }

  /** What stays in the dictionary stays published: the one entry of a deleted generation goes. */
  lemma OldEntryKeeps(s: State, t: ThreadId, a: Action, processors: nat, s': State, r: string, k: string)
    requires ThreadOk(s, t) && DictionaryOk(s) && Step(s, t, a, processors, s') && s.Has(r, k) && s'.Has(r, k)
    ensures s.realms[r][k] < |s'.gens| && s'.gens[s.realms[r][k]].phase == Published
  {
    hide CountDisposed;
  }

  lemma DictionaryKeeps(s: State, t: ThreadId, a: Action, processors: nat, s': State)
    requires ThreadOk(s, t) && DictionaryOk(s) && Step(s, t, a, processors, s')
    ensures DictionaryOk(s')
  {
    hide Step, ThreadOk;
    forall r, k | s'.Has(r, k)
      ensures s'.realms[r][k] < |s'.gens| && s'.gens[s'.realms[r][k]].phase == Published
    {
      EntryStays(s, t, a, processors, s', r, k);
      if s.Has(r, k) {
        OldEntryKeeps(s, t, a, processors, s', r, k);
      } else {
        NewEntry(s, t, a, processors, s');
      }
    }
    forall r, k, r', k' | s'.Has(r, k) && s'.Has(r', k') && s'.realms[r][k] == s'.realms[r'][k']
      ensures r == r' && k == k'
    {
      EntryStays(s, t, a, processors, s', r, k);
      EntryStays(s, t, a, processors, s', r', k');
    }
  }

  lemma LockKeeps(s: State, t: ThreadId, a: Action, processors: nat, s': State)
    requires ThreadOk(s, t) && Step(s, t, a, processors, s')
    requires s.lock.Some? ==> s.At(s.lock.value).Creating?
    ensures s'.lock.Some? ==> s'.At(s'.lock.value).Creating?
  {
    hide CountDisposed;
  }

  /** Every step of every thread keeps the invariant. */
  lemma StepKeepsInv(s: State, t: ThreadId, a: Action, processors: nat, s': State)
    requires Inv(s) && Step(s, t, a, processors, s')
    ensures Inv(s')
  {
    hide Step, CountDisposed, VmOk, ThreadOk, GenOk, DictionaryOk;
    assert ThreadOk(s, t);
    forall g: GenId, i: nat | s'.IsVm(g, i)
      ensures VmOk(s', g, i)
    {
      if s.IsVm(g, i) {
        OldVmKeeps(s, t, a, processors, s', g, i);
      } else {
        NewVmKeeps(s, t, a, processors, s', g, i);
      }
    }
    forall u: ThreadId
      ensures ThreadOk(s', u)
    {
      if u == t {
        OwnThreadKeeps(s, t, a, processors, s');
      } else {
        OtherThreadKeeps(s, t, a, processors, s', u);
      }
    }
    forall g: GenId | g < |s'.gens|
      ensures GenOk(s', g)
    {
      if g < |s.gens| {
        assert GenOk(s, g);
        OldGenKeeps(s, t, a, processors, s', g);
      } else {
        NewGenKeeps(s, t, a, processors, s', g);
      }
    }
    DictionaryKeeps(s, t, a, processors, s');
    LockKeeps(s, t, a, processors, s');
  }

  // --- Every run ---

  ghost predicate Next(s: State, s': State) {
    exists t, a, processors :: Step(s, t, a, processors, s')
  }

  /** States in the order some interleaving produces them. */
  ghost predicate Run(run: seq<State>) {
    && |run| > 0 && run[0] == Initial
    && forall i :: 0 < i < |run| ==> Next(run[i - 1], run[i])
  }

  lemma {:induction false} RunKeepsInv(run: seq<State>, i: nat)
    requires Run(run) && i < |run|
    ensures Inv(run[i])
  {
    hide Inv, Step;
    if i == 0 {
      InitialInv();
    } else {
      RunKeepsInv(run, i - 1);
      var t, a, processors :| Step(run[i - 1], t, a, processors, run[i]);
      StepKeepsInv(run[i - 1], t, a, processors, run[i]);
    }
  }

  function CountIn(vms: seq<Vm>, p: Location -> bool): nat {
    if vms == [] then 0 else CountIn(vms[..|vms| - 1], p) + if p(vms[|vms| - 1].loc) then 1 else 0
  }

  lemma {:induction false} LocationsPartition(vms: seq<Vm>)
    ensures CountIn(vms, (l: Location) => l.Available?) + CountIn(vms, (l: Location) => l.Leased?)
      + CountIn(vms, (l: Location) => l.Held?) + CountIn(vms, (l: Location) => l.Disposed?) == |vms|
  {
    if vms != [] {
      LocationsPartition(vms[..|vms| - 1]);
    }
  }

  /** Every machine is available, leased by the one thread that hashes on it, held by the one thread
      that deletes its seed, or disposed exactly once; and the four counts make up `VmCount`. */
  lemma EveryVmIsSomewhere(run: seq<State>, n: nat, g: GenId, i: nat)
    requires Run(run) && n < |run| && run[n].IsVm(g, i)
    ensures var s, loc := run[n], run[n].Loc(g, i);
      && (forall t :: s.At(t) == Hashing(g, i) <==> loc == Leased(t))
      && (forall t :: s.At(t).Deleting? && s.At(t).gen == g && s.At(t).holding == Some(i) <==> loc == Held(t))
      && s.gens[g].vms[i].disposals == if loc == Disposed then 1 else 0
    ensures var vms := run[n].gens[g].vms;
      CountIn(vms, (l: Location) => l.Available?) + CountIn(vms, (l: Location) => l.Leased?)
      + CountIn(vms, (l: Location) => l.Held?) + CountIn(vms, (l: Location) => l.Disposed?)
      == Created(run[n].gens[g].vmCount)
  {
    hide Run, CountIn, CountDisposed, DictionaryOk;
    RunKeepsInv(run, n);
    var s := run[n];
    assert VmOk(s, g, i);
    forall t
      ensures s.At(t) == Hashing(g, i) <==> s.Loc(g, i) == Leased(t)
      ensures s.At(t).Deleting? && s.At(t).gen == g && s.At(t).holding == Some(i) <==> s.Loc(g, i) == Held(t)
    {
      assert ThreadOk(s, t);
    }
    assert GenOk(s, g);
    LocationsPartition(s.gens[g].vms);
  }

  /** How one step of thread `t` may move a machine. */
  predicate Moves(t: ThreadId, from: Location, to: Location) {
    || from == to
    || (from == Available && (to == Leased(t) || to == Held(t)))
    || (from == Leased(t) && to == Available)
    || (from == Held(t) && to == Disposed)
  }

  /** Only the lessee gives a leased machine back, only the holder disposes one, and a disposed
      machine never moves again. */
  lemma StepMoves(s: State, t: ThreadId, a: Action, processors: nat, s': State, g: GenId, i: nat)
    requires Inv(s) && Step(s, t, a, processors, s') && s.IsVm(g, i)
    ensures s'.IsVm(g, i) && Moves(t, s.Loc(g, i), s'.Loc(g, i))
  {
    hide Step, CountDisposed, DictionaryOk, VmsOk, GensOk, ThreadOk;
    assert ThreadOk(s, t);
    ThreadMoves(s, t, a, processors, s', g, i);
  }

  lemma ThreadMoves(s: State, t: ThreadId, a: Action, processors: nat, s': State, g: GenId, i: nat)
    requires ThreadOk(s, t) && Step(s, t, a, processors, s') && s.IsVm(g, i)
    ensures s'.IsVm(g, i) && Moves(t, s.Loc(g, i), s'.Loc(g, i))
  {
    hide CountDisposed;
  }

  lemma {:induction false} DisposedForever(run: seq<State>, m: nat, n: nat, g: GenId, i: nat)
    requires Run(run) && m <= n < |run| && run[m].IsVm(g, i) && run[m].Loc(g, i) == Disposed
    ensures run[n].IsVm(g, i) && run[n].Loc(g, i) == Disposed
  {
    hide Inv, Step;
    if m < n {
      DisposedForever(run, m, n - 1, g, i);
      RunKeepsInv(run, n - 1);
      var t, a, processors :| Step(run[n - 1], t, a, processors, run[n]);
      StepMoves(run[n - 1], t, a, processors, run[n], g, i);
    }
  }

  // --- Deletion ---

  lemma {:induction false} AllDisposed(vms: seq<Vm>, i: nat)
    requires CountDisposed(vms) == |vms| && i < |vms|
    ensures vms[i].loc == Disposed
  {
    if i < |vms| - 1 {
      AllDisposed(vms[..|vms| - 1], i);
    }
  }

  lemma {:induction false} SomeNotDisposed(vms: seq<Vm>) returns (i: nat)
    requires CountDisposed(vms) < |vms|
    ensures i < |vms| && vms[i].loc != Disposed
  {
    i := |vms| - 1;
    if vms[i].loc == Disposed {
      i := SomeNotDisposed(vms[..i]);
    }
  }

  /** When `DeleteSeed` finishes, exactly `VmCount` machines of its generation have been disposed,
      once each, no thread is hashing on any, and the dictionary no longer leads to them. */
  lemma DeleteFinishes(s: State, t: ThreadId, processors: nat, s': State)
    requires Inv(s) && Step(s, t, Action.DeleteEnd, processors, s')
    ensures var g := s.At(t).gen;
      && g < |s'.gens| && s'.gens[g].phase == Drained && |s'.gens[g].vms| == Created(s'.gens[g].vmCount)
      && (forall i: nat :: i < |s'.gens[g].vms| ==> s'.gens[g].vms[i] == Vm(Disposed, 1))
      && (forall u, i :: s'.At(u) != Hashing(g, i))
      && (forall r, k :: s'.Has(r, k) ==> s'.realms[r][k] != g)
  {
    hide CountDisposed;
    StepKeepsInv(s, t, Action.DeleteEnd, processors, s');
    assert ThreadOk(s, t);
    var g := s.At(t).gen;
    assert GenOk(s', g);
    forall i: nat | i < |s'.gens[g].vms|
      ensures s'.gens[g].vms[i] == Vm(Disposed, 1)
    {
      AllDisposed(s'.gens[g].vms, i);
      assert VmOk(s', g, i);
    }
    forall u, i
      ensures s'.At(u) != Hashing(g, i)
    {
      assert ThreadOk(s', u);
    }
  }

  /** A deleting thread that still waits for machines has one to wait for: some machine of its
      generation is available, or leased to a thread that can return it. */
  lemma DeleterHasSomethingToTake(s: State, t: ThreadId) returns (i: nat)
    requires Inv(s) && s.At(t).Deleting? && s.At(t).remaining > 0 && s.At(t).holding == None
    ensures var g := s.At(t).gen;
      && s.IsVm(g, i)
      && (s.Loc(g, i) == Available || (s.Loc(g, i).Leased? && s.At(s.Loc(g, i).owner) == Hashing(g, i)))
  {
    hide CountDisposed, DictionaryOk;
    assert ThreadOk(s, t);
    var g := s.At(t).gen;
    assert GenOk(s, g);
    i := SomeNotDisposed(s.gens[g].vms);
    assert VmOk(s, g, i);
    if s.Loc(g, i).Held? {
      assert ThreadOk(s, s.Loc(g, i).owner);
    }
  }

  /** While a thread holds the lock no other thread creates, looks up or deletes a seed, and nobody but that
      thread lets go of it. */
  lemma LockExcludes(s: State, t: ThreadId, a: Action, processors: nat, s': State, holder: ThreadId)
    requires Inv(s) && Step(s, t, a, processors, s') && s.lock == Some(holder) && t != holder
    ensures !a.CreateBegin? && !a.LookUp? && !a.DeleteBegin? && !a.CreateVm? && !a.CreateEnd? && !a.CreateFail?
    ensures s'.lock == s.lock && s'.realms == s.realms
  {
    hide CountDisposed;
    assert ThreadOk(s, t);
  }

  // --- Creation ---

  /** A seed keeps its generation for as long as it stays in the dictionary: creating it again
      changes nothing, and only deletion takes it out. */
  lemma SeedsAreStable(s: State, t: ThreadId, a: Action, processors: nat, s': State, r: string, k: string)
    requires Inv(s) && Step(s, t, a, processors, s') && s.Has(r, k)
    ensures s'.Has(r, k) || a == DeleteBegin(r, k)
    ensures s'.Has(r, k) ==> s'.realms[r][k] == s.realms[r][k]
  {
    EntryStays(s, t, a, processors, s', r, k);
  }
}
