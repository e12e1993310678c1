/** What variable difficulty guarantees over whole runs. */
module VarDiffRuns {
  import opened VarDiff
  import opened Wrappers

  // --- Time ---

  /** An update of either kind; `base` is whatever difficulty was read, possibly long ago. */
  datatype Event = Share(base: real, ts: real, now: real) | Idle(base: real, ts: real, now: real)

  function After(o: Config, c: Ctx, e: Event): Outcome {
    match e
    case Share(base, ts, now) => AfterShare(o, c, base, ts, now)
    case Idle(base, ts, now) => AfterIdle(o, c, base, ts, now)
  }

  /** Timestamps come from one clock in the order the lock is taken. */
  predicate InOrder(es: seq<Event>) {
    && (|es| > 0 ==> es[0].ts >= 0.0)
    && forall i :: 0 < i < |es| ==> es[i - 1].ts <= es[i].ts
  }

  /** The outcome of the last of a run of events on a new context. */
  function RunOf(o: Config, created: real, es: seq<Event>): Outcome {
    if es == [] then Outcome(Ctx(None, 0.0, None, None, created), None)
    else After(o, RunOf(o, created, es[..|es| - 1]).ctx, es[|es| - 1])
  }

  function Buffered(c: Ctx): seq<real> { c.timeBuffer.GetOr([]) }

  predicate NonNegative(s: seq<real>) { forall i :: 0 <= i < |s| ==> s[i] >= 0.0 }

  /** The retarget point is not in the future, and the buffer only holds time since then. */
  predicate TimeInv(c: Ctx) {
    && c.lastRetarget >= 0.0
    && NonNegative(Buffered(c)) && |Buffered(c)| <= BUFFER_SIZE
    && match c.lastTs {
         case None => c.lastRetarget == 0.0 && c.timeBuffer == None
         case Some(last) =>
           && c.lastRetarget <= last
           && 0.0 <= Sum(Buffered(c)) <= last - c.lastRetarget
       }
  }

  lemma {:induction false} SumAppend(s: seq<real>, x: real)
    ensures Sum(s + [x]) == Sum(s) + x
  {
    if s != [] {
      SumAppend(s[1..], x);
      assert (s + [x])[1..] == s[1..] + [x];
    } else {
      assert (s + [x])[1..] == [];
    }
  }

  lemma {:induction false} SumNonNegative(s: seq<real>)
    requires NonNegative(s)
    ensures Sum(s) >= 0.0
  {
    if s != [] {
      SumNonNegative(s[1..]);
    }
  }

  lemma PushBackSum(s: seq<real>, x: real)
    requires NonNegative(s) && x >= 0.0 && |s| <= BUFFER_SIZE
    ensures NonNegative(PushBack(s, x)) && |PushBack(s, x)| <= BUFFER_SIZE
    ensures 0.0 <= Sum(PushBack(s, x)) <= Sum(s) + x
  {
    SumAppend(s, x);
    if |s| == BUFFER_SIZE {
      SumAppend(s[1..], x);
    }
    SumNonNegative(PushBack(s, x));
  }

  lemma StepKeepsTimeInv(o: Config, c: Ctx, e: Event)
    requires TimeInv(c) && e.ts >= c.lastTs.GetOr(0.0)
    ensures TimeInv(After(o, c, e).ctx)
    ensures After(o, c, e).ctx.lastRetarget >= c.lastRetarget
    ensures c.lastTs.GetOr(0.0) <= After(o, c, e).ctx.lastTs.GetOr(0.0) <= e.ts
    ensures c.lastTs.Some? ==> After(o, c, e).ctx.lastTs.Some?
    ensures After(o, c, e).newDiff.Some? ==>
      && After(o, c, e).ctx.lastTs == Some(e.ts) && After(o, c, e).ctx.lastRetarget == e.ts
      && (c.lastTs.Some? ==> e.ts - c.lastRetarget >= o.retargetTime - SAFETY_MARGIN)
  {
    hide PushBack, NewDifficulty, Average, Sum;
    assert Sum([]) == 0.0 by {
      SumOfNone();
    }
    if e.Share? && c.lastTs.Some? {
      PushBackSum(Buffered(c), e.ts - c.lastTs.value);
    }
  }

  lemma SumOfNone()
    ensures Sum([]) == 0.0
  {
  }

  /** Along every run the retarget point stays behind the last update, and the buffered time stays
      within the time between them. */
  lemma {:induction false} RunKeepsTimeInv(o: Config, created: real, es: seq<Event>)
    requires InOrder(es)
    ensures TimeInv(RunOf(o, created, es).ctx)
    ensures RunOf(o, created, es).ctx.lastTs.GetOr(0.0) <= if es == [] then 0.0 else es[|es| - 1].ts
  {
    hide After, TimeInv;
    if es == [] {
      NewContext(created);
    } else {
      var before := es[..|es| - 1];
      RunKeepsTimeInv(o, created, before);
      StepKeepsTimeInv(o, RunOf(o, created, before).ctx, es[|es| - 1]);
    }
  }

  lemma NewContext(created: real)
    ensures TimeInv(Ctx(None, 0.0, None, None, created))
  {
  }

  /** Whether event `i` of the run changed the difficulty. */
  predicate Changes(o: Config, created: real, es: seq<Event>, i: nat)
    requires i < |es|
  {
    RunOf(o, created, es[..i + 1]).newDiff.Some?
  }

  /** After a change the retarget point never falls behind it. */
  lemma {:induction false} RetargetAfterChange(o: Config, created: real, es: seq<Event>, i: nat, j: nat)
    requires InOrder(es) && i < j <= |es| && Changes(o, created, es, i)
    ensures var c := RunOf(o, created, es[..j]).ctx;
      c.lastTs.Some? && c.lastRetarget >= es[i].ts
    decreases j
  {
    hide After, TimeInv;
    var before := es[..j - 1];
    assert es[..j][..j - 1] == before;
    RunKeepsTimeInv(o, created, before);
    StepKeepsTimeInv(o, RunOf(o, created, before).ctx, es[j - 1]);
    if i < j - 1 {
      RetargetAfterChange(o, created, es, i, j - 1);
    }
  }

  /** Any two changes of the difficulty, of either kind, are at least the retarget time less the
      safety margin apart. */
  lemma ChangesAreApart(o: Config, created: real, es: seq<Event>, i: nat, j: nat)
    requires InOrder(es) && i < j < |es| && Changes(o, created, es, i) && Changes(o, created, es, j)
    ensures es[j].ts - es[i].ts >= o.retargetTime - SAFETY_MARGIN
  {
    hide After, TimeInv;
    RetargetAfterChange(o, created, es, i, j);
    assert es[..j + 1][..j] == es[..j];
    RunKeepsTimeInv(o, created, es[..j]);
    StepKeepsTimeInv(o, RunOf(o, created, es[..j]).ctx, es[j]);
  }

  // --- Range and size of a change ---

  predicate InRange(o: Config, d: real) { o.minDiff <= d <= o.Max() }

  /** A new difficulty is a change, is in range, is within the allowed change of its base, and moves
      against the deviation: up only when shares come too fast, down only when too slow. */
  lemma NewDifficultyIsAllowed(o: Config, base: real, avg: real)
    requires o.minDiff <= o.Max() && NewDifficulty(o, base, avg).Some?
    ensures var v := NewDifficulty(o, base, avg).value;
      && v != base && InRange(o, v)
      && (InRange(o, base) && o.Limited() ==> base - o.maxDelta.value <= v <= base + o.maxDelta.value)
      && (InRange(o, base) && base > 0.0 && o.targetTime > 0.0 && avg > 0.0 ==>
            (v > base <==> avg < o.targetTime) && (v < base <==> avg > o.targetTime))
  {
    hide Accepted, Proposal;
    AcceptedIsAllowed(o, Proposal(o, base, avg), base);
    if base > 0.0 && o.targetTime > 0.0 && avg > 0.0 {
      Direction(o, base, avg);
    }
  }

  lemma AcceptedIsAllowed(o: Config, p: Double, base: real)
    requires o.minDiff <= o.Max() && Accepted(o, p, base).Some?
    ensures var v := Accepted(o, p, base).value;
      && v != base && InRange(o, v)
      && (InRange(o, base) && o.Limited() ==> base - o.maxDelta.value <= v <= base + o.maxDelta.value)
      && (InRange(o, base) ==> (v > base ==> Less(Finite(base), p)) && (v < base ==> Less(p, Finite(base))))
  {
  }

  lemma Direction(o: Config, base: real, avg: real)
    requires base > 0.0 && o.targetTime > 0.0 && avg > 0.0
    ensures Less(Finite(base), Proposal(o, base, avg)) <==> avg < o.targetTime
    ensures Less(Proposal(o, base, avg), Finite(base)) <==> avg > o.targetTime
  {
    var n := base * o.targetTime;
    ScaledOrder(base, o.targetTime, avg);
    DivideOrder(n, base, avg);
    assert Proposal(o, base, avg) == Quotient(n, avg) == Finite(n / avg);
  }

  lemma ScaledOrder(base: real, target: real, avg: real)
    requires base > 0.0
    ensures base * target > base * avg <==> avg < target
    ensures base * target < base * avg <==> avg > target
  {
  }

  lemma DivideOrder(p: real, base: real, avg: real)
    requires avg > 0.0
    ensures p / avg > base <==> p > base * avg
    ensures p / avg < base <==> p < base * avg
  {
  }

  // --- The deferred difficulty, with concurrent updates ---

  type ThreadId = nat

  /** An updating thread first samples the difficulty, then runs the locked section, then enqueues
      what that returned. `base` is the sample a proposal was computed from. */
  datatype Local = Sampled(base: real) | Proposing(v: real, base: real)

  datatype Pending = NoPending | Pending(v: real, base: real)

  datatype Worker = Worker(
    difficulty: real,
    previous: Option<real>,
    pending: Pending,
    ctx: Ctx,
    locals: map<ThreadId, Local>)

  datatype Action =
    | Sample(t: ThreadId)
    | Locked(t: ThreadId, idle: bool, ts: real, now: real)
    | GiveUp(t: ThreadId)
    | Enqueue(t: ThreadId)
    | Apply

  function EventOf(idle: bool, base: real, ts: real, now: real): Event {
    if idle then Idle(base, ts, now) else Share(base, ts, now)
  }

  predicate Step(o: Config, w: Worker, a: Action, w': Worker) {
    match a
    case Sample(t) =>
      t !in w.locals && w' == w.(locals := w.locals[t := Sampled(w.difficulty)])
    case Locked(t, idle, ts, now) =>
      && t in w.locals && w.locals[t].Sampled?
      && var base := w.locals[t].base;
         var out := After(o, w.ctx, EventOf(idle, base, ts, now));
         w' == w.(ctx := out.ctx,
                  locals := if out.newDiff.Some? then w.locals[t := Proposing(out.newDiff.value, base)]
                            else w.locals - {t})
    case GiveUp(t) =>
      t in w.locals && w.locals[t].Sampled? && w' == w.(locals := w.locals - {t})
    case Enqueue(t) =>
      && t in w.locals && w.locals[t].Proposing?
      && w' == w.(pending := Pending(w.locals[t].v, w.locals[t].base), locals := w.locals - {t})
    case Apply =>
      w' == match w.pending
            case NoPending => w
            case Pending(v, _) => w.(previous := Some(w.difficulty), difficulty := v, pending := NoPending)
  }

  /** Everything that may still become the difficulty is in range, and every proposal is within the
      allowed change of the sample it was computed from. */
  predicate RangeInv(o: Config, w: Worker) {
    && InRange(o, w.difficulty)
    && (w.pending.Pending? ==> Allowed(o, w.pending.v, w.pending.base))
    && forall t :: t in w.locals ==>
         match w.locals[t] {
           case Sampled(base) => InRange(o, base)
           case Proposing(v, base) => Allowed(o, v, base)
         }
  }

  predicate Allowed(o: Config, v: real, base: real) {
    && InRange(o, v) && InRange(o, base)
    && (o.Limited() ==> base - o.maxDelta.value <= v <= base + o.maxDelta.value)
  }

  ghost predicate Next(o: Config, w: Worker, w': Worker) {
    exists a :: Step(o, w, a, w')
  }

  ghost predicate Run(o: Config, run: seq<Worker>) {
    && |run| > 0 && run[0].pending == NoPending && run[0].locals == map[]
    && forall i :: 0 < i < |run| ==> Next(o, run[i - 1], run[i])
  }

  lemma StepKeepsRange(o: Config, w: Worker, a: Action, w': Worker)
    requires o.minDiff <= o.Max() && RangeInv(o, w) && Step(o, w, a, w')
    ensures RangeInv(o, w')
  {
    hide NewDifficulty;
    if a.Locked? {
      LockedIsAllowed(o, w.ctx, EventOf(a.idle, w.locals[a.t].base, a.ts, a.now));
    }
  }

  lemma LockedIsAllowed(o: Config, c: Ctx, e: Event)
    requires o.minDiff <= o.Max() && InRange(o, e.base)
    ensures After(o, c, e).newDiff.Some? ==> Allowed(o, After(o, c, e).newDiff.value, e.base)
  {
    hide NewDifficulty, Average, Sum, PushBack;
    var waited := e.ts - c.lastTs.GetOr(if e.Idle? then c.created else 0.0);
    var avg := Average(Sum(Buffered(c)) + waited, |Buffered(c)|);
    if NewDifficulty(o, e.base, avg).Some? {
      NewDifficultyIsAllowed(o, e.base, avg);
    }
  }

  /** However updates, enqueuings and applications interleave, a difficulty that starts in range stays
      in range. */
  lemma {:induction false} DifficultyStaysInRange(o: Config, run: seq<Worker>, i: nat)
    requires o.minDiff <= o.Max() && Run(o, run) && InRange(o, run[0].difficulty) && i < |run|
    ensures RangeInv(o, run[i]) && InRange(o, run[i].difficulty)
  {
    hide Step;
    if i > 0 {
      DifficultyStaysInRange(o, run, i - 1);
      var a :| Step(o, run[i - 1], a, run[i]);
      StepKeepsRange(o, run[i - 1], a, run[i]);
    }
  }

  /** All samples and proposals are of the current difficulty. */
  predicate Fresh(w: Worker) {
    && (w.pending.Pending? ==> w.pending.base == w.difficulty)
    && forall t :: t in w.locals ==> w.locals[t].base == w.difficulty
  }

  /** Pending difficulties are only applied while no update is between its sample and its enqueuing. */
  predicate AppliedWhenQuiet(o: Config, run: seq<Worker>) {
    forall i :: 0 < i < |run| && run[i].difficulty != run[i - 1].difficulty ==> run[i - 1].locals == map[]
  }

  lemma StepKeepsFresh(o: Config, w: Worker, a: Action, w': Worker)
    requires Fresh(w) && Step(o, w, a, w') && (w'.difficulty != w.difficulty ==> w.locals == map[])
    ensures Fresh(w')
  {
    hide AfterIdle, AfterShare;
  }

  lemma {:induction false} QuietRunsAreFresh(o: Config, run: seq<Worker>, i: nat)
    requires Run(o, run) && AppliedWhenQuiet(o, run) && i < |run|
    ensures Fresh(run[i])
  {
    hide Step, Fresh;
    if i == 0 {
      assert Fresh(run[0]) by {
        NothingIsStale(run[0]);
      }
    } else {
      QuietRunsAreFresh(o, run, i - 1);
      var a :| Step(o, run[i - 1], a, run[i]);
      StepKeepsFresh(o, run[i - 1], a, run[i]);
    }
  }

  lemma NothingIsStale(w: Worker)
    requires w.pending == NoPending && w.locals == map[]
    ensures Fresh(w)
  {
  }

  /** The furthest a proposal computed from `base` can go, either way. */
  function Highest(o: Config, base: real): real
    requires o.Limited()
  {
    if base + o.maxDelta.value < o.Max() then base + o.maxDelta.value else o.Max()
  }

  function Lowest(o: Config, base: real): real
    requires o.Limited()
  {
    if base - o.maxDelta.value > o.minDiff then base - o.maxDelta.value else o.minDiff
  }

  predicate Near(o: Config, d: real, v: real)
    requires o.Limited()
  {
    d - o.maxDelta.value <= v <= d + o.maxDelta.value
  }

  /** All that a proposal from `base` can reach is within the allowed change of `d`. */
  predicate ReachIsNear(o: Config, base: real, d: real)
    requires o.Limited()
  {
    Highest(o, base) <= d + o.maxDelta.value && d - o.maxDelta.value <= Lowest(o, base)
  }

  /** In every run, however stale the sample of the pending difficulty is, applying it is a limited
      change unless a proposal from that sample can reach further. */
  lemma AppliedStepIsLimited(o: Config, run: seq<Worker>, i: nat)
    requires Run(o, run) && 0 < i < |run| && Step(o, run[i - 1], Apply, run[i])
    requires o.minDiff <= o.Max() && o.Limited() && InRange(o, run[0].difficulty)
    requires run[i - 1].pending.Pending?
    requires ReachIsNear(o, run[i - 1].pending.base, run[i - 1].difficulty)
    ensures run[i].previous == Some(run[i - 1].difficulty)
    ensures Near(o, run[i].previous.value, run[i].difficulty)
  {
    DifficultyStaysInRange(o, run, i - 1);
  }

  /** While no update is between its sample and its enqueuing, every applied step is limited. */
  lemma QuietStepIsLimited(o: Config, run: seq<Worker>, i: nat)
    requires Run(o, run) && AppliedWhenQuiet(o, run) && 0 < i < |run| && Step(o, run[i - 1], Apply, run[i])
    requires o.minDiff <= o.Max() && o.Limited() && InRange(o, run[0].difficulty)
    requires run[i - 1].pending.Pending?
    ensures run[i].previous == Some(run[i - 1].difficulty)
    ensures Near(o, run[i].previous.value, run[i].difficulty)
  {
    hide Run, AppliedWhenQuiet;
    DifficultyStaysInRange(o, run, i - 1);
    QuietRunsAreFresh(o, run, i - 1);
    AppliedStepIsLimited(o, run, i);
  }

  // --- Stale samples ---

  /** Every allowed change of `base` is proposed for some average. */
  lemma Reach(o: Config, base: real, v: real) returns (avg: real)
    requires o.Limited() && o.targetTime > 0.0 && base > 0.0 && v > 0.0
    requires Allowed(o, v, base) && v != base
    ensures avg == base * o.targetTime / v && avg > 0.0
    ensures NewDifficulty(o, base, avg) == Some(v)
  {
    hide Accepted;
    var n := base * o.targetTime;
    Positive(base, o.targetTime);
    avg := n / v;
    DivideBack(n, v);
    assert Proposal(o, base, avg) == Quotient(n, avg) == Finite(v);
    AllowedIsAccepted(o, base, v);
  }

  lemma Positive(a: real, b: real)
    requires a > 0.0 && b > 0.0
    ensures a * b > 0.0
  {
  }

  lemma DivideBack(n: real, v: real)
    requires n > 0.0 && v > 0.0
    ensures n / v > 0.0 && n / (n / v) == v
  {
  }

  lemma AllowedIsAccepted(o: Config, base: real, v: real)
    requires o.Limited() && Allowed(o, v, base) && v != base
    ensures Accepted(o, Finite(v), base) == Some(v)
  {
  }

  /** Every smaller average raises the difficulty as far as it goes. */
  lemma ReachHighest(o: Config, base: real, avg: real)
    requires o.Limited() && o.minDiff <= o.Max() && o.targetTime > 0.0 && base > 0.0 && InRange(o, base)
    requires Highest(o, base) > base
    requires 0.0 < avg <= base * o.targetTime / Highest(o, base)
    ensures NewDifficulty(o, base, avg) == Some(Highest(o, base))
  {
    hide Accepted, Highest;
    var n, hi := base * o.targetTime, Highest(o, base);
    Positive(base, o.targetTime);
    DivideSmaller(n, hi, avg);
    assert Proposal(o, base, avg) == Quotient(n, avg) == Finite(n / avg);
    BeyondHighest(o, base, n / avg);
  }

  lemma DivideSmaller(n: real, v: real, avg: real)
    requires n > 0.0 && v > 0.0 && 0.0 < avg <= n / v
    ensures n / avg >= v
  {
    assert avg * v <= n by {
      TimesOver(n, v, avg);
    }
    OverTimes(n, v, avg);
  }

  lemma TimesOver(n: real, v: real, avg: real)
    requires v > 0.0 && avg <= n / v
    ensures avg * v <= n
  {
  }

  lemma OverTimes(n: real, v: real, avg: real)
    requires avg > 0.0 && avg * v <= n
    ensures n / avg >= v
  {
  }

  lemma BeyondHighest(o: Config, base: real, p: real)
    requires o.Limited() && o.minDiff <= o.Max() && InRange(o, base) && p >= Highest(o, base) > base
    ensures Accepted(o, Finite(p), base) == Some(Highest(o, base))
  {
  }

  /** Applying a proposal computed from a stale `base` is a limited change of the difficulty `d` for
      every observed average exactly when all that is in reach of `base` is. */
  lemma StaleBaseExactly(o: Config, base: real, d: real)
    requires o.Limited() && 0.0 < o.minDiff <= o.Max() && o.targetTime > 0.0 && InRange(o, base) && InRange(o, d)
    ensures
      (forall avg :: NewDifficulty(o, base, avg).Some? ==> Near(o, d, NewDifficulty(o, base, avg).value))
      <==> ReachIsNear(o, base, d)
  {
    hide NewDifficulty;
    if ReachIsNear(o, base, d) {
      forall avg | NewDifficulty(o, base, avg).Some?
        ensures Near(o, d, NewDifficulty(o, base, avg).value)
      {
        NewDifficultyIsAllowed(o, base, avg);
      }
    } else {
      var v := FarProposal(o, base, d, o.Max());
      var avg := Reach(o, base, v);
    }
  }

  /** A proposal from `base` that is too far from `d`: as far up or down as `base` can go or, where
      it cannot go that way at all, less than `most` in the other direction. */
  lemma FarProposal(o: Config, base: real, d: real, most: real) returns (v: real)
    requires o.Limited() && o.minDiff <= o.Max() && InRange(o, base) && InRange(o, d) && !ReachIsNear(o, base, d)
    requires most > base || base == o.Max()
    ensures v != base && Allowed(o, v, base) && !Near(o, d, v)
    ensures v > base ==> v == Highest(o, base) || v < most
  {
    var hi, lo, above, below := Highest(o, base), Lowest(o, base), d + o.maxDelta.value, d - o.maxDelta.value;
    if hi > above {
      var floor := if lo > above then lo else above;
      v := if hi > base then hi else (floor + base) / 2.0;
    } else {
      var roof := if hi < below then hi else below;
      var ceiling := if roof < most then roof else most;
      v := if lo < base then lo else (ceiling + base) / 2.0;
    }
  }

  /** The steps of an update that changes the difficulty, from its locked section on. */
  lemma UpdateSteps(o: Config, w: Worker, t: ThreadId, e: Event) returns (run: seq<Worker>)
    requires t in w.locals && w.locals[t] == Sampled(e.base)
    requires After(o, w.ctx, e).newDiff.Some?
    ensures |run| == 4 && run[0] == w
    ensures Step(o, w, Locked(t, e.Idle?, e.ts, e.now), run[1])
    ensures Step(o, run[1], Enqueue(t), run[2])
    ensures Step(o, run[2], Apply, run[3])
    ensures run[3] == Worker(After(o, w.ctx, e).newDiff.value, Some(w.difficulty), NoPending,
                             After(o, w.ctx, e).ctx, w.locals - {t})
  {
    hide After;
    var out := After(o, w.ctx, e);
    var v, rest := out.newDiff.value, w.locals - {t};
    var proposing := w.(ctx := out.ctx, locals := w.locals[t := Proposing(v, e.base)]);
    assert proposing.locals - {t} == rest;
    run := [
      w,
      proposing,
      w.(ctx := out.ctx, pending := Pending(v, e.base), locals := rest),
      Worker(v, Some(w.difficulty), NoPending, out.ctx, rest)
    ];
  }

  /** A run that breaks the limit: a share and an idle sweep sample difficulty 50; the share raises it
      to 60 and is applied; the sweep, still working from 50, lowers it to 40. The limit is 10. */
  lemma StaleSampleOvershoots() returns (o: Config, run: seq<Worker>)
    ensures o.minDiff <= o.Max() && o.maxDelta == Some(10.0)
    ensures Run(o, run) && |run| == 9 && InRange(o, run[0].difficulty)
    ensures Step(o, run[2], Locked(0, false, 1.0, 1.0), run[3])
    ensures Step(o, run[5], Locked(1, true, 101.0, 101.0), run[6])
    ensures Step(o, run[7], Apply, run[8])
    ensures run[8].previous == Some(60.0) && run[8].difficulty == 40.0
  {
    hide After;
    o := EXAMPLE;
    var c0 := Ctx(Some(0.0), 0.0, None, None, 0.0);
    var c1 := Ctx(Some(1.0), 1.0, Some([]), Some(1.0), 0.0);
    var share, sweep := Share(50.0, 1.0, 1.0), Idle(50.0, 101.0, 101.0);
    var w0 := Worker(50.0, None, NoPending, c0, map[]);
    var w1 := w0.(locals := map[0 := Sampled(50.0)]);
    var w2 := w0.(locals := map[0 := Sampled(50.0), 1 := Sampled(50.0)]);
    ShareRaises(c0, c1);
    var first := UpdateSteps(o, w2, 0, share);
    SweepLowers(c1);
    assert first[3].locals == map[1 := Sampled(50.0)];
    var second := UpdateSteps(o, first[3], 1, sweep);
    run := [w0, w1] + first + second[1..];
    assert Step(o, run[0], Sample(0), run[1]);
    assert Step(o, run[1], Sample(1), run[2]);
    NextSteps(o, run, share, sweep);
  }

  const EXAMPLE: Config := Config(1.0, Some(100.0), Some(10.0), 10.0, 1.0, 0.0, 1000.0)

  lemma NextSteps(o: Config, run: seq<Worker>, share: Event, sweep: Event)
    requires |run| == 9 && run[0].pending == NoPending && run[0].locals == map[]
    requires Step(o, run[0], Sample(0), run[1]) && Step(o, run[1], Sample(1), run[2])
    requires Step(o, run[2], Locked(0, false, share.ts, share.now), run[3]) && Step(o, run[3], Enqueue(0), run[4])
    requires Step(o, run[4], Apply, run[5])
    requires Step(o, run[5], Locked(1, true, sweep.ts, sweep.now), run[6]) && Step(o, run[6], Enqueue(1), run[7])
    requires Step(o, run[7], Apply, run[8])
    ensures Run(o, run)
  {
    hide Step;
    forall i | 0 < i < |run|
      ensures Next(o, run[i - 1], run[i])
    {
      assert i == 1 || i == 2 || i == 3 || i == 4 || i == 5 || i == 6 || i == 7 || i == 8;
    }
  }

  lemma ShareRaises(c: Ctx, c': Ctx)
    requires c == Ctx(Some(0.0), 0.0, None, None, 0.0) && c' == Ctx(Some(1.0), 1.0, Some([]), Some(1.0), 0.0)
    ensures After(EXAMPLE, c, Share(50.0, 1.0, 1.0)) == Outcome(c', Some(60.0))
  {
    assert Average(Sum([]) + (1.0 - 0.0), 0) == 1.0;
    assert Proposal(EXAMPLE, 50.0, 1.0) == Finite(500.0);
  }

  lemma SweepLowers(c: Ctx)
    requires c == Ctx(Some(1.0), 1.0, Some([]), Some(1.0), 0.0)
    ensures After(EXAMPLE, c, Idle(50.0, 101.0, 101.0)).newDiff == Some(40.0)
  {
    assert Average(Sum([]) + (101.0 - 1.0), 0) == 100.0;
    assert Proposal(EXAMPLE, 50.0, 100.0) == Finite(5.0);
  }
}
