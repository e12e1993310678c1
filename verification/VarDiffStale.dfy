/** When a change of the difficulty that was computed from a stale sample can exceed the limit: for which
    pairs of difficulties there is an execution, from a new worker on, in which it does. */
module VarDiffStale {
  import opened VarDiff
  import opened VarDiffRuns
  import opened Wrappers

  // --- Executions ---

  /** The time of the last locked section. */
  function Clock(acts: seq<Action>): real {
    if acts == [] then 0.0
    else
      var a := acts[|acts| - 1];
      if a.Locked? then a.ts else Clock(acts[..|acts| - 1])
  }

  ghost predicate IsNew(w: Worker) {
    && w.previous == None && w.pending == NoPending && w.locals == map[]
    && w.ctx == Ctx(None, 0.0, None, None, w.ctx.created)
  }

  predicate Happens(o: Config, run: seq<Worker>, acts: seq<Action>, i: nat)
    requires i < |acts| && |run| == |acts| + 1
  {
    Step(o, run[i], acts[i], run[i + 1]) && (acts[i].Locked? ==> acts[i].ts >= Clock(acts[..i]))
  }

  /** A new worker, and what happens to it; time does not run backwards. */
  ghost predicate Execution(o: Config, run: seq<Worker>, acts: seq<Action>) {
    && |run| == |acts| + 1 && IsNew(run[0]) && InRange(o, run[0].difficulty)
    && forall i: nat :: i < |acts| ==> Happens(o, run, acts, i)
  }

  lemma ExecutionIsRun(o: Config, run: seq<Worker>, acts: seq<Action>)
    requires Execution(o, run, acts)
    ensures Run(o, run)
  {
    hide Step;
    forall i | 0 < i < |run|
      ensures Next(o, run[i - 1], run[i])
    {
      assert Happens(o, run, acts, i - 1);
    }
  }

  /** The last step applies a difficulty that was computed from the sample `base`; it replaces `d`, and
      changes it by more than is allowed. */
  ghost predicate StaleStep(o: Config, base: real, d: real, run: seq<Worker>, acts: seq<Action>)
    requires o.Limited()
  {
    && Execution(o, run, acts) && |acts| > 0
    && var w := run[|acts| - 1];
       && acts[|acts| - 1] == Apply && w.pending.Pending? && w.pending.base == base && w.difficulty == d
       && !Near(o, d, run[|acts|].difficulty)
  }

  // --- Building executions ---

  datatype History = History(run: seq<Worker>, acts: seq<Action>) {
    function Now(): Worker
      requires |run| > 0
    {
      run[|run| - 1]
    }
  }

  ghost predicate Ok(o: Config, h: History)
    ensures Ok(o, h) ==> |h.run| == |h.acts| + 1
  {
    Execution(o, h.run, h.acts)
  }

  lemma Extend(o: Config, h: History, a: Action, w: Worker) returns (h': History)
    requires Ok(o, h) && Step(o, h.Now(), a, w) && (a.Locked? ==> a.ts >= Clock(h.acts))
    ensures Ok(o, h') && h' == History(h.run + [w], h.acts + [a])
    ensures Clock(h'.acts) == if a.Locked? then a.ts else Clock(h.acts)
  {
    hide Step;
    h' := History(h.run + [w], h.acts + [a]);
    assert h'.acts[..|h.acts|] == h.acts;
    forall i: nat | i < |h'.acts|
      ensures Happens(o, h'.run, h'.acts, i)
    {
      if i < |h.acts| {
        assert Happens(o, h.run, h.acts, i);
        assert h'.acts[..i] == h.acts[..i];
      }
    }
  }

  /** A share of thread `t` that changes nothing but the context. */
  lemma QuietShare(o: Config, h: History, t: ThreadId, ts: real, c: Ctx) returns (h': History)
    requires Ok(o, h) && t !in h.Now().locals && ts >= Clock(h.acts)
    requires AfterShare(o, h.Now().ctx, h.Now().difficulty, ts, ts) == Outcome(c, None)
    ensures Ok(o, h') && h'.Now() == h.Now().(ctx := c) && Clock(h'.acts) == ts
  {
    hide AfterShare, Execution;
    var w := h.Now();
    var sampled := w.(locals := w.locals[t := Sampled(w.difficulty)]);
    h' := Extend(o, h, Sample(t), sampled);
    assert sampled.locals - {t} == w.locals;
    h' := Extend(o, h', Locked(t, false, ts, ts), w.(ctx := c));
  }

  // --- Observing any average ---

  function Zeros(n: nat): (s: seq<real>)
    ensures |s| == n && NonNegative(s)
  {
    seq(n, _ => 0.0)
  }

  lemma {:induction false} SumOfZeros(n: nat)
    ensures Sum(Zeros(n)) == 0.0
  {
    if n > 0 {
      SumOfZeros(n - 1);
      assert Zeros(n)[1..] == Zeros(n - 1);
    }
  }

  /** Just after the first share, or after a change of the difficulty. */
  predicate Settled(c: Ctx) {
    c.lastTs == Some(c.lastRetarget) && Buffered(c) == [] && c.lastRetarget >= 0.0
  }

  /** The buffer after an interval of `gap` and `k` of zero. */
  function Pauses(gap: real, k: nat): seq<real> {
    if k < BUFFER_SIZE then [gap] + Zeros(k) else Zeros(BUFFER_SIZE)
  }

  /** `gap` after the last change there was a share, followed at once by `k` more. */
  predicate Paused(c: Ctx, r: real, gap: real, k: nat) {
    c.lastRetarget == r && c.lastTs == Some(r + gap) && c.timeBuffer == Some(Pauses(gap, k))
  }

  lemma MorePauses(gap: real, k: nat)
    requires k < BUFFER_SIZE
    ensures PushBack(Pauses(gap, k), 0.0) == Pauses(gap, k + 1)
  {
    assert Zeros(k) + [0.0] == Zeros(k + 1);
    if k + 1 == BUFFER_SIZE {
      assert Pauses(gap, k)[1..] == Zeros(k);
    }
  }

  lemma NoAverage(o: Config, base: real)
    requires o.Limited() && o.targetTime > 0.0 && base > 0.0
    ensures NewDifficulty(o, base, 0.0) == None
  {
    Positive(base, o.targetTime);
  }

  lemma SumOfPauses(k: nat)
    requires k < BUFFER_SIZE
    ensures Sum(Pauses(0.0, k)) == 0.0
  {
    assert Pauses(0.0, k) == Zeros(k + 1);
    SumOfZeros(k + 1);
  }

  /** A share before the retarget time is over, or at the very moment of a change, changes nothing. */
  lemma FirstPause(o: Config, c: Ctx, base: real, gap: real) returns (c': Ctx)
    requires o.Limited() && o.targetTime > 0.0 && base > 0.0 && Settled(c)
    requires gap == 0.0 || 0.0 < gap < o.retargetTime
    ensures var ts := c.lastRetarget + gap; AfterShare(o, c, base, ts, ts) == Outcome(c', None)
    ensures Paused(c', c.lastRetarget, gap, 0)
  {
    hide NewDifficulty;
    c' := c.(timeBuffer := Some([gap]), lastTs := Some(c.lastRetarget + gap));
    NoAverage(o, base);
    SumOfNone();
    assert Average(Sum([]) + gap, 0) == gap;
    assert PushBack([], gap) == [gap] == Pauses(gap, 0);
  }

  lemma NextPause(o: Config, c: Ctx, base: real, r: real, gap: real, k: nat) returns (c': Ctx)
    requires o.Limited() && o.targetTime > 0.0 && base > 0.0 && Paused(c, r, gap, k) && k < BUFFER_SIZE
    requires gap == 0.0 || 0.0 < gap < o.retargetTime
    ensures AfterShare(o, c, base, r + gap, r + gap) == Outcome(c', None)
    ensures Paused(c', r, gap, k + 1)
  {
    hide NewDifficulty, Pauses, PushBack, Sum;
    c' := c.(timeBuffer := Some(Pauses(gap, k + 1)), lastTs := Some(r + gap));
    MorePauses(gap, k);
    NoAverage(o, base);
    if gap == 0.0 {
      SumOfPauses(k);
    }
  }

  /** `k` shares at once, `gap` after the last change. */
  lemma {:induction false} Pause(o: Config, h: History, t: ThreadId, r: real, gap: real, k: nat)
    returns (h': History)
    requires o.Limited() && o.targetTime > 0.0 && k <= BUFFER_SIZE
    requires Ok(o, h) && h.Now().difficulty > 0.0 && t !in h.Now().locals
    requires Settled(h.Now().ctx) && h.Now().ctx.lastRetarget == r
    requires Clock(h.acts) <= r && (gap == 0.0 || 0.0 < gap < o.retargetTime)
    ensures Ok(o, h') && h'.Now() == h.Now().(ctx := h'.Now().ctx)
    ensures Paused(h'.Now().ctx, r, gap, k) && Clock(h'.acts) == r + gap
    decreases k
  {
    hide AfterShare, Ok, Settled, Paused;
    if k == 0 {
      var c := FirstPause(o, h.Now().ctx, h.Now().difficulty, gap);
      h' := QuietShare(o, h, t, r + gap, c);
    } else {
      h' := Pause(o, h, t, r, gap, k - 1);
      var c := NextPause(o, h'.Now().ctx, h.Now().difficulty, r, gap, k - 1);
      h' := QuietShare(o, h', t, r + gap, c);
    }
  }

  /** What an update observes after the buffer was filled with zeros. */
  lemma Observes(o: Config, c: Ctx, r: real, gap: real, e: Event, avg: real)
    requires Paused(c, r, gap, BUFFER_SIZE) && r >= 0.0 && gap >= 0.0 && avg > 0.0 && e.ts == r + gap + 11.0 * avg
    requires if e.Share? then gap + 11.0 * avg >= o.retargetTime && !o.OnTarget(avg)
             else 11.0 * avg >= o.retargetTime - SAFETY_MARGIN
    requires NewDifficulty(o, e.base, avg).Some?
    ensures After(o, c, e).newDiff == NewDifficulty(o, e.base, avg)
    ensures Settled(After(o, c, e).ctx) && After(o, c, e).ctx.lastRetarget == e.ts
  {
    hide NewDifficulty, PushBack, Sum;
    SumOfZeros(BUFFER_SIZE);
    assert Average(0.0 + 11.0 * avg, BUFFER_SIZE) == avg;
  }

  // --- Proposals ---

  /** Settings under which updates can observe averages on both sides of the target. */
  predicate Reasonable(o: Config) {
    && 0.0 < o.minDiff <= o.Max() && o.targetTime > 0.0 && o.variancePercent < 100.0
    && o.retargetTime - SAFETY_MARGIN < 11.0 * o.targetTime
  }

  /** An average of at most `avg`, so short that it is not on target. */
  lemma ShortAverage(o: Config, avg: real) returns (short: real)
    requires o.targetTime > 0.0 && o.variancePercent < 100.0 && avg > 0.0
    ensures 0.0 < short <= avg && !o.OnTarget(short)
  {
    var share := 1.0 - o.variancePercent / 100.0;
    Positive(o.targetTime, share);
    var least := o.targetTime * share;
    assert least == o.targetTime - o.targetTime * (o.variancePercent / 100.0);
    short := if avg < least / 2.0 then avg else least / 2.0;
  }

  /** Proposals below this are made by sweeps: those observe at least an eleventh of the retarget time
      less the margin. */
  function MostSwept(o: Config, base: real): real {
    var late := o.retargetTime - SAFETY_MARGIN;
    if late > 0.0 then 11.0 * (base * o.targetTime) / late else base + o.Max()
  }

  lemma SweptAverage(o: Config, base: real, v: real)
    requires o.targetTime > 0.0 && 0.0 < base && 0.0 < v < MostSwept(o, base)
    ensures 11.0 * (base * o.targetTime / v) >= o.retargetTime - SAFETY_MARGIN
  {
    var late, n := o.retargetTime - SAFETY_MARGIN, base * o.targetTime;
    Positive(base, o.targetTime);
    DivideBack(n, v);
    if late > 0.0 {
      TimesOver(11.0 * n, late, v);
      OverTimes(11.0 * n, late, v);
    }
  }

  lemma MoreThanBase(o: Config, base: real)
    requires Reasonable(o) && InRange(o, base)
    ensures MostSwept(o, base) > base
  {
    var late := o.retargetTime - SAFETY_MARGIN;
    if late > 0.0 {
      Positive(base, 11.0 * o.targetTime - late);
      assert base * late < 11.0 * (base * o.targetTime);
      MoreThanOver(11.0 * (base * o.targetTime), late, base);
    }
  }

  lemma MoreThanOver(n: real, v: real, x: real)
    requires v > 0.0 && x * v < n
    ensures n / v > x
  {
  }

  /** How an update comes to propose `v`: the wait before the shares that fill the buffer, and the average
      observed. */
  lemma Observation(o: Config, base: real, v: real) returns (share: bool, gap: real, avg: real)
    requires o.Limited() && Reasonable(o) && InRange(o, base) && v != base && Allowed(o, v, base)
    requires v == Highest(o, base) > base || v < MostSwept(o, base)
    ensures avg > 0.0 && NewDifficulty(o, base, avg) == Some(v)
    ensures gap == 0.0 || 0.0 < gap < o.retargetTime
    ensures if share then gap + 11.0 * avg >= o.retargetTime && !o.OnTarget(avg)
            else 11.0 * avg >= o.retargetTime - SAFETY_MARGIN
  {
    hide NewDifficulty, Highest, MostSwept;
    share, gap := false, 0.0;
    avg := Reach(o, base, v);
    if v == Highest(o, base) > base {
      avg := ShortAverage(o, avg);
      ReachHighest(o, base, avg);
      share := true;
      if 11.0 * avg < o.retargetTime {
        gap := o.retargetTime - 11.0 * avg;
      }
    } else {
      SweptAverage(o, base, v);
    }
  }

  /** The worker after thread `t` has proposed `v` and that was applied. */
  predicate Changed(w: Worker, t: ThreadId, v: real, w': Worker) {
    && w'.difficulty == v && w'.previous == Some(w.difficulty) && w'.pending == NoPending
    && w'.locals == w.locals - {t} && Settled(w'.ctx)
  }

  /** Thread `t` proposes `v` from its sample, and that is applied. */
  lemma Propose(o: Config, h: History, t: ThreadId, filler: ThreadId, base: real, v: real)
    returns (h': History)
    requires o.Limited() && Reasonable(o) && InRange(o, base) && v != base && Allowed(o, v, base)
    requires v == Highest(o, base) > base || v < MostSwept(o, base)
    requires Ok(o, h) && filler !in h.Now().locals && h.Now().difficulty > 0.0
    requires t in h.Now().locals && h.Now().locals[t] == Sampled(base)
    requires Settled(h.Now().ctx) && Clock(h.acts) <= h.Now().ctx.lastRetarget
    ensures Ok(o, h') && Changed(h.Now(), t, v, h'.Now())
    ensures Clock(h'.acts) <= h'.Now().ctx.lastRetarget
    ensures |h'.acts| > 0 && h'.acts[|h'.acts| - 1] == Apply && |h'.run| == |h'.acts| + 1
    ensures var w := h'.run[|h'.acts| - 1]; w.difficulty == h.Now().difficulty && w.pending == Pending(v, base)
  {
    hide Reasonable, Highest, MostSwept, Execution, After, Allowed, NewDifficulty, Paused, Config.OnTarget;
    var r, w := h.Now().ctx.lastRetarget, h.Now();
    var share, gap, avg := Observation(o, base, v);
    assert o.targetTime > 0.0 by {
      TargetIsPositive(o);
    }
    h' := Pause(o, h, filler, r, gap, BUFFER_SIZE);
    var ts := r + gap + 11.0 * avg;
    var e := EventOf(!share, base, ts, ts);
    Observes(o, h'.Now().ctx, r, gap, e, avg);
    var run := UpdateSteps(o, h'.Now(), t, e);
    h' := Extend(o, h', Locked(t, !share, ts, ts), run[1]);
    h' := Extend(o, h', Enqueue(t), run[2]);
    h' := Extend(o, h', Apply, run[3]);
  }

  lemma TargetIsPositive(o: Config)
    requires Reasonable(o)
    ensures o.targetTime > 0.0 && 0.0 < o.minDiff <= o.Max()
  {
  }

  // --- From any difficulty to any other ---

  /** A whole update of thread 1 that changes the difficulty to `v` and is applied. */
  lemma Move(o: Config, h: History, v: real) returns (h': History)
    requires o.Limited() && Reasonable(o) && Ok(o, h) && Ready(h) && InRange(o, h.Now().difficulty)
    requires v != h.Now().difficulty && Allowed(o, v, h.Now().difficulty)
    requires v == Highest(o, h.Now().difficulty) > h.Now().difficulty || v < MostSwept(o, h.Now().difficulty)
    ensures Ok(o, h') && Ready(h') && h'.Now().difficulty == v && h'.Now().locals == h.Now().locals
  {
    hide Reasonable, Highest, MostSwept, Execution, Allowed;
    TargetIsPositive(o);
    var w := h.Now();
    var sampled := w.(locals := w.locals[1 := Sampled(w.difficulty)]);
    h' := Extend(o, h, Sample(1), sampled);
    h' := Propose(o, h', 1, 2, w.difficulty, v);
    assert sampled.locals - {1} == w.locals;
  }

  /** Threads 1 and 2 are free, and the last change was the last thing that happened. */
  predicate Ready(h: History)
    requires h.run != []
  {
    && 1 !in h.Now().locals && 2 !in h.Now().locals && h.Now().pending == NoPending
    && Settled(h.Now().ctx) && Clock(h.acts) <= h.Now().ctx.lastRetarget
  }

  /** Upwards first as far as it goes, and then down. */
  lemma MoveNear(o: Config, h: History, d: real) returns (h': History)
    requires o.Limited() && Reasonable(o) && InRange(o, d)
    requires Ok(o, h) && Ready(h) && InRange(o, h.Now().difficulty) && Near(o, h.Now().difficulty, d)
    ensures Ok(o, h') && Ready(h') && h'.Now().difficulty == d && h'.Now().locals == h.Now().locals
  {
    hide Reasonable, Execution, MostSwept, Ready;
    TargetIsPositive(o);
    h' := h;
    if d > h.Now().difficulty {
      h' := Move(o, h, Highest(o, h.Now().difficulty));
    }
    if d < h'.Now().difficulty {
      MoreThanBase(o, h'.Now().difficulty);
      h' := Move(o, h', d);
    }
  }

  /** In `n` changes and one more of at most the limit every difficulty is reached. */
  lemma {:induction false} MoveTo(o: Config, h: History, d: real, n: nat, reach: real) returns (h': History)
    requires o.Limited() && Reasonable(o) && InRange(o, d) && reach == n as real * o.maxDelta.value
    requires Ok(o, h) && Ready(h) && InRange(o, h.Now().difficulty)
    requires h.Now().difficulty - reach <= d <= h.Now().difficulty + reach
    ensures Ok(o, h') && Ready(h') && h'.Now().difficulty == d && h'.Now().locals == h.Now().locals
    decreases n
  {
    hide Reasonable, Execution, MostSwept, Ready;
    var x, limit := h.Now().difficulty, o.maxDelta.value;
    if Near(o, x, d) {
      h' := MoveNear(o, h, d);
    } else {
      Fewer(n, limit, reach);
      h' := MoveNear(o, h, if d < x then x - limit else x + limit);
      h' := MoveTo(o, h', d, n - 1, reach - limit);
    }
  }

  lemma Fewer(n: nat, limit: real, reach: real)
    requires reach == n as real * limit && reach > limit > 0.0
    ensures n > 0 && reach - limit == (n - 1) as real * limit
  {
  }

  lemma Enough(distance: real, limit: real) returns (n: nat)
    requires distance >= 0.0 && limit > 0.0
    ensures distance <= n as real * limit
  {
    var q := distance / limit;
    n := q.Floor + 1;
    TimesOver(distance, limit, q);
    WithinSteps(q, n as real, limit);
    assert q * limit == distance;
  }

  lemma WithinSteps(q: real, n: real, limit: real)
    requires q <= n && limit > 0.0
    ensures q * limit <= n * limit
  {
  }

  /** A new worker after its first share. */
  lemma FirstShare(o: Config, base: real) returns (h: History)
    requires InRange(o, base)
    ensures Ok(o, h) && Ready(h) && h.Now().difficulty == base && h.Now().locals == map[]
  {
    var w := Worker(base, None, NoPending, Ctx(None, 0.0, None, None, 0.0), map[]);
    h := History([w], []);
    h := QuietShare(o, h, 2, 0.0, Ctx(Some(0.0), 0.0, None, None, 0.0));
  }

  // --- The exact condition ---

  /** Some execution of a new worker applies a difficulty computed from the sample `base` in place of `d`,
      and changes it by more than is allowed, exactly when a proposal from `base` can reach that far from
      `d`. */
  lemma StaleStepsExactly(o: Config, base: real, d: real)
    requires o.Limited() && Reasonable(o) && InRange(o, base) && InRange(o, d)
    ensures (exists run, acts :: StaleStep(o, base, d, run, acts)) <==> !ReachIsNear(o, base, d)
  {
    hide Reasonable, StaleStep;
    if ReachIsNear(o, base, d) {
      forall run, acts
        ensures !StaleStep(o, base, d, run, acts)
      {
        if StaleStep(o, base, d, run, acts) {
          StaleReachesFar(o, base, d, run, acts);
        }
      }
    } else {
      var h := Overshoot(o, base, d);
    }
  }

  lemma StaleReachesFar(o: Config, base: real, d: real, run: seq<Worker>, acts: seq<Action>)
    requires o.Limited() && Reasonable(o) && StaleStep(o, base, d, run, acts)
    ensures !ReachIsNear(o, base, d)
  {
    hide Reasonable, ReachIsNear, Run;
    TargetIsPositive(o);
    ExecutionIsRun(o, run, acts);
    assert Happens(o, run, acts, |acts| - 1);
    if ReachIsNear(o, base, d) {
      AppliedStepIsLimited(o, run, |acts|);
    }
  }

  /** Thread 0 samples the difficulty at the beginning and is applied at the end. */
  lemma Overshoot(o: Config, base: real, d: real) returns (h: History)
    requires o.Limited() && Reasonable(o) && InRange(o, base) && InRange(o, d) && !ReachIsNear(o, base, d)
    ensures StaleStep(o, base, d, h.run, h.acts)
  {
    hide Reasonable, Execution, ReachIsNear, Highest, MostSwept, Allowed;
    TargetIsPositive(o);
    h := FirstShare(o, base);
    var sampled := h.Now().(locals := map[0 := Sampled(base)]);
    h := Extend(o, h, Sample(0), sampled);
    var n := Enough(if d < base then base - d else d - base, o.maxDelta.value);
    h := MoveTo(o, h, d, n, n as real * o.maxDelta.value);
    MoreThanBase(o, base);
    var v := FarProposal(o, base, d, MostSwept(o, base));
    h := Propose(o, h, 0, 2, base, v);
  }
}
