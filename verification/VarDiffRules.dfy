/** When an update changes the difficulty, and to what, in the terms of the settings: no other definition
    of the model is needed to read these statements than the fields of a context. */
module VarDiffRules {
  import opened VarDiff
  import opened VarDiffRuns
  import opened Wrappers

  // --- The value ---

  /** `w` is the point of the interval that is closest to `v`. */
  ghost predicate Closest(low: real, high: real, v: real, w: real) {
    low <= w <= high && forall u :: low <= u <= high ==> Distance(w, v) <= Distance(u, v)
  }

  function Distance(a: real, b: real): real { if a < b then b - a else a - b }

  /** The largest difficulty there is. */
  function Top(o: Config): real {
    if o.maxDiff.Some? then o.maxDiff.value else if o.minDiff > o.doubleMax then o.minDiff else o.doubleMax
  }

  /** A proposal is first brought within the limit of the difficulty that was read, if there is a limit, and
      then into the range, each time to the closest allowed value. If that leaves the difficulty as it was,
      there is no change. */
  lemma AcceptedIs(o: Config, v: real, base: real, near: real, w: real)
    requires o.minDiff <= Top(o)
    requires if o.maxDelta.Some? && o.maxDelta.value > 0.0 then
               Closest(base - o.maxDelta.value, base + o.maxDelta.value, v, near)
             else near == v
    requires Closest(o.minDiff, Top(o), near, w)
    ensures Accepted(o, Finite(v), base) == if w == base then None else Some(w)
  {
    if o.Limited() {
      ClosestIs(base - o.maxDelta.value, base + o.maxDelta.value, v, near);
    }
    ClosestIs(o.minDiff, Top(o), near, w);
  }

  lemma ClosestIs(low: real, high: real, v: real, w: real)
    requires Closest(low, high, v, w)
    ensures w == if v < low then low else if v > high then high else v
  {
    assert Distance(w, v) <= Distance(if v < low then low else if v > high then high else v, v);
  }

  /** There is always such a value. */
  lemma ClosestExists(low: real, high: real, v: real) returns (w: real)
    requires low <= high
    ensures Closest(low, high, v, w)
  {
    w := if v < low then low else if v > high then high else v;
  }

  // --- Shares ---

  /** The interval that ends with an update at `ts`, and the ones in the buffer before it. */
  function Observed(c: Ctx, ts: real): real { Sum(Buffered(c)) + (ts - c.lastTs.GetOr(c.created)) }

  /** The average time of those intervals. */
  ghost predicate IsAverage(c: Ctx, ts: real, avg: real) {
    avg * (|Buffered(c)| + 1) as real == Observed(c, ts)
  }

  lemma AverageIs(c: Ctx, ts: real, avg: real)
    requires IsAverage(c, ts, avg)
    ensures Average(Observed(c, ts), |Buffered(c)|) == avg
  {
    hide Observed;
    QuotientIs(Observed(c, ts), (|Buffered(c)| + 1) as real, avg);
  }

  lemma QuotientIs(n: real, d: real, q: real)
    requires d != 0.0 && q * d == n
    ensures n / d == q
  {
  }

  /** The share time is off by more than the allowed percentage. */
  predicate OffTarget(o: Config, avg: real) {
    || avg * 100.0 < o.targetTime * (100.0 - o.variancePercent)
    || avg * 100.0 > o.targetTime * (100.0 + o.variancePercent)
  }

  lemma OnTargetIs(o: Config, avg: real)
    ensures o.OnTarget(avg) <==> !OffTarget(o, avg)
  {
    var t, p := o.targetTime, o.variancePercent;
    var variance := t * (p / 100.0);
    assert variance * 100.0 == t * p;
    Spread(t, p);
  }

  lemma Spread(t: real, p: real)
    ensures t * (100.0 - p) == t * 100.0 - t * p && t * (100.0 + p) == t * 100.0 + t * p
  {
  }

  lemma ProposalIs(o: Config, base: real, avg: real, v: real)
    requires avg != 0.0 && v * avg == base * o.targetTime
    ensures Proposal(o, base, avg) == Finite(v)
  {
    QuotientIs(base * o.targetTime, avg, v);
  }

  /** A share after the retarget time changes the difficulty exactly when the average share time is off
      target and what that average calls for, limited and brought into the range, is another difficulty. */
  lemma ShareChangesExactly(o: Config, c: Ctx, base: real, ts: real, now: real, avg: real, v: real, near: real,
                            w: real)
    requires c.lastTs.Some? && ts - c.lastRetarget >= o.retargetTime && o.minDiff <= Top(o)
    requires IsAverage(c, ts, avg) && avg != 0.0 && v * avg == base * o.targetTime
    requires if o.maxDelta.Some? && o.maxDelta.value > 0.0 then
               Closest(base - o.maxDelta.value, base + o.maxDelta.value, v, near)
             else near == v
    requires Closest(o.minDiff, Top(o), near, w)
    ensures AfterShare(o, c, base, ts, now).newDiff == if OffTarget(o, avg) && w != base then Some(w) else None
  {
    hide Closest, Top, Average, Observed, OffTarget, Accepted, Proposal, PushBack, IsAverage, Config.OnTarget;
    AverageIs(c, ts, avg);
    ObservedIs(c, ts);
    OnTargetIs(o, avg);
    ProposalIs(o, base, avg, v);
    AcceptedIs(o, v, base, near, w);
  }

  lemma ObservedIs(c: Ctx, ts: real)
    requires c.lastTs.Some?
    ensures Observed(c, ts) == Sum(c.timeBuffer.GetOr([])) + (ts - c.lastTs.value)
  {
  }

  /** Without a limit, and with the proposal in range: to the difficulty at which the shares would have taken
      the target time. */
  lemma UnlimitedShareChangesExactly(o: Config, c: Ctx, base: real, ts: real, now: real, avg: real, v: real)
    requires c.lastTs.Some? && ts - c.lastRetarget >= o.retargetTime
    requires IsAverage(c, ts, avg) && avg > 0.0 && v * avg == base * o.targetTime
    requires (o.maxDelta.None? || o.maxDelta.value <= 0.0) && o.minDiff <= v <= Top(o) && v != base
    ensures AfterShare(o, c, base, ts, now).newDiff.Some? <==>
      || avg * 100.0 < o.targetTime * (100.0 - o.variancePercent)
      || avg * 100.0 > o.targetTime * (100.0 + o.variancePercent)
    ensures AfterShare(o, c, base, ts, now).newDiff.Some? ==> AfterShare(o, c, base, ts, now).newDiff == Some(v)
  {
    hide Average, Observed, AfterShare, IsAverage;
    ShareChangesExactly(o, c, base, ts, now, avg, v, v, v);
  }

  /** Before the retarget time is over no share changes the difficulty, and neither does the first. */
  lemma EarlyShareChangesNothing(o: Config, c: Ctx, base: real, ts: real, now: real)
    requires c.lastTs.None? || ts - c.lastRetarget < o.retargetTime
    ensures AfterShare(o, c, base, ts, now).newDiff == None
    ensures AfterShare(o, c, base, ts, now).ctx.lastTs == Some(ts)
    ensures AfterShare(o, c, base, ts, now).ctx.lastRetarget == if c.lastTs.None? then ts else c.lastRetarget
  {
    hide Average, PushBack, Config.OnTarget;
  }

  /** No time at all between the shares calls for an infinite difficulty: that is the largest one, unless
      there is a limit, which turns it into no change. */
  lemma InstantSharesExactly(o: Config, c: Ctx, base: real, ts: real, now: real)
    requires c.lastTs.Some? && ts - c.lastRetarget >= o.retargetTime
    requires Observed(c, ts) == 0.0 && base * o.targetTime > 0.0 && OffTarget(o, 0.0)
    ensures AfterShare(o, c, base, ts, now).newDiff
      == if (o.maxDelta.Some? && o.maxDelta.value > 0.0) || Top(o) == base then None else Some(Top(o))
  {
    hide Average, Observed, PushBack, Config.OnTarget, OffTarget;
    AverageIs(c, ts, 0.0);
    ObservedIs(c, ts);
    OnTargetIs(o, 0.0);
  }

  /** If nothing is asked for either, the proposal is no number, and nothing happens. */
  lemma InstantSharesAtNothing(o: Config, c: Ctx, base: real, ts: real, now: real)
    requires Observed(c, ts) == 0.0 && base * o.targetTime == 0.0
    ensures AfterShare(o, c, base, ts, now).newDiff == None && AfterIdle(o, c, base, ts, now).newDiff == None
  {
    hide Average, Observed, PushBack, Config.OnTarget;
    AverageIs(c, ts, 0.0);
    SweepObserves(c, ts);
  }

  // --- Idle sweeps ---

  /** A sweep changes the difficulty as soon as there has been no update for the retarget time less a second,
      whether the average is on target or not. */
  lemma SweepChangesExactly(o: Config, c: Ctx, base: real, ts: real, now: real, avg: real, v: real, near: real,
                            w: real)
    requires o.minDiff <= Top(o) && IsAverage(c, ts, avg) && avg != 0.0 && v * avg == base * o.targetTime
    requires if o.maxDelta.Some? && o.maxDelta.value > 0.0 then
               Closest(base - o.maxDelta.value, base + o.maxDelta.value, v, near)
             else near == v
    requires Closest(o.minDiff, Top(o), near, w)
    ensures AfterIdle(o, c, base, ts, now).newDiff
      == if ts - c.lastTs.GetOr(c.created) >= o.retargetTime - 1.0 && w != base then Some(w) else None
  {
    hide Closest, Top, Average, Accepted, Proposal, Observed, IsAverage;
    AverageIs(c, ts, avg);
    SweepObserves(c, ts);
    ProposalIs(o, base, avg, v);
    AcceptedIs(o, v, base, near, w);
  }

  lemma SweepObserves(c: Ctx, ts: real)
    ensures Observed(c, ts) == Sum(c.timeBuffer.GetOr([])) + (ts - c.lastTs.GetOr(c.created))
  {
  }

  /** A sweep that changes nothing but came late enough starts the waiting anew, and keeps the buffer. */
  lemma IdleSweepLeaves(o: Config, c: Ctx, base: real, ts: real, now: real)
    requires AfterIdle(o, c, base, ts, now).newDiff == None
    ensures AfterIdle(o, c, base, ts, now).ctx
      == if ts - c.lastTs.GetOr(c.created) >= o.retargetTime - 1.0 then c.(lastTs := Some(ts)) else c
  {
    hide NewDifficulty, Average;
  }

  /** A change of either kind starts a new period with an empty buffer. */
  lemma ChangeRestarts(o: Config, c: Ctx, e: Event)
    requires After(o, c, e).newDiff.Some?
    ensures var c' := After(o, c, e).ctx;
      c'.lastRetarget == e.ts && c'.lastTs == Some(e.ts) && c'.lastUpdate == Some(e.now) && Buffered(c') == []
  {
    hide NewDifficulty, Average, PushBack, Config.OnTarget;
  }

  // --- What the buffer spans ---

  /** Shares at the given times, none of which changes the difficulty, after a first one or a change. */
  ghost predicate Quiet(o: Config, cs: seq<Ctx>, times: seq<real>) {
    && |cs| == |times| > 0 && cs[0].lastTs == Some(times[0]) && Buffered(cs[0]) == []
    && forall i :: 0 < i < |cs| ==> QuietShare(o, cs[i - 1], times[i], cs[i])
  }

  ghost predicate QuietShare(o: Config, c: Ctx, ts: real, c': Ctx) {
    exists base, now :: AfterShare(o, c, base, ts, now) == Outcome(c', None)
  }

  lemma QuietShareIs(o: Config, c: Ctx, ts: real, c': Ctx)
    requires c.lastTs.Some? && QuietShare(o, c, ts, c')
    ensures c'.lastTs == Some(ts) && Buffered(c') == PushBack(Buffered(c), ts - c.lastTs.value)
    ensures c'.lastRetarget == c.lastRetarget
  {
    hide Average, PushBack, NewDifficulty, Config.OnTarget;
  }

  /** How many intervals are buffered after `i` shares. */
  function Kept(i: nat): nat { if i < 10 then i else 10 }

  /** The buffer holds the intervals between the last eleven shares, or between all there were. */
  lemma {:induction false} BufferHolds(o: Config, cs: seq<Ctx>, times: seq<real>, i: nat)
    requires Quiet(o, cs, times) && i < |cs|
    ensures cs[i].lastTs == Some(times[i]) && cs[i].lastRetarget == cs[0].lastRetarget
    ensures |Buffered(cs[i])| == Kept(i)
    ensures forall j :: 0 <= j < Kept(i) ==> Buffered(cs[i])[j] == times[i - Kept(i) + j + 1] - times[i - Kept(i) + j]
  {
    hide QuietShare;
    if i > 0 {
      BufferHolds(o, cs, times, i - 1);
      QuietShareIs(o, cs[i - 1], times[i], cs[i]);
    }
  }

  lemma {:induction false} SumSpans(s: seq<real>, times: seq<real>, from: nat)
    requires from + |s| < |times|
    requires forall j :: 0 <= j < |s| ==> s[j] == times[from + j + 1] - times[from + j]
    ensures Sum(s) == times[from + |s|] - times[from]
  {
    if s != [] {
      forall j | 0 <= j < |s[1..]|
        ensures s[1..][j] == times[from + 1 + j + 1] - times[from + 1 + j]
      {
        assert s[1..][j] == s[j + 1];
      }
      SumSpans(s[1..], times, from + 1);
    }
  }

  /** So the next update, of either kind, observes the time since the share eleven shares ago, or since the
      first, and divides it by the number of intervals in it. */
  lemma AverageSpans(o: Config, cs: seq<Ctx>, times: seq<real>, i: nat, ts: real, avg: real)
    requires Quiet(o, cs, times) && i < |cs|
    ensures IsAverage(cs[i], ts, avg) <==> avg * (Kept(i) + 1) as real == ts - times[i - Kept(i)]
  {
    hide QuietShare, Sum;
    BufferHolds(o, cs, times, i);
    SumSpans(Buffered(cs[i]), times, i - Kept(i));
  }
}
