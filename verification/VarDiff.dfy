/** Variable difficulty for one worker: the context that every submitted share and every idle sweep
    updates under its lock, and the deferred difficulty of the worker. Doubles are exact reals, with
    the infinities and NaN that dividing by a zero average produces. */
module VarDiff {
  import opened Wrappers

  // --- Doubles ---

  datatype Double = Finite(v: real) | PosInf | NegInf | NaN

  function Quotient(n: real, d: real): Double {
    if d != 0.0 then Finite(n / d) else if n > 0.0 then PosInf else if n < 0.0 then NegInf else NaN
  }

  function Minus(a: Double, b: Double): Double {
    match (a, b)
    case (Finite(x), Finite(y)) => Finite(x - y)
    case (NaN, _) => NaN
    case (_, NaN) => NaN
    case (Finite(_), PosInf) => NegInf
    case (Finite(_), NegInf) => PosInf
    case (PosInf, PosInf) => NaN
    case (NegInf, NegInf) => NaN
    case (PosInf, _) => PosInf
    case (NegInf, _) => NegInf
  }

  function Negate(a: Double): Double { Minus(Finite(0.0), a) }

  function AbsOf(a: Double): Double {
    match a
    case Finite(x) => Finite(if x < 0.0 then -x else x)
    case NaN => NaN
    case _ => PosInf
  }

  predicate Less(a: Double, b: Double) {
    match (a, b)
    case (Finite(x), Finite(y)) => x < y
    case (NaN, _) => false
    case (_, NaN) => false
    case (NegInf, _) => b != NegInf
    case (_, PosInf) => a != PosInf
    case _ => false
  }

  // --- Configuration and state ---

  const BUFFER_SIZE: nat := 10

  const SAFETY_MARGIN: real := 1.0

  datatype Config = Config(
    minDiff: real,
    maxDiff: Option<real>,
    maxDelta: Option<real>,
    targetTime: real,
    retargetTime: real,
    variancePercent: real,
    doubleMax: real)
  {
    /** Without a maximum, the largest double, or the minimum if that is larger. */
    function Max(): real {
      match maxDiff
      case Some(m) => m
      case None => if minDiff > doubleMax then minDiff else doubleMax
    }

    predicate Limited() { maxDelta.Some? && maxDelta.value > 0.0 }

    predicate OnTarget(avg: real) {
      var variance := targetTime * (variancePercent / 100.0);
      targetTime - variance <= avg <= targetTime + variance
    }
  }

  /** The fields of a context. `lastTs` and `timeBuffer` are unset until the first update. */
  datatype Ctx = Ctx(
    lastTs: Option<real>,
    lastRetarget: real,
    timeBuffer: Option<seq<real>>,
    lastUpdate: Option<real>,
    created: real)

  function Sum(s: seq<real>): real {
    if s == [] then 0.0 else s[0] + Sum(s[1..])
  }

  /** `PushBack` on a circular buffer: a full buffer loses its oldest element. */
  function PushBack(s: seq<real>, x: real): seq<real> {
    if |s| < BUFFER_SIZE then s + [x] else s[1..] + [x]
  }

  // --- What a retarget proposes ---

  function Clamp(o: Config, v: real): real {
    var atLeast := if v < o.minDiff then o.minDiff else v;
    if atLeast > o.Max() then o.Max() else atLeast
  }

  /** Keeps a proposal within the largest allowed change of `base`. */
  function LimitChange(o: Config, v: real, base: real): real {
    if !o.Limited() then v
    else if v > base + o.maxDelta.value then base + o.maxDelta.value
    else if v < base - o.maxDelta.value then base - o.maxDelta.value
    else v
  }

  function IfChanged(v: real, base: real): Option<real> {
    if v == base then None else Some(v)
  }

  /** What becomes of a proposal, if that is a change of `base`. An infinite proposal is clamped,
      but a change limit turns it into NaN first, and then nothing happens. */
  function Accepted(o: Config, proposal: Double, base: real): Option<real> {
    match proposal
    case Finite(v) => IfChanged(Clamp(o, LimitChange(o, v, base)), base)
    case NaN => None
    case PosInf => if o.Limited() then None else IfChanged(o.Max(), base)
    case NegInf => if o.Limited() then None else IfChanged(Clamp(o, o.minDiff), base)
  }

  /** The average over `n` buffered intervals and the one still running. */
  function Average(total: real, n: nat): real { total / (n + 1) as real }

  /** The difficulty at which shares would have taken the target time. */
  function Proposal(o: Config, base: real, avg: real): Double {
    Quotient(base * o.targetTime, avg)
  }

  /** The new difficulty after observing an average share time of `avg` at difficulty `base`. */
  function NewDifficulty(o: Config, base: real, avg: real): Option<real> {
    Accepted(o, Proposal(o, base, avg), base)
  }

  datatype Outcome = Outcome(ctx: Ctx, newDiff: Option<real>)

  /** A change restarts the retarget period and empties the buffer, if there is one. */
  function Retargeted(c: Ctx, newDiff: Option<real>, ts: real, now: real): Outcome {
    if newDiff.None? then Outcome(c, None)
    else
      Outcome(c.(lastRetarget := ts, lastUpdate := Some(now),
                 timeBuffer := if c.timeBuffer.Some? then Some([]) else None), newDiff)
  }

  /** The effect of a share at time `ts`, computed from difficulty `base`. */
  function AfterShare(o: Config, c: Ctx, base: real, ts: real, now: real): Outcome {
    match c.lastTs
    case None => Outcome(c.(lastRetarget := ts, lastTs := Some(ts)), None)
    case Some(last) =>
      var buffer := c.timeBuffer.GetOr([]);
      var avg := Average(Sum(buffer) + (ts - last), |buffer|);
      var seen := c.(timeBuffer := Some(PushBack(buffer, ts - last)), lastTs := Some(ts));
      if ts - c.lastRetarget < o.retargetTime || o.OnTarget(avg) then Outcome(seen, None)
      else Retargeted(seen, NewDifficulty(o, base, avg), ts, now)
  }

  /** The effect of an idle sweep that gets the lock. */
  function AfterIdle(o: Config, c: Ctx, base: real, ts: real, now: real): Outcome {
    var waited := ts - c.lastTs.GetOr(c.created);
    if waited + SAFETY_MARGIN < o.retargetTime then Outcome(c, None)
    else
      var buffer := c.timeBuffer.GetOr([]);
      var avg := Average(Sum(buffer) + waited, |buffer|);
      Retargeted(c.(lastTs := Some(ts)), NewDifficulty(o, base, avg), ts, now)
  }

  // --- The classes ---

  class VarDiffContext {
    var lastTs: Option<real>
    var lastRetarget: real
    var timeBuffer: Option<seq<real>>
    var lastUpdate: Option<real>
    const created: real

    function Value(): Ctx
      reads this
    {
      Ctx(lastTs, lastRetarget, timeBuffer, lastUpdate, created)
    }

    constructor (created: real)
      ensures Value() == Ctx(None, 0.0, None, None, created)
    {
      lastTs, lastRetarget, timeBuffer, lastUpdate := None, 0.0, None, None;
      this.created := created;
    }
  }

  class WorkerContextBase {
    var pendingDifficulty: Option<real>
    var difficulty: real
    var previousDifficulty: Option<real>
    const varDiff: VarDiffContext

    constructor (difficulty: real, created: real)
      ensures this.difficulty == difficulty && previousDifficulty == None && pendingDifficulty == None
      ensures fresh(varDiff) && varDiff.Value() == Ctx(None, 0.0, None, None, created)
    {
      pendingDifficulty, previousDifficulty := None, None;
      this.difficulty := difficulty;
      varDiff := new VarDiffContext(created);
    }

    method EnqueueNewDifficulty(newDifficulty: real)
      modifies `pendingDifficulty
      ensures pendingDifficulty == Some(newDifficulty)
    {
      pendingDifficulty := Some(newDifficulty);
    }

    /** The pending difficulty, if any, becomes the difficulty, and is used up. */
    method ApplyPendingDifficulty() returns (applied: bool)
      modifies this
      ensures applied <==> old(pendingDifficulty).Some?
      ensures pendingDifficulty == None
      ensures applied ==>
        difficulty == old(pendingDifficulty).value && previousDifficulty == Some(old(difficulty))
      ensures !applied ==> difficulty == old(difficulty) && previousDifficulty == old(previousDifficulty)
    {
      if pendingDifficulty.Some? {
        SetDifficulty(pendingDifficulty.value);
        pendingDifficulty := None;
        return true;
      }
      return false;
    }

    method SetDifficulty(newDifficulty: real)
      modifies `previousDifficulty, `difficulty
      ensures difficulty == newDifficulty && previousDifficulty == Some(old(difficulty))
    {
      previousDifficulty := Some(difficulty);
      difficulty := newDifficulty;
    }
  }

  /** What the change limit makes of a proposal, by arithmetic on doubles. */
  lemma LimitOfDouble(o: Config, p: Double, base: real)
    requires o.Limited()
    ensures var limit, current := Finite(o.maxDelta.value), Finite(base);
      var delta := AbsOf(Minus(p, current));
      (if !Less(limit, delta) then p
       else if Less(current, p) then Minus(p, Minus(delta, limit))
       else if Less(p, current) then Minus(p, Negate(Minus(delta, limit)))
       else p)
      == if p.Finite? then Finite(LimitChange(o, p.v, base)) else NaN
  {
  }

  /** What clamping makes of a double, and when that is a change. */
  lemma ClampOfDouble(o: Config, p: Double, base: real)
    ensures var raised := if Less(p, Finite(o.minDiff)) then Finite(o.minDiff) else p;
      var clamped := if Less(Finite(o.Max()), raised) then Finite(o.Max()) else raised;
      && clamped == (match p
           case Finite(v) => Finite(Clamp(o, v))
           case NaN => NaN
           case PosInf => Finite(o.Max())
           case NegInf => Finite(Clamp(o, o.minDiff)))
      && (!Less(clamped, Finite(base)) && !Less(Finite(base), clamped)
          <==> clamped == Finite(base) || clamped == NaN)
  {
  }

  /** Limits, clamps and, if that leaves a change, records it. */
  method TryApplyNewDiff(proposed: Double, oldDiff: real, minDiff: real, maxDiff: real, ts: real,
                         ctx: VarDiffContext, options: Config, now: real)
    returns (newDiff: Double, changed: bool)
    requires minDiff == options.minDiff && maxDiff == options.Max()
    modifies ctx
    ensures changed ==> newDiff.Finite?
    ensures Outcome(ctx.Value(), if changed then Some(newDiff.v) else None)
      == Retargeted(old(ctx.Value()), Accepted(options, proposed, oldDiff), ts, now)
  {
    hide Minus, Negate, AbsOf, Clamp, Less;
    newDiff := proposed;
    if options.Limited() {
      LimitOfDouble(options, proposed, oldDiff);
    }
    if options.maxDelta.Some? && options.maxDelta.value > 0.0 {
      var limit := Finite(options.maxDelta.value);
      var delta := AbsOf(Minus(newDiff, Finite(oldDiff)));
      if Less(limit, delta) {
        if Less(Finite(oldDiff), newDiff) {
          newDiff := Minus(newDiff, Minus(delta, limit));
        } else if Less(newDiff, Finite(oldDiff)) {
          newDiff := Minus(newDiff, Negate(Minus(delta, limit)));
        }
      }
    }
    ClampOfDouble(options, newDiff, oldDiff);
    if Less(newDiff, Finite(minDiff)) {
      newDiff := Finite(minDiff);
    }
    if Less(Finite(maxDiff), newDiff) {
      newDiff := Finite(maxDiff);
    }
    if !Less(newDiff, Finite(oldDiff)) && !Less(Finite(oldDiff), newDiff) {
      return newDiff, false;
    }
    ctx.lastRetarget := ts;
    ctx.lastUpdate := Some(now);
    if ctx.timeBuffer.Some? {
      ctx.timeBuffer := Some([]);
    }
    return newDiff, true;
  }

  /** A share was submitted: `difficulty` and `ts` were read before the lock was taken. */
  method Update(ctx: VarDiffContext, difficulty: real, options: Config, ts: real, now: real)
    returns (r: Option<real>)
    modifies ctx
    ensures Outcome(ctx.Value(), r) == AfterShare(options, old(ctx.Value()), difficulty, ts, now)
  {
    hide Accepted, Proposal, Average, Sum, PushBack;
    if ctx.lastTs.Some? {
      var minDiff, maxDiff := options.minDiff, options.Max();
      var timeDelta := ts - ctx.lastTs.value;
      if ctx.timeBuffer.None? {
        ctx.timeBuffer := Some([]);
      }
      var timeTotal := Sum(ctx.timeBuffer.value) + timeDelta;
      var avg := Average(timeTotal, |ctx.timeBuffer.value|);
      ctx.timeBuffer := Some(PushBack(ctx.timeBuffer.value, timeDelta));
      ctx.lastTs := Some(ts);
      var variance := options.targetTime * (options.variancePercent / 100.0);
      var tMin := options.targetTime - variance;
      var tMax := options.targetTime + variance;
      if ts - ctx.lastRetarget < options.retargetTime || (avg >= tMin && avg <= tMax) {
        return None;
      }
      var newDiff := Proposal(options, difficulty, avg);
      var changed;
      newDiff, changed := TryApplyNewDiff(newDiff, difficulty, minDiff, maxDiff, ts, ctx, options, now);
      if changed {
        return Some(newDiff.v);
      }
    } else {
      ctx.lastRetarget := ts;
      ctx.lastTs := Some(ts);
    }
    return None;
  }

  /** The idle sweep came by: it gives up if it cannot get the lock at once. */
  method IdleUpdate(ctx: VarDiffContext, difficulty: real, options: Config, entered: bool, ts: real, now: real)
    returns (r: Option<real>)
    modifies ctx
    ensures Outcome(ctx.Value(), r)
      == if entered then AfterIdle(options, old(ctx.Value()), difficulty, ts, now)
         else Outcome(old(ctx.Value()), None)
  {
    hide Accepted, Proposal, Average;
    if !entered {
      return None;
    }
    var timeDelta;
    if ctx.lastTs.Some? {
      timeDelta := ts - ctx.lastTs.value;
    } else {
      timeDelta := ts - ctx.created;
    }
    timeDelta := timeDelta + SAFETY_MARGIN;
    if timeDelta < options.retargetTime {
      return None;
    }
    ctx.lastTs := Some(ts);
    var minDiff, maxDiff := options.minDiff, options.Max();
    var timeTotal := (if ctx.timeBuffer.Some? then Sum(ctx.timeBuffer.value) else 0.0) + (timeDelta - SAFETY_MARGIN);
    var avg := Average(timeTotal, if ctx.timeBuffer.Some? then |ctx.timeBuffer.value| else 0);
    var newDiff := Proposal(options, difficulty, avg);
    var changed;
    newDiff, changed := TryApplyNewDiff(newDiff, difficulty, minDiff, maxDiff, ts, ctx, options, now);
    if changed {
      return Some(newDiff.v);
    }
    return None;
  }
}
