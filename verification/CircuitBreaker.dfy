/**
 The circuit breaker in front of the origin (internal/edgeagent/fetcher.go), each call atomic.
 */
module CircuitBreaker {
  const CLOSING_SUCCESSES := 3
  const INT32_MAX: int := 0x7fff_ffff

  datatype State = Closed | Open | HalfOpen
  datatype Breaker = Breaker(state: State, failures: int, successes: int, lastFailure: int)

  const Initial: Breaker := Breaker(Closed, 0, 0, 0)

  type int32 = x: int | -INT32_MAX - 1 <= x <= INT32_MAX

  datatype Config = Config(threshold: int32, recovery: int)

  datatype Event =
    | Allow(now: int)
    | Failure(now: int)
    | Success

  function Wrap32(n: int): int {
    (n + INT32_MAX + 1) % 0x1_0000_0000 - INT32_MAX - 1
  }

  predicate Admits(b: Breaker, cfg: Config, now: int) {
    b.state != Open || now - b.lastFailure >= cfg.recovery
  }

  function Next(b: Breaker, cfg: Config, e: Event): Breaker {
    match e
    case Allow(now) =>
      if b.state == Open && Admits(b, cfg, now) then b.(state := HalfOpen, successes := 0) else b
    case Failure(now) =>
      var failures := Wrap32(b.failures + 1);
      b.(failures := failures, lastFailure := now, state := if failures >= cfg.threshold then Open else b.state)
    case Success =>
      match b.state
      case Closed => b.(failures := 0)
      case Open => b
      case HalfOpen =>
        var successes := Wrap32(b.successes + 1);
        if successes >= CLOSING_SUCCESSES then Breaker(Closed, 0, successes, b.lastFailure)
        else b.(successes := successes)
  }

  class CircuitBreaker {
    const cfg: Config
    var b: Breaker

    constructor (cfg: Config)
      ensures this.cfg == cfg && b == Initial
    {
      this.cfg := cfg;
      b := Initial;
    }

    method Allow(now: int) returns (ok: bool)
      modifies this
      ensures ok <==> Admits(old(b), cfg, now)
      ensures b == Next(old(b), cfg, Event.Allow(now))
    {
      if b.state == Closed {
        return true;
      }
      if b.state == Open {
        if now - b.lastFailure >= cfg.recovery {
          b := b.(state := HalfOpen, successes := 0);
          return true;
        }
        return false;
      }
      return true;
    }

    method RecordFailure(now: int)
      modifies this
      ensures b == Next(old(b), cfg, Failure(now))
    {
      b := b.(failures := Wrap32(b.failures + 1), lastFailure := now);
      if b.failures >= cfg.threshold {
        b := b.(state := Open);
      }
    }

    method RecordSuccess()
      modifies this
      ensures b == Next(old(b), cfg, Success)
    {
      if b.state == HalfOpen {
        b := b.(successes := Wrap32(b.successes + 1));
        if b.successes >= CLOSING_SUCCESSES {
          b := b.(state := Closed, failures := 0);
        }
      } else if b.state == Closed {
        b := b.(failures := 0);
      }
    }
  }

  function After(cfg: Config, trace: seq<Event>): Breaker {
    if trace == [] then Initial else Next(After(cfg, trace[..|trace| - 1]), cfg, trace[|trace| - 1])
  }

  function StateOf(cfg: Config, trace: seq<Event>): State {
    After(cfg, trace).state
  }

  // ---------- What a trace says, without the breaker's counters ----------

  // Failures since the last success anywhere in the trace.
  function Streak(trace: seq<Event>): nat {
    if trace == [] then 0
    else
      match trace[|trace| - 1]
      case Success => 0
      case Failure(_) => 1 + Streak(trace[..|trace| - 1])
      case Allow(_) => Streak(trace[..|trace| - 1])
  }

  // The time of the last failure, zero before any.
  function LastFailure(trace: seq<Event>): int {
    if trace == [] then 0
    else if trace[|trace| - 1].Failure? then trace[|trace| - 1].now
    else LastFailure(trace[..|trace| - 1])
  }

  // Failures since the counter was last at zero: since a success after which the breaker is closed.
  function Since(cfg: Config, trace: seq<Event>): nat {
    if trace == [] then 0
    else
      match trace[|trace| - 1]
      case Success => if StateOf(cfg, trace) == Closed then 0 else Since(cfg, trace[..|trace| - 1])
      case Failure(_) => 1 + Since(cfg, trace[..|trace| - 1])
      case Allow(_) => Since(cfg, trace[..|trace| - 1])
  }

  // At no time were there more of them than an int32 counts.
  predicate NoOverflow(cfg: Config, trace: seq<Event>) {
    trace == [] || (NoOverflow(cfg, trace[..|trace| - 1]) && Since(cfg, trace) <= INT32_MAX)
  }

  lemma {:induction false} NoOverflowBefore(cfg: Config, trace: seq<Event>, n: nat)
    requires NoOverflow(cfg, trace) && n <= |trace|
    ensures NoOverflow(cfg, trace[..n])
    decreases |trace|
  {
    if n < |trace| {
      NoOverflowBefore(cfg, trace[..|trace| - 1], n);
      assert trace[..|trace| - 1][..n] == trace[..n];
    } else {
      assert trace[..n] == trace;
    }
  }

  predicate NoFailure(trace: seq<Event>) {
    forall i | 0 <= i < |trace| :: !trace[i].Failure?
  }

  function Successes(trace: seq<Event>): nat {
    if trace == [] then 0
    else Successes(trace[..|trace| - 1]) + if trace[|trace| - 1].Success? then 1 else 0
  }

  // The trial period: event number k is the Allow that ended an open period, after the recovery
  // time, and nothing has failed since.
  ghost predicate Trial(cfg: Config, trace: seq<Event>, k: int) {
    && 0 <= k < |trace| && trace[k].Allow?
    && StateOf(cfg, trace[..k]) == Open && trace[k].now - LastFailure(trace[..k]) >= cfg.recovery
    && NoFailure(trace[k + 1..])
  }

  // The counters in terms of the trace. In a trial `failures` still has what opened the breaker.
  ghost predicate Counts(cfg: Config, trace: seq<Event>) {
    CountsAre(After(cfg, trace), cfg, Since(cfg, trace), Streak(trace), LastFailure(trace))
  }

  ghost predicate OnTrial(cfg: Config, trace: seq<Event>) {
    exists k :: Trial(cfg, trace, k) && After(cfg, trace).successes == Successes(trace[k + 1..]) < CLOSING_SUCCESSES
  }

  ghost predicate Inv(cfg: Config, trace: seq<Event>) {
    Counts(cfg, trace) && (StateOf(cfg, trace) == HalfOpen ==> OnTrial(cfg, trace))
  }

  lemma SuccessesSnoc(trace: seq<Event>, e: Event)
    ensures Successes(trace + [e]) == Successes(trace) + if e.Success? then 1 else 0
  {
    assert (trace + [e])[..|trace|] == trace;
  }

  lemma TrialGoesOn(cfg: Config, before: seq<Event>, e: Event, k: int)
    requires Trial(cfg, before, k) && !e.Failure?
    ensures Trial(cfg, before + [e], k)
    ensures Successes((before + [e])[k + 1..]) == Successes(before[k + 1..]) + if e.Success? then 1 else 0
  {
    var trace := before + [e];
    assert trace[..k] == before[..k] && trace[k + 1..] == before[k + 1..] + [e];
    SuccessesSnoc(before[k + 1..], e);
  }

  lemma OneMore(cfg: Config, before: seq<Event>, e: Event)
    ensures After(cfg, before + [e]) == Next(After(cfg, before), cfg, e)
    ensures Since(cfg, before + [e]) ==
              if e.Failure? then Since(cfg, before) + 1
              else if e.Success? && Next(After(cfg, before), cfg, e).state == Closed then 0
              else Since(cfg, before)
    ensures Streak(before + [e]) == if e.Success? then 0 else Streak(before) + if e.Failure? then 1 else 0
    ensures LastFailure(before + [e]) == if e.Failure? then e.now else LastFailure(before)
  {
    var trace := before + [e];
    assert trace[..|trace| - 1] == before && trace[|trace| - 1] == e;
  }

  // What Counts says, of the counters alone.
  predicate CountsAre(b: Breaker, cfg: Config, since: nat, streak: nat, last: int) {
    && b.failures == since && b.lastFailure == last
    && (b.state == Closed ==> b.failures == streak < cfg.threshold)
    && (b.state != Closed ==> b.failures >= cfg.threshold)
  }

  lemma NextCounts(b: Breaker, cfg: Config, e: Event, since: nat, streak: nat, last: int)
    requires cfg.threshold >= 1 && CountsAre(b, cfg, since, streak, last) && (e.Failure? ==> since < INT32_MAX)
    ensures
      var b' := Next(b, cfg, e);
      CountsAre(b', cfg,
                if e.Failure? then since + 1 else if e.Success? && b'.state == Closed then 0 else since,
                if e.Success? then 0 else streak + if e.Failure? then 1 else 0,
                if e.Failure? then e.now else last)
  {
  }

  lemma StepCounts(cfg: Config, before: seq<Event>, e: Event)
    requires cfg.threshold >= 1 && Since(cfg, before + [e]) <= INT32_MAX && Counts(cfg, before)
    ensures Counts(cfg, before + [e])
  {
    OneMore(cfg, before, e);
    NextCounts(After(cfg, before), cfg, e, Since(cfg, before), Streak(before), LastFailure(before));
  }

  lemma StepOnTrial(cfg: Config, before: seq<Event>, e: Event)
    requires cfg.threshold >= 1 && Since(cfg, before + [e]) <= INT32_MAX && Inv(cfg, before)
    requires StateOf(cfg, before + [e]) == HalfOpen
    ensures OnTrial(cfg, before + [e])
  {
    if StateOf(cfg, before) == HalfOpen {
      StepStaysOnTrial(cfg, before, e);
    } else {
      StepStartsTrial(cfg, before, e);
    }
  }

  lemma StepStaysOnTrial(cfg: Config, before: seq<Event>, e: Event)
    requires OnTrial(cfg, before) && Counts(cfg, before) && Since(cfg, before + [e]) <= INT32_MAX
    requires StateOf(cfg, before) == HalfOpen && StateOf(cfg, before + [e]) == HalfOpen
    ensures OnTrial(cfg, before + [e])
  {
    var k :| Trial(cfg, before, k) && After(cfg, before).successes == Successes(before[k + 1..]) < CLOSING_SUCCESSES;
    OneMore(cfg, before, e);
    StaysHalfOpen(After(cfg, before), cfg, e);
    TrialGoesOn(cfg, before, e, k);
  }

  lemma StaysHalfOpen(b: Breaker, cfg: Config, e: Event)
    requires b.state == HalfOpen && Next(b, cfg, e).state == HalfOpen
    requires 0 <= b.failures && (e.Failure? ==> b.failures < INT32_MAX) && b.failures >= cfg.threshold && 0 <= b.successes < CLOSING_SUCCESSES
    ensures !e.Failure? && Next(b, cfg, e).successes == (b.successes + if e.Success? then 1 else 0) < CLOSING_SUCCESSES
  {
  }

  lemma StepStartsTrial(cfg: Config, before: seq<Event>, e: Event)
    requires After(cfg, before).lastFailure == LastFailure(before)
    requires StateOf(cfg, before) != HalfOpen && StateOf(cfg, before + [e]) == HalfOpen
    ensures OnTrial(cfg, before + [e])
  {
    var trace := before + [e];
    assert trace[..|before|] == before && trace[|before| + 1..] == [];
    assert Trial(cfg, trace, |before|);
  }

  lemma {:induction false} InvHolds(cfg: Config, trace: seq<Event>)
    requires cfg.threshold >= 1 && NoOverflow(cfg, trace)
    ensures Inv(cfg, trace)
  {
    if trace != [] {
      var before, e := trace[..|trace| - 1], trace[|trace| - 1];
      assert trace == before + [e];
      InvHolds(cfg, before);
      StepCounts(cfg, before, e);
      if StateOf(cfg, trace) == HalfOpen {
        StepOnTrial(cfg, before, e);
      }
    }
  }

  /** From closed, an event opens the breaker exactly when it is a failure that makes `threshold`
      failures with no success between them; otherwise it stays closed. */
  lemma TripsExactly(cfg: Config, trace: seq<Event>, e: Event)
    requires cfg.threshold >= 1 && NoOverflow(cfg, trace) && StateOf(cfg, trace) == Closed
    ensures StateOf(cfg, trace + [e]) == if e.Failure? && Streak(trace) + 1 == cfg.threshold then Open else Closed
  {
    InvHolds(cfg, trace);
    OneMore(cfg, trace, e);
  }

  /** While open, requests are refused until `recovery` has passed since the last failure; the
      first one after that starts a trial, and nothing else leaves the open state. */
  lemma OpenExactly(cfg: Config, trace: seq<Event>, e: Event)
    requires cfg.threshold >= 1 && NoOverflow(cfg, trace) && StateOf(cfg, trace) == Open
    ensures forall now :: Admits(After(cfg, trace), cfg, now) <==> now - LastFailure(trace) >= cfg.recovery
    ensures StateOf(cfg, trace + [e]) ==
              if e.Allow? && e.now - LastFailure(trace) >= cfg.recovery then HalfOpen else Open
  {
    InvHolds(cfg, trace);
    OneMore(cfg, trace, e);
  }

  /** A trial ends at the first failure, which opens the breaker again if and only if the counter
      does not overflow, or at the third success since the Allow that started it, which closes it. */
  lemma TrialEndsExactly(cfg: Config, trace: seq<Event>, k: int, e: Event)
    requires cfg.threshold >= 1 && NoOverflow(cfg, trace)
    requires StateOf(cfg, trace) == HalfOpen && Trial(cfg, trace, k)
    ensures StateOf(cfg, trace + [e]) ==
              if e.Failure? then if Since(cfg, trace) < INT32_MAX then Open else HalfOpen
              else if e.Success? && Successes(trace[k + 1..]) + 1 == CLOSING_SUCCESSES then Closed
              else HalfOpen
  {
    InvHolds(cfg, trace);
    var j :| Trial(cfg, trace, j) && After(cfg, trace).successes == Successes(trace[j + 1..]) < CLOSING_SUCCESSES;
    TrialIsUnique(cfg, trace, j, k);
    OneMore(cfg, trace, e);
    OnTrialNext(After(cfg, trace), cfg, e);
  }

  lemma OnTrialNext(b: Breaker, cfg: Config, e: Event)
    requires b.state == HalfOpen && 1 <= cfg.threshold <= b.failures <= INT32_MAX && 0 <= b.successes < CLOSING_SUCCESSES
    ensures Next(b, cfg, e).state ==
              if e.Failure? then if b.failures < INT32_MAX then Open else HalfOpen
              else if e.Success? && b.successes + 1 == CLOSING_SUCCESSES then Closed
              else HalfOpen
  {
  }

  lemma {:induction false} NoReopening(cfg: Config, trace: seq<Event>, k: nat, n: nat)
    requires k <= n <= |trace| && StateOf(cfg, trace[..k]) != Open
    requires forall i | k <= i < n :: !trace[i].Failure?
    ensures StateOf(cfg, trace[..n]) != Open
  {
    if k < n {
      NoReopening(cfg, trace, k, n - 1);
      assert trace[..n][..n - 1] == trace[..n - 1];
    }
  }

  // Only a failure leads into the open state, so a trace has one running trial at most.
  lemma TrialIsUnique(cfg: Config, trace: seq<Event>, j: int, k: int)
    requires cfg.threshold >= 1 && NoOverflow(cfg, trace) && Trial(cfg, trace, j) && Trial(cfg, trace, k)
    ensures j == k
  {
    if j < k {
      TrialStart(cfg, trace, j, k);
    } else if k < j {
      TrialStart(cfg, trace, k, j);
    }
  }

  lemma TrialStart(cfg: Config, trace: seq<Event>, j: int, k: int)
    requires cfg.threshold >= 1 && NoOverflow(cfg, trace) && Trial(cfg, trace, j) && j < k < |trace|
    ensures StateOf(cfg, trace[..k]) != Open
  {
    NoOverflowBefore(cfg, trace, j);
    InvHolds(cfg, trace[..j]);
    assert trace[..j + 1][..j] == trace[..j];
    assert StateOf(cfg, trace[..j + 1]) == HalfOpen;
    forall i | j + 1 <= i < k ensures !trace[i].Failure? {
      assert trace[j + 1..][i - j - 1] == trace[i];
    }
    NoReopening(cfg, trace, j + 1, k);
  }

  /** Over any run: whenever the breaker is not closed, a trial is running or it is waiting out
      the recovery time, and it never leaves for closed without three successes and no failure
      since an Allow that came `recovery` after the last failure. */
  lemma ClosesOnlyAfterTrial(cfg: Config, trace: seq<Event>, e: Event)
    requires cfg.threshold >= 1 && NoOverflow(cfg, trace)
    requires StateOf(cfg, trace) != Closed && StateOf(cfg, trace + [e]) == Closed
    ensures e == Success
    ensures exists k :: Trial(cfg, trace, k) && Successes(trace[k + 1..]) == CLOSING_SUCCESSES - 1
  {
    InvHolds(cfg, trace);
    OneMore(cfg, trace, e);
  }

  // ---------- The state, from the trace alone ----------

  datatype Mode = IsClosed | IsOpen | OnTrialSince(k: nat)

  // Defined without the breaker: by the failure streak, the time of the last failure, and the
  // successes since the trial began.
  function ModeOf(cfg: Config, trace: seq<Event>): Mode {
    if trace == [] then IsClosed
    else
      var before, e := trace[..|trace| - 1], trace[|trace| - 1];
      match ModeOf(cfg, before)
      case IsClosed => if e.Failure? && Streak(before) + 1 == cfg.threshold then IsOpen else IsClosed
      case IsOpen => if e.Allow? && e.now - LastFailure(before) >= cfg.recovery then OnTrialSince(|before|) else IsOpen
      case OnTrialSince(k) =>
        if e.Failure? then IsOpen
        else if k < |before| && e.Success? && Successes(before[k + 1..]) + 1 == CLOSING_SUCCESSES then IsClosed
        else OnTrialSince(k)
  }

  function AsState(m: Mode): State {
    match m
    case IsClosed => Closed
    case IsOpen => Open
    case OnTrialSince(_) => HalfOpen
  }

  // Failures since the last success that left it closed, and that they never exceed an int32.
  function SinceReset(cfg: Config, trace: seq<Event>): nat {
    if trace == [] then 0
    else
      match trace[|trace| - 1]
      case Success => if ModeOf(cfg, trace) == IsClosed then 0 else SinceReset(cfg, trace[..|trace| - 1])
      case Failure(_) => 1 + SinceReset(cfg, trace[..|trace| - 1])
      case Allow(_) => SinceReset(cfg, trace[..|trace| - 1])
  }

  predicate Fits(cfg: Config, trace: seq<Event>) {
    trace == [] || (Fits(cfg, trace[..|trace| - 1]) && SinceReset(cfg, trace) <= INT32_MAX)
  }

  // The breaker is in the mode, in the trial that the mode names.
  ghost predicate InMode(cfg: Config, trace: seq<Event>) {
    var m := ModeOf(cfg, trace);
    && StateOf(cfg, trace) == AsState(m) && (m.OnTrialSince? ==> Trial(cfg, trace, m.k))
    && NoOverflow(cfg, trace) && Since(cfg, trace) == SinceReset(cfg, trace)
  }

  lemma ModeSnoc(cfg: Config, before: seq<Event>, e: Event)
    ensures
      var m, m' := ModeOf(cfg, before), ModeOf(cfg, before + [e]);
      && (m.IsClosed? ==> m' == if e.Failure? && Streak(before) + 1 == cfg.threshold then IsOpen else IsClosed)
      && (m.IsOpen? ==> m' == if e.Allow? && e.now - LastFailure(before) >= cfg.recovery then OnTrialSince(|before|) else IsOpen)
      && (m.OnTrialSince? ==>
            m' == if e.Failure? then IsOpen
                  else if m.k < |before| && e.Success? && Successes(before[m.k + 1..]) + 1 == CLOSING_SUCCESSES then IsClosed
                  else m)
      && SinceReset(cfg, before + [e]) ==
           if e.Failure? then SinceReset(cfg, before) + 1
           else if e.Success? && m' == IsClosed then 0
           else SinceReset(cfg, before)
  {
    var trace := before + [e];
    assert trace[..|trace| - 1] == before && trace[|trace| - 1] == e;
  }

  lemma StepKeepsMode(cfg: Config, before: seq<Event>, e: Event)
    requires cfg.threshold >= 1 && InMode(cfg, before) && SinceReset(cfg, before + [e]) <= INT32_MAX
    ensures StateOf(cfg, before + [e]) == AsState(ModeOf(cfg, before + [e]))
  {
    ModeSnoc(cfg, before, e);
    match ModeOf(cfg, before)
    case IsClosed => TripsExactly(cfg, before, e);
    case IsOpen => OpenExactly(cfg, before, e);
    case OnTrialSince(k) => TrialEndsExactly(cfg, before, k, e);
  }

  lemma StepKeepsTrial(cfg: Config, before: seq<Event>, e: Event)
    requires InMode(cfg, before) && ModeOf(cfg, before + [e]).OnTrialSince?
    ensures Trial(cfg, before + [e], ModeOf(cfg, before + [e]).k)
  {
    ModeSnoc(cfg, before, e);
    if ModeOf(cfg, before).OnTrialSince? {
      TrialGoesOn(cfg, before, e, ModeOf(cfg, before).k);
    } else {
      assert (before + [e])[..|before|] == before && (before + [e])[|before| + 1..] == [];
    }
  }

  /** The breaker's state is a function of the trace: on every trace whose failures since the last
      reset fit an int32 it is the one that streaks, times and successes define. */
  lemma {:induction false} StateIsMode(cfg: Config, trace: seq<Event>)
    requires cfg.threshold >= 1 && Fits(cfg, trace)
    ensures InMode(cfg, trace)
  {
    if trace != [] {
      var before, e := trace[..|trace| - 1], trace[|trace| - 1];
      assert trace == before + [e];
      StateIsMode(cfg, before);
      StepKeepsMode(cfg, before, e);
      if ModeOf(cfg, trace).OnTrialSince? {
        StepKeepsTrial(cfg, before, e);
      }
      ModeSnoc(cfg, before, e);
      OneMore(cfg, before, e);
    }
  }

  /** A request is refused exactly while the breaker is open and `recovery` has not passed since the
      last failure; every other is admitted. */
  lemma AdmitsExactly(cfg: Config, trace: seq<Event>, now: int)
    requires cfg.threshold >= 1 && Fits(cfg, trace)
    ensures Admits(After(cfg, trace), cfg, now)
            <==> !(ModeOf(cfg, trace).IsOpen? && now - LastFailure(trace) < cfg.recovery)
  {
    StateIsMode(cfg, trace);
    InvHolds(cfg, trace);
  }

  // ---------- Where the counter overflows ----------

  function ManyFailures(n: nat): (trace: seq<Event>)
    ensures |trace| == n
  {
    seq(n, _ => Failure(0))
  }

  lemma {:induction false} FailuresCount(cfg: Config, n: nat)
    requires 1 <= cfg.threshold && n <= INT32_MAX
    ensures
      var trace := ManyFailures(n);
      && After(cfg, trace) == Breaker(if n >= cfg.threshold then Open else Closed, n, 0, 0)
      && Since(cfg, trace) == n && NoOverflow(cfg, trace) && LastFailure(trace) == 0
  {
    if n > 0 {
      FailuresCount(cfg, n - 1);
      var trace := ManyFailures(n);
      assert trace[..n - 1] == ManyFailures(n - 1) && trace[n - 1] == Failure(0);
    }
  }

  /** The overflow is reached under every configuration: after 2^31 - 1 failures the breaker is open;
      when a trial then fails, it stays half-open. */
  lemma OverflowHidesFailure(cfg: Config, now: int) returns (trace: seq<Event>)
    requires cfg.threshold >= 1
    ensures NoOverflow(cfg, trace) && StateOf(cfg, trace) == HalfOpen
    ensures StateOf(cfg, trace + [Failure(now)]) == HalfOpen
  {
    var many, wait := ManyFailures(INT32_MAX), Allow(if cfg.recovery > 0 then cfg.recovery else 0);
    FailuresCount(cfg, INT32_MAX);
    trace := many + [wait];
    OneMore(cfg, many, wait);
    assert trace[..|trace| - 1] == many;
    OneMore(cfg, trace, Failure(now));
  }
}
