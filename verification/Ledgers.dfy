/**
 Accounting for a limiter: every admitted call costs one unit, paid from a purse into which something
 accrues over time. Stated for any state and any step function, so that the arithmetic of a particular
 limiter stays out of the induction over its runs.
 */
module Ledgers {

  // A call: its time, whether it is admitted, and the purse it leaves.
  datatype Call = Call(now: int, admitted: bool, purse: int)

  function StateAfter<S>(step: (S, int) -> S, s: S, times: seq<int>): S {
    if times == [] then s else step(StateAfter(step, s, times[..|times| - 1]), times[|times| - 1])
  }

  function Calls<S>(call: (S, int) -> Call, step: (S, int) -> S, s: S, times: seq<int>): (calls: seq<Call>)
    ensures |calls| == |times|
  {
    if times == [] then []
    else
      var before := times[..|times| - 1];
      Calls(call, step, s, before) + [call(StateAfter(step, s, before), times[|times| - 1])]
  }

  function Count(calls: seq<Call>): nat {
    if calls == [] then 0 else Count(calls[..|calls| - 1]) + if calls[|calls| - 1].admitted then 1 else 0
  }

  // What one call leaves, with what accrues until the next, pays for the next.
  predicate Pays(c: Call, d: Call, unit: nat, accrued: int -> int) {
    && accrued(c.now) <= accrued(d.now)
    && (if d.admitted then unit else 0) + d.purse <= c.purse + (accrued(d.now) - accrued(c.now))
  }

  // And an admitted call leaves less than the cap.
  predicate IsLedger(calls: seq<Call>, unit: nat, cap: int, accrued: int -> int) {
    && (forall i | 0 <= i < |calls| :: calls[i].admitted ==> calls[i].purse < cap)
    && (forall i | 0 < i < |calls| :: Pays(calls[i - 1], calls[i], unit, accrued))
  }

  lemma {:induction false} AccruedGrows(calls: seq<Call>, unit: nat, cap: int, accrued: int -> int, n: nat)
    requires IsLedger(calls, unit, cap, accrued) && n < |calls|
    ensures accrued(calls[0].now) <= accrued(calls[n].now)
  {
    if n > 0 {
      AccruedGrows(calls, unit, cap, accrued, n - 1);
      assert Pays(calls[n - 1], calls[n], unit, accrued);
    }
  }

  /** The admitted calls and the purse they leave stay under one unit, the cap, and what accrued. */
  lemma {:induction false} LedgerBound(calls: seq<Call>, unit: nat, cap: int, accrued: int -> int)
    requires calls != [] && IsLedger(calls, unit, cap, accrued)
    ensures
      var last := calls[|calls| - 1];
      Count(calls) > 0 ==>
        Count(calls) * unit + last.purse < unit + cap + (accrued(last.now) - accrued(calls[0].now))
  {
    var n := |calls| - 1;
    AccruedGrows(calls, unit, cap, accrued, n);
    if Count(calls[..n]) > 0 {
      LedgerBound(calls[..n], unit, cap, accrued);
      assert Pays(calls[n - 1], calls[n], unit, accrued);
    }
  }

  // A step leaves a valid state and the purse that its call says, under the cap if admitted.
  ghost predicate Settles<S>(call: (S, int) -> Call, step: (S, int) -> S, purse: (S, int) -> int, valid: S -> bool,
                             cap: int, s: S, now: int)
  {
    var c := call(s, now);
    valid(step(s, now)) && c.now == now && c.purse == purse(step(s, now), now) && (c.admitted ==> c.purse < cap)
  }

  // Every step at a time of the clock does.
  ghost predicate AllSettle<S(!new)>(call: (S, int) -> Call, step: (S, int) -> S, purse: (S, int) -> int, valid: S -> bool,
                                     clock: int -> bool, cap: int)
  {
    forall s, now | valid(s) && clock(now) :: Settles(call, step, purse, valid, cap, s, now)
  }

  // What there was before a step pays for it.
  ghost predicate AllPay<S(!new)>(call: (S, int) -> Call, purse: (S, int) -> int, valid: S -> bool,
                                  clock: int -> bool, unit: nat, accrued: int -> int)
  {
    forall s, now, c: Call | valid(s) && clock(now) && c.now <= now && c.purse == purse(s, c.now) ::
      Pays(c, call(s, now), unit, accrued)
  }

  lemma LedgerSnoc(calls: seq<Call>, c: Call, unit: nat, cap: int, accrued: int -> int)
    requires IsLedger(calls, unit, cap, accrued) && (c.admitted ==> c.purse < cap)
    requires calls != [] ==> Pays(calls[|calls| - 1], c, unit, accrued)
    ensures IsLedger(calls + [c], unit, cap, accrued)
  {
  }

  lemma {:induction false} RunIsLedger<S(!new)>(call: (S, int) -> Call, step: (S, int) -> S, purse: (S, int) -> int, valid: S -> bool,
                                               clock: int -> bool, unit: nat, cap: int, accrued: int -> int, s: S, times: seq<int>)
    requires AllSettle(call, step, purse, valid, clock, cap) && AllPay(call, purse, valid, clock, unit, accrued) && valid(s)
    requires forall i | 0 <= i < |times| :: clock(times[i])
    requires forall i, j | 0 <= i < j < |times| :: times[i] <= times[j]
    ensures
      var calls, end := Calls(call, step, s, times), StateAfter(step, s, times);
      && IsLedger(calls, unit, cap, accrued) && valid(end)
      && (forall i | 0 <= i < |times| :: calls[i].now == times[i])
      && (times != [] ==> calls[|times| - 1].purse == purse(end, times[|times| - 1]))
    decreases |times|
  {
    if times != [] {
      var n := |times| - 1;
      var before, calls := StateAfter(step, s, times[..n]), Calls(call, step, s, times[..n]);
      RunIsLedger(call, step, purse, valid, clock, unit, cap, accrued, s, times[..n]);
      assert clock(times[n]) && Settles(call, step, purse, valid, cap, before, times[n]);
      LedgerSnoc(calls, call(before, times[n]), unit, cap, accrued);
    }
  }
}
