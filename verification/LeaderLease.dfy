/**
 Leader election by one expiring Redis key (internal/controlplane/leader.go).

 Any number of control-plane instances share the key. Every Redis command, every store to
 an instance's `isLeader` flag and every advance of the clock is one atomic event, and events
 of different instances interleave freely. A command may fail after it took effect, or before: then
 the request may still be on its way and take effect at any later time, once, more often or never.
 */
module LeaderLease {

  type Instance = string

  // Nanoseconds, as time.Duration counts them.
  const LEADER_TTL: int := 10_000_000_000

  // ---------- The key, and the four commands the code sends ----------

  datatype Lease = NoLease | Lease(owner: Instance, expiry: int)

  predicate Live(lease: Lease, now: int) {
    lease.Lease? && now < lease.expiry
  }

  function SetNx(lease: Lease, now: int, i: Instance): Lease {
    if Live(lease, now) then lease else Lease(i, now + LEADER_TTL)
  }

  // EXPIRE does not look at the value: it extends whoever holds the key, and does nothing,
  // without an error, when there is no key.
  function Expire(lease: Lease, now: int): Lease {
    if Live(lease, now) then lease.(expiry := now + LEADER_TTL) else lease
  }

  // ---------- One instance as a sequence of atomic steps ----------

  // Where an instance stands inside tryAcquire or resign.
  datatype Pc =
    | Idle        // waiting for the ticker or for cancellation
    | SetOk       // SETNX said yes, the flag is not yet stored
    | SetFailed   // SETNX said no, GET comes next
    | OwnsKey     // GET returned this instance, EXPIRE comes next
    | Renewed     // EXPIRE raised no error, the flag is not yet stored
    | Lost        // about to store false
    | Deleting    // resign saw the flag, DEL comes next
    | Deleted     // DEL returned, the flag is not yet cleared
    | Stopped

  // The caller of a lost request or a lost reply sees an error; only the latter took effect.
  datatype Reply = Acked | LostRequest | LostReply

  // Requests that were sent and not answered.
  datatype Command = SetNxOf(sender: Instance) | ExpireOf(sender: Instance) | DelOf(sender: Instance)

  datatype Event =
    | DoSetNx(i: Instance, reply: Reply)
    | DoGet(i: Instance, failed: bool)
    | DoExpire(i: Instance, reply: Reply)
    | StoreTrue(i: Instance)
    | StoreFalse(i: Instance)
    | BeginResign(i: Instance)
    | DoDel(i: Instance, reply: Reply)
    | Attempt(i: Instance)           // an attempt of the next command that the client library will repeat
    | Arrive(c: Command)             // a request whose sender no longer waits for it takes effect
    | Tick(elapsed: nat)

  // `flight` has the requests that may still arrive. `granted` is a history variable: when a SETNX
  // or EXPIRE last granted or extended an instance's lease.
  datatype State = State(now: int, lease: Lease, leaders: set<Instance>, pcs: map<Instance, Pc>,
                         flight: set<Command>, granted: map<Instance, int>)

  const Init: State := State(0, NoLease, {}, map[], {}, map[])

  function PcOf(s: State, i: Instance): Pc {
    if i in s.pcs then s.pcs[i] else Idle
  }

  function At(s: State, i: Instance, pc: Pc): State {
    s.(pcs := s.pcs[i := pc])
  }

  predicate Enabled(s: State, e: Event) {
    match e
    case DoSetNx(i, _) => PcOf(s, i) == Idle
    case DoGet(i, _) => PcOf(s, i) == SetFailed
    case DoExpire(i, _) => PcOf(s, i) == OwnsKey
    case StoreTrue(i) => PcOf(s, i) in {SetOk, Renewed}
    case StoreFalse(i) => PcOf(s, i) in {Lost, Deleted}
    case BeginResign(i) => PcOf(s, i) == Idle
    case DoDel(i, _) => PcOf(s, i) == Deleting
    case Attempt(i) => PcOf(s, i) in {Idle, OwnsKey, Deleting}
    case Arrive(c) => c in s.flight
    case Tick(_) => true
  }

  function Sent(s: State, c: Command): State {
    s.(flight := s.flight + {c})
  }

  function Executed(s: State, c: Command): State {
    match c
    case SetNxOf(i) =>
      if Live(s.lease, s.now) then s else s.(lease := SetNx(s.lease, s.now, i), granted := s.granted[i := s.now])
    case ExpireOf(_) =>
      if Live(s.lease, s.now) then s.(lease := Expire(s.lease, s.now), granted := s.granted[s.lease.owner := s.now]) else s
    case DelOf(_) => s.(lease := NoLease)
  }

  function Apply(s: State, e: Event): State
    requires Enabled(s, e)
  {
    match e
    case DoSetNx(i, reply) =>
      var taken := !Live(s.lease, s.now);
      var s1 := if reply == LostRequest then Sent(s, SetNxOf(i)) else Executed(s, SetNxOf(i));
      At(s1, i, if reply != Acked then Idle else if taken then SetOk else SetFailed)
    case DoGet(i, failed) =>
      // A missing key is an error to the caller too, and an error leaves the flag alone.
      At(s, i, if failed || !Live(s.lease, s.now) then Idle
               else if s.lease.owner == i then OwnsKey else Lost)
    case DoExpire(i, reply) =>
      var s1 := if reply == LostRequest then Sent(s, ExpireOf(i)) else Executed(s, ExpireOf(i));
      At(s1, i, if reply == Acked then Renewed else Lost)
    case StoreTrue(i) => At(s.(leaders := s.leaders + {i}), i, Idle)
    case StoreFalse(i) =>
      At(s.(leaders := s.leaders - {i}), i, if PcOf(s, i) == Lost then Idle else Stopped)
    case BeginResign(i) => At(s, i, if i in s.leaders then Deleting else Stopped)
    case DoDel(i, reply) => At(if reply == LostRequest then Sent(s, DelOf(i)) else Executed(s, DelOf(i)), i, Deleted)
    case Attempt(i) =>
      Sent(s, if PcOf(s, i) == Idle then SetNxOf(i) else if PcOf(s, i) == OwnsKey then ExpireOf(i) else DelOf(i))
    case Arrive(c) => Executed(s, c)
    case Tick(elapsed) => s.(now := s.now + elapsed)
  }

  ghost predicate IsRun(states: seq<State>, events: seq<Event>) {
    && |states| == |events| + 1
    && states[0] == Init
    && forall k {:trigger events[k]} | 0 <= k < |events| ::
         Enabled(states[k], events[k]) && states[k + 1] == Apply(states[k], events[k])
  }

  // ---------- Mutual exclusion ----------

  // The flag is up and the instance is not past the DEL of its own resign.
  predicate Leads(s: State, i: Instance) {
    i in s.leaders && PcOf(s, i) != Deleted
  }

  // The instance acts, or is about to act, on the belief that the lease is its own.
  predicate Relying(s: State, i: Instance) {
    Leads(s, i) || PcOf(s, i) in {SetOk, OwnsKey, Renewed}
  }

  // The timing hypothesis: no relying instance lets the TTL pass since its last grant.
  predicate Current(s: State, i: Instance) {
    i in s.granted && s.now < s.granted[i] + LEADER_TTL
  }

  ghost predicate LeaseKept(s: State) {
    forall i | Relying(s, i) :: Current(s, i)
  }

  predicate Holds(s: State, i: Instance) {
    i in s.granted && s.lease == Lease(i, s.granted[i] + LEADER_TTL)
  }

  ghost predicate Inv(s: State) {
    && (s.lease.Lease? ==> Holds(s, s.lease.owner))
    && (forall i | Relying(s, i) :: Holds(s, i))
    && (forall i | PcOf(s, i) == Deleting :: i in s.leaders)
  }

  predicate Of(e: Event, i: Instance) {
    !e.Tick? && !e.Arrive? && e.i == i
  }

  // A DEL arrives late, while some instance relies on the key.
  ghost predicate StrayDel(s: State, e: Event) {
    e.Arrive? && e.c.DelOf? && exists i :: Relying(s, i)
  }

  lemma ArrivalKeepsInvExactly(s: State, c: Command)
    requires c in s.flight && Inv(s) && LeaseKept(s)
    ensures Inv(Apply(s, Arrive(c))) <==> !StrayDel(s, Arrive(c))
  {
    var s' := Apply(s, Arrive(c));
    assert forall i :: PcOf(s', i) == PcOf(s, i) && (Relying(s', i) <==> Relying(s, i));
    if i :| Relying(s, i) {
      assert Holds(s, i) && Current(s, i);
    }
  }

  lemma CommandKeepsInv(s: State, e: Event)
    requires Enabled(s, e) && Inv(s) && LeaseKept(s) && (e.DoSetNx? || e.DoExpire? || e.DoDel?)
    ensures Inv(Apply(s, e))
  {
    var s' := Apply(s, e);
    assert Relying(s, e.i) ==> Holds(s, e.i) && Current(s, e.i);
    forall i | Relying(s', i) && i != e.i
      ensures Holds(s', i)
    {
      assert PcOf(s', i) == PcOf(s, i) && Relying(s, i);
    }
  }

  lemma LocalStepKeepsInv(s: State, e: Event)
    requires Enabled(s, e) && Inv(s) && LeaseKept(s)
    requires e.DoGet? || e.StoreTrue? || e.StoreFalse? || e.BeginResign? || e.Attempt?
    ensures Inv(Apply(s, e))
  {
    var s' := Apply(s, e);
    assert Relying(s, e.i) ==> Holds(s, e.i) && Current(s, e.i);
    forall i | Relying(s', i) && i != e.i
      ensures Holds(s', i)
    {
      assert PcOf(s', i) == PcOf(s, i) && Relying(s, i);
    }
  }

  /** While no grant has lapsed, every step keeps the invariant, except exactly the late arrival of a
      DEL while an instance relies on the key. */
  lemma StepKeepsInvExactly(s: State, e: Event)
    requires Enabled(s, e) && Inv(s) && LeaseKept(s)
    ensures Inv(Apply(s, e)) <==> !StrayDel(s, e)
  {
    match e
    case Tick(_) => assert forall i :: Relying(Apply(s, e), i) <==> Relying(s, i);
    case Arrive(c) => ArrivalKeepsInvExactly(s, c);
    case DoSetNx(_, _) => CommandKeepsInv(s, e);
    case DoExpire(_, _) => CommandKeepsInv(s, e);
    case DoDel(_, _) => CommandKeepsInv(s, e);
    case _ => LocalStepKeepsInv(s, e);
  }

  // Up to state k no grant has lapsed under a relying instance, and no DEL arrived under one.
  ghost predicate Undisturbed(states: seq<State>, events: seq<Event>, k: nat)
    requires k <= |states| && k <= |events|
  {
    forall m | 0 <= m < k :: LeaseKept(states[m]) && !StrayDel(states[m], events[m])
  }

  lemma {:induction false} RunKeepsInv(states: seq<State>, events: seq<Event>, k: nat)
    requires IsRun(states, events) && k < |states| && Undisturbed(states, events, k)
    ensures Inv(states[k])
  {
    if k > 0 {
      RunKeepsInv(states, events, k - 1);
      assert Enabled(states[k - 1], events[k - 1]);
      StepKeepsInvExactly(states[k - 1], events[k - 1]);
    }
  }

  /** Over every run of any number of instances, with any command errors and late arrivals, at most
      one instance leads for as long as no relying instance has outlived its last grant and no late
      DEL has arrived under a relying one. */
  lemma MutualExclusion(states: seq<State>, events: seq<Event>, k: nat)
    requires IsRun(states, events) && k < |states| && Undisturbed(states, events, k)
    ensures forall i, j | Leads(states[k], i) && Leads(states[k], j) :: i == j
  {
    RunKeepsInv(states, events, k);
    assert forall i | Leads(states[k], i) :: Relying(states[k], i);
  }

  // ---------- Without command errors the flag holders' timing is enough ----------

  predicate ErrorFree(e: Event) {
    && !e.Attempt? && !e.Arrive?
    && ((e.DoSetNx? || e.DoExpire? || e.DoDel?) ==> e.reply == Acked)
    && (e.DoGet? ==> !e.failed)
  }

  // The hypothesis asked only of instances with the flag up or with a grant not yet stored.
  ghost predicate FlagsKept(s: State) {
    forall i | Leads(s, i) || PcOf(s, i) in {SetOk, Renewed} :: Current(s, i)
  }

  // An owner has the flag up or is about to raise it.
  ghost predicate OwnersLead(s: State) {
    && (s.lease.Lease? ==> Leads(s, s.lease.owner) || PcOf(s, s.lease.owner) == SetOk)
    && (forall i | PcOf(s, i) in {OwnsKey, Renewed} :: i in s.leaders)
    && (forall i | PcOf(s, i) in {Lost, Deleted, Stopped} :: !(s.lease.Lease? && s.lease.owner == i))
  }

  lemma StepKeepsOwnersLead(s: State, e: Event)
    requires Enabled(s, e) && Inv(s) && OwnersLead(s) && FlagsKept(s) && ErrorFree(e)
    ensures Inv(Apply(s, e)) && OwnersLead(Apply(s, e))
  {
    assert LeaseKept(s);
    StepKeepsInvExactly(s, e);
    var s' := Apply(s, e);
    assert forall i | e.Tick? || i != e.i :: PcOf(s', i) == PcOf(s, i);
    assert e.DoDel? ==> Relying(s, e.i) && Holds(s, e.i);
  }

  /** When no command fails, at most one instance leads as long as no instance outlives its last
      SETNX or EXPIRE while its flag is up or that grant is still to be stored. */
  lemma {:induction false} MutualExclusionWithoutErrors(states: seq<State>, events: seq<Event>, k: nat)
    requires IsRun(states, events) && k < |states|
    requires forall m | 0 <= m < k :: ErrorFree(events[m]) && FlagsKept(states[m])
    ensures Inv(states[k]) && OwnersLead(states[k])
    ensures forall i, j | Leads(states[k], i) && Leads(states[k], j) :: i == j
  {
    if k > 0 {
      MutualExclusionWithoutErrors(states, events, k - 1);
      assert Enabled(states[k - 1], events[k - 1]);
      StepKeepsOwnersLead(states[k - 1], events[k - 1]);
    }
    assert forall i | Leads(states[k], i) :: Relying(states[k], i);
  }

  /** Under the same hypothesis EXPIRE and DEL, which do not look at the key's value, only ever
      touch the lease of the instance that sends them, as long as it waits for them. */
  lemma CommandsTouchOwnLease(states: seq<State>, events: seq<Event>, k: nat)
    requires IsRun(states, events) && k < |events| && Undisturbed(states, events, k)
    ensures LeaseKept(states[k]) && (events[k].DoExpire? || events[k].DoDel?) ==>
              Live(states[k].lease, states[k].now) && states[k].lease.owner == events[k].i
  {
    RunKeepsInv(states, events, k);
    assert Enabled(states[k], events[k]);
    if events[k].DoExpire? || events[k].DoDel? {
      assert Relying(states[k], events[k].i);
    }
  }

  // What a relying instance does next when nothing fails: it ends up leading.
  function Finish(s: State, i: Instance): State {
    var s1 := if PcOf(s, i) == OwnsKey then Apply(s, DoExpire(i, Acked)) else s;
    if PcOf(s1, i) in {SetOk, Renewed} then Apply(s1, StoreTrue(i)) else s1
  }

  /** No clause of the hypothesis can be dropped. In any state of a run in which it held so far,
      let the clock move on and an idle instance ask for the key: it is refused if and only if
      the relying instance's grant is still current, and otherwise both go on to lead. An
      instance between its GET and its EXPIRE even extends the newcomer's lease on the way. */
  lemma LapseAdmitsSecondLeader(s: State, elapsed: nat, i: Instance, j: Instance)
    requires Inv(s) && Relying(s, i) && i != j && PcOf(s, j) == Idle
    ensures
      var late := Apply(s, Tick(elapsed));
      var asked := Apply(late, DoSetNx(j, Acked));
      && (Current(late, i) <==> PcOf(asked, j) == SetFailed)
      && (!Current(late, i) ==>
            var end := Finish(Finish(asked, j), i);
            Leads(end, i) && Leads(end, j) && end.lease.owner == j)
  {
    var late := Apply(s, Tick(elapsed));
    var asked := Apply(late, DoSetNx(j, Acked));
    assert PcOf(asked, i) == PcOf(s, i);
    if !Current(late, i) {
      var joined := Finish(asked, j);
      assert joined == Apply(asked, StoreTrue(j));
      assert PcOf(joined, i) == PcOf(s, i) && Leads(joined, j);
    }
  }

  /** Nor can the clause about DEL: in any state in which the hypothesis held so far and an instance
      relies on the key, the arrival of a DEL lets an idle instance take the key, and both go on to
      lead, both within their grants. */
  lemma StrayDelAdmitsSecondLeader(s: State, c: Command, i: Instance, j: Instance)
    requires Inv(s) && LeaseKept(s) && Relying(s, i) && i != j && PcOf(s, j) == Idle && c.DelOf? && c in s.flight
    ensures
      var asked := Apply(Apply(s, Arrive(c)), DoSetNx(j, Acked));
      && PcOf(asked, j) == SetOk
      && var end := Finish(Finish(asked, j), i);
         Leads(end, i) && Leads(end, j) && Current(end, i) && Current(end, j)
  {
    assert Holds(s, i) && Current(s, i);
    var asked := Apply(Apply(s, Arrive(c)), DoSetNx(j, Acked));
    assert PcOf(asked, i) == PcOf(s, i);
    var joined := Finish(asked, j);
    assert joined == Apply(asked, StoreTrue(j));
    assert PcOf(joined, i) == PcOf(s, i) && Leads(joined, j);
  }

  /** Such a state is reached: an instance resigns with its DEL unanswered, and once its lease has
      run out another takes the key and leads, with nothing lapsed and the DEL still to arrive. */
  lemma ResignCanLeaveStrayDel(s: State, i: Instance, j: Instance, elapsed: nat)
    requires Inv(s) && PcOf(s, i) == Deleting && i != j && PcOf(s, j) == Idle
    requires s.lease.Lease? ==> s.lease.expiry <= s.now + elapsed
    ensures
      var resigned := Apply(Apply(s, DoDel(i, LostRequest)), StoreFalse(i));
      var taken := Apply(Apply(resigned, Tick(elapsed)), DoSetNx(j, Acked));
      && PcOf(taken, j) == SetOk
      && var end := Apply(taken, StoreTrue(j));
         Leads(end, j) && DelOf(i) in end.flight && Inv(end) && LeaseKept(end)
  {
    assert Relying(s, i) && Holds(s, i);
    var resigned := Apply(Apply(s, DoDel(i, LostRequest)), StoreFalse(i));
    forall k ensures !Relying(resigned, k) {
      assert k != i && Relying(s, k) ==> Holds(s, k);
      assert k != i ==> PcOf(resigned, k) == PcOf(s, k);
    }
    var taken := Apply(Apply(resigned, Tick(elapsed)), DoSetNx(j, Acked));
    var end := Apply(taken, StoreTrue(j));
    forall k | Relying(end, k) ensures k == j {
      assert k != j ==> PcOf(end, k) == PcOf(resigned, k) && !Relying(resigned, k);
    }
    forall k | PcOf(end, k) == Deleting ensures k in end.leaders {
      assert PcOf(s, k) == Deleting;
    }
  }

  // ---------- Where the hypothesis comes from: the ticker ----------

  const RENEW_INTERVAL: int := 3_000_000_000

  // The event took effect as a SETNX or EXPIRE that granted i a lease or extended it.
  predicate Grants(s: State, e: Event, i: Instance) {
    match e
    case DoSetNx(j, reply) => j == i && reply != LostRequest && !Live(s.lease, s.now)
    case DoExpire(_, reply) => reply != LostRequest && Live(s.lease, s.now) && s.lease.owner == i
    case Arrive(SetNxOf(j)) => j == i && !Live(s.lease, s.now)
    case Arrive(ExpireOf(_)) => Live(s.lease, s.now) && s.lease.owner == i
    case _ => false
  }

  // The event ended a round of i, by an error or because there was no key, without a renewal.
  predicate FailsRound(s: State, e: Event, i: Instance) {
    && Of(e, i) && !Grants(s, e, i)
    && match e
       case DoSetNx(_, reply) => reply != Acked
       case DoGet(_, failed) => failed || !Live(s.lease, s.now)
       case DoExpire(_, _) => true
       case _ => false
  }

  // The event takes i from one point of its code to the next; a repeated attempt does not.
  predicate Moves(e: Event, i: Instance) {
    Of(e, i) && !e.Attempt?
  }

  // When i entered the point of its code at which it stands, and how many of its rounds failed
  // since its last grant.
  function Entered(states: seq<State>, events: seq<Event>, k: nat, i: Instance): int
    requires k < |states| && k <= |events|
  {
    if k == 0 then 0 else if Moves(events[k - 1], i) then states[k].now else Entered(states, events, k - 1, i)
  }

  function Failed(states: seq<State>, events: seq<Event>, k: nat, i: Instance): nat
    requires k < |states| && k <= |events|
  {
    if k == 0 || Grants(states[k - 1], events[k - 1], i) then 0
    else Failed(states, events, k - 1, i) + if FailsRound(states[k - 1], events[k - 1], i) then 1 else 0
  }

  // The instance in whose name the key is, unless it has resigned.
  predicate Owner(s: State, i: Instance) {
    s.lease.Lease? && s.lease.owner == i && PcOf(s, i) !in {Deleted, Stopped}
  }

  // The owner waits at most `wait` for its next round to reach Redis, at most `step` at any other
  // point, and no more than `fails` of its rounds in a row fail.
  ghost predicate Timely(states: seq<State>, events: seq<Event>, k: nat, wait: nat, step: nat, fails: nat)
    requires k < |states| && k <= |events|
  {
    forall i | Owner(states[k], i) ::
      && states[k].now - Entered(states, events, k, i) <= (if PcOf(states[k], i) == Idle then wait else step)
      && Failed(states, events, k, i) <= fails
  }

  ghost predicate AllTimely(states: seq<State>, events: seq<Event>, k: nat, wait: nat, step: nat, fails: nat)
    requires k < |states| && k <= |events|
  {
    forall m | 0 <= m <= k :: Timely(states, events, m, wait, step, fails)
  }

  ghost predicate NoStrayDel(states: seq<State>, events: seq<Event>, k: nat)
    requires k <= |states| && k <= |events|
  {
    forall m | 0 <= m < k :: !StrayDel(states[m], events[m])
  }

  // The longest a round can last, and n of them.
  function Rounds(n: nat, wait: nat, step: nat): int {
    n * (wait + 3 * step)
  }

  lemma MoreRounds(f: nat, fails: nat, wait: nat, step: nat)
    requires f <= fails
    ensures 0 <= Rounds(f, wait, step) <= Rounds(fails, wait, step)
    ensures Rounds(f + 1, wait, step) == Rounds(f, wait, step) + wait + 3 * step
  {
    assert 0 <= f * (wait + 3 * step) <= fails * (wait + 3 * step);
  }

  // How long after its last grant an owner can enter each point; `failed` is the time that failed
  // rounds took.
  function Latest(pc: Pc, failed: int, wait: nat, step: nat): int {
    match pc
    case SetOk => 0
    case Renewed => 0
    case Lost => failed
    case Idle => failed + step
    case SetFailed => failed + step + wait
    case Deleting => failed + step + wait
    case _ => failed + 2 * step + wait
  }

  predicate InTime(s: State, i: Instance, entered: int, failed: int, wait: nat, step: nat) {
    Owner(s, i) ==> i in s.granted && entered <= s.now && entered - s.granted[i] <= Latest(PcOf(s, i), failed, wait, step)
  }

  // One step of the owner itself.
  lemma OwnStepInTime(s: State, e: Event, i: Instance, entered: int, failed: int, failed': int, wait: nat, step: nat)
    requires Enabled(s, e) && Inv(s) && LeaseKept(s) && Moves(e, i) && InTime(s, i, entered, failed, wait, step) && 0 <= failed
    requires Owner(s, i) ==> s.now - entered <= if PcOf(s, i) == Idle then wait else step
    requires failed' == if Grants(s, e, i) then 0 else failed + if FailsRound(s, e, i) then wait + 3 * step else 0
    ensures InTime(Apply(s, e), i, Apply(s, e).now, failed', wait, step)
  {
    assert Relying(s, i) ==> Holds(s, i) && Current(s, i);
  }

  // A step of anyone else, of the clock, or a late arrival.
  lemma OtherStepInTime(s: State, e: Event, i: Instance, entered: int, failed: int, wait: nat, step: nat)
    requires Enabled(s, e) && Inv(s) && LeaseKept(s) && !Moves(e, i) && InTime(s, i, entered, failed, wait, step)
    requires 0 <= failed && entered <= s.now
    ensures InTime(Apply(s, e), i, entered, if Grants(s, e, i) then 0 else failed, wait, step)
  {
    assert !e.Tick? && !e.Arrive? && Relying(s, e.i) ==> Holds(s, e.i) && Current(s, e.i);
  }

  lemma RelyingOwns(s: State, i: Instance)
    requires Inv(s) && StoppedAreDown(s) && Relying(s, i)
    ensures Owner(s, i) && Holds(s, i)
  {
    assert Holds(s, i);
  }

  lemma InTimeIsCurrent(s: State, i: Instance, entered: int, failed: int, wait: nat, step: nat)
    requires Owner(s, i) && InTime(s, i, entered, failed, wait, step)
    requires s.now - entered <= if PcOf(s, i) == Idle then wait else step
    requires failed + wait + 3 * step < LEADER_TTL && 0 <= failed
    ensures Current(s, i)
  {
  }

  // A stopped instance has its flag down.
  ghost predicate StoppedAreDown(s: State) {
    forall i | PcOf(s, i) == Stopped :: i !in s.leaders
  }

  lemma StepKeepsDown(s: State, e: Event)
    requires Enabled(s, e) && StoppedAreDown(s)
    ensures StoppedAreDown(Apply(s, e))
  {
    assert forall i | !Of(e, i) :: PcOf(Apply(s, e), i) == PcOf(s, i);
  }

  ghost predicate InTimeAt(states: seq<State>, events: seq<Event>, k: nat, wait: nat, step: nat, i: Instance)
    requires k < |states| && k <= |events|
  {
    && Entered(states, events, k, i) <= states[k].now
    && InTime(states[k], i, Entered(states, events, k, i), Rounds(Failed(states, events, k, i), wait, step), wait, step)
  }

  lemma InTimeStep(states: seq<State>, events: seq<Event>, k: nat, wait: nat, step: nat, fails: nat, i: Instance)
    requires 0 < k < |states| && k <= |events| && Enabled(states[k - 1], events[k - 1])
    requires states[k] == Apply(states[k - 1], events[k - 1]) && Inv(states[k - 1]) && LeaseKept(states[k - 1])
    requires Timely(states, events, k - 1, wait, step, fails) && InTimeAt(states, events, k - 1, wait, step, i)
    ensures InTimeAt(states, events, k, wait, step, i)
  {
    var s, e, entered, f := states[k - 1], events[k - 1], Entered(states, events, k - 1, i), Failed(states, events, k - 1, i);
    MoreRounds(f, f, wait, step);
    if Moves(e, i) {
      OwnStepInTime(s, e, i, entered, Rounds(f, wait, step), Rounds(Failed(states, events, k, i), wait, step), wait, step);
    } else {
      OtherStepInTime(s, e, i, entered, Rounds(f, wait, step), wait, step);
    }
  }

  lemma OwnerIsCurrent(states: seq<State>, events: seq<Event>, k: nat, wait: nat, step: nat, fails: nat, i: Instance)
    requires k < |states| && k <= |events| && Rounds(fails + 1, wait, step) < LEADER_TTL
    requires Inv(states[k]) && StoppedAreDown(states[k]) && Relying(states[k], i)
    requires Timely(states, events, k, wait, step, fails) && InTimeAt(states, events, k, wait, step, i)
    ensures Current(states[k], i)
  {
    RelyingOwns(states[k], i);
    var f := Failed(states, events, k, i);
    MoreRounds(f, fails, wait, step);
    MoreRounds(fails, fails, wait, step);
    InTimeIsCurrent(states[k], i, Entered(states, events, k, i), Rounds(f, wait, step), wait, step);
  }

  /** If the owner of the key starts a round at most `wait` after the last one ended, takes at most
      `step` between two commands, and never has more than `fails` failed rounds in a row, then
      nobody outlives a grant, and so at most one instance leads, provided fails + 1 rounds of that
      length fit into the TTL and no late DEL arrives under a relying instance. */
  lemma {:induction false} TickerKeepsLease(states: seq<State>, events: seq<Event>, k: nat, wait: nat, step: nat, fails: nat)
    requires IsRun(states, events) && k < |states| && Rounds(fails + 1, wait, step) < LEADER_TTL
    requires AllTimely(states, events, k, wait, step, fails) && NoStrayDel(states, events, k)
    ensures Inv(states[k]) && LeaseKept(states[k]) && StoppedAreDown(states[k])
    ensures forall i :: InTimeAt(states, events, k, wait, step, i)
  {
    if k > 0 {
      TickerKeepsLease(states, events, k - 1, wait, step, fails);
      var s, e := states[k - 1], events[k - 1];
      assert Enabled(s, e) && Timely(states, events, k - 1, wait, step, fails) && !StrayDel(s, e);
      StepKeepsInvExactly(s, e);
      StepKeepsDown(s, e);
      forall i ensures InTimeAt(states, events, k, wait, step, i) {
        assert InTimeAt(states, events, k - 1, wait, step, i);
        InTimeStep(states, events, k, wait, step, fails, i);
      }
    }
    forall i | Relying(states[k], i) ensures Current(states[k], i) {
      assert InTimeAt(states, events, k, wait, step, i) && Timely(states, events, k, wait, step, fails);
      OwnerIsCurrent(states, events, k, wait, step, fails, i);
    }
  }

  lemma TickerExcludes(states: seq<State>, events: seq<Event>, k: nat, wait: nat, step: nat, fails: nat)
    requires IsRun(states, events) && k < |states| && Rounds(fails + 1, wait, step) < LEADER_TTL
    requires AllTimely(states, events, k, wait, step, fails) && NoStrayDel(states, events, k)
    ensures forall i, j | Leads(states[k], i) && Leads(states[k], j) :: i == j
  {
    TickerKeepsLease(states, events, k, wait, step, fails);
    assert forall i | Leads(states[k], i) :: Relying(states[k], i);
  }

  /** With the constants of the code, two failed rounds in a row are harmless as long as a tick's
      lateness plus three times the time between two commands stays under a third of a second. */
  lemma DeployedTickerExcludes(states: seq<State>, events: seq<Event>, k: nat, late: nat, step: nat)
    requires IsRun(states, events) && k < |states| && 3 * (late + 3 * step) < 1_000_000_000
    requires AllTimely(states, events, k, RENEW_INTERVAL + late, step, 2) && NoStrayDel(states, events, k)
    ensures forall i, j | Leads(states[k], i) && Leads(states[k], j) :: i == j
  {
    TickerExcludes(states, events, k, RENEW_INTERVAL + late, step, 2);
  }

  // ---------- What a round decides ----------

  /** An error of SETNX or GET, or a key that is gone when GET comes, ends the round and leaves every
      flag as it was. */
  lemma FailedRoundKeepsFlags(s: State, e: Event)
    requires Enabled(s, e)
    requires (e.DoSetNx? && e.reply != Acked) || (e.DoGet? && (e.failed || !Live(s.lease, s.now)))
    ensures Apply(s, e).leaders == s.leaders && PcOf(Apply(s, e), e.i) == Idle
  {
  }

  /** An answered round raises the instance's flag exactly when SETNX got the key or the key was its
      own and EXPIRE was acknowledged, and lowers it exactly when the key was another's or EXPIRE
      failed; no other flag changes. */
  lemma AnsweredRoundDecides(s: State, i: Instance, expire: Reply)
    requires PcOf(s, i) == Idle
    ensures
      var end := SoloTryAcquire(s, i, Acked, false, expire);
      && PcOf(end, i) == Idle && end.leaders - {i} == s.leaders - {i}
      && (i in end.leaders <==> !Live(s.lease, s.now) || (s.lease.owner == i && expire == Acked))
  {
  }

  // ---------- The instance as the object the code has ----------

  class Redis {
    var now: int
    var lease: Lease
  }

  class LeaderElection {
    const redis: Redis
    const instance: Instance
    var isLeader: bool

    constructor (redis: Redis, instance: Instance)
      ensures this.redis == redis && this.instance == instance && !isLeader
    {
      this.redis := redis;
      this.instance := instance;
      isLeader := false;
    }

    /** One uninterrupted call. Its outcome is the four-way decision the step system takes one
        command at a time; when no command fails, the flag says exactly whether this instance
        now owns the lease, and an owner leaves with a full TTL. A SETNX or GET that fails leaves
        the flag as it was; otherwise it is up exactly when the key was free or renewed. */
    method TryAcquire(setNx: Reply, getFails: bool, expire: Reply)
      modifies this`isLeader, redis`lease
      ensures
        var w := Solo(old(redis.now), old(redis.lease), instance, old(isLeader));
        var t := SoloTryAcquire(w, instance, setNx, getFails, expire);
        redis.lease == t.lease && isLeader == (instance in t.leaders)
      ensures setNx == Acked && !getFails && expire == Acked ==>
                && Live(redis.lease, redis.now)
                && (isLeader <==> redis.lease.owner == instance)
                && (isLeader ==> redis.lease.expiry == redis.now + LEADER_TTL)
                && (!isLeader ==> redis.lease == old(redis.lease))
      ensures setNx != Acked || (Live(old(redis.lease), redis.now) && getFails) ==> isLeader == old(isLeader)
      ensures setNx == Acked && Live(old(redis.lease), redis.now) && !getFails ==>
                (isLeader <==> old(redis.lease).owner == instance && expire == Acked)
    {
      var taken := !Live(redis.lease, redis.now);
      if setNx != LostRequest {
        redis.lease := SetNx(redis.lease, redis.now, instance);
      }
      if setNx != Acked {
        return;
      }
      if taken {
        isLeader := true;
        return;
      }
      if getFails {
        return;
      }
      if redis.lease.owner == instance {
        if expire != LostRequest {
          redis.lease := Expire(redis.lease, redis.now);
        }
        if expire == Acked {
          isLeader := true;
          return;
        }
      }
      isLeader := false;
    }

    /** An instance whose flag is down does nothing; any other removes the key, whoever holds it. */
    method Resign(del: Reply)
      modifies this`isLeader, redis`lease
      ensures !isLeader
      ensures redis.lease == if old(isLeader) && del != LostRequest then NoLease else old(redis.lease)
    {
      if !isLeader {
        return;
      }
      if del != LostRequest {
        redis.lease := NoLease;
      }
      isLeader := false;
    }
  }

  // The state of the step system in which only `i` has ever run.
  function Solo(now: int, lease: Lease, i: Instance, isLeader: bool): State {
    State(now, lease, if isLeader then {i} else {}, map[], {}, map[])
  }

  // Runs the events of one tryAcquire back to back.
  function SoloTryAcquire(s: State, i: Instance, setNx: Reply, getFails: bool, expire: Reply): State
    requires PcOf(s, i) == Idle
  {
    var s1 := Apply(s, DoSetNx(i, setNx));
    if PcOf(s1, i) == SetOk then Apply(s1, StoreTrue(i))
    else if PcOf(s1, i) == Idle then s1
    else
      var s2 := Apply(s1, DoGet(i, getFails));
      if PcOf(s2, i) == Idle then s2
      else if PcOf(s2, i) == Lost then Apply(s2, StoreFalse(i))
      else
        var s3 := Apply(s2, DoExpire(i, expire));
        if PcOf(s3, i) == Renewed then Apply(s3, StoreTrue(i)) else Apply(s3, StoreFalse(i))
  }
}
