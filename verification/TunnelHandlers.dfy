/**
 The connection handlers among the steps of TunnelSessions: how often a connection is closed, whose
 session a handler unregisters, and how many tunnels there can be.
 */
module TunnelHandlers {
  import opened GoText
  import opened TunnelSessions

  // ---------- How often a connection is closed ----------

  // By its session's Close and by its handler's return.
  function CloseCalls(s: State, h: Handler): nat
    requires PcOf(s, h).Registered? ==> PcOf(s, h).sid < |s.sessions|
  {
    match PcOf(s, h)
    case Fresh => 0
    case Checked(_) => 0
    case Registered(_, sid) => if s.sessions[sid].closed then 1 else 0
    case Leaving(had) => if had.Some? then 1 else 0
    case Finished(had) => if had.Some? then 2 else 1
  }

  predicate OwnSession(s: State, h: Handler, sid: SessionID) {
    sid < |s.sessions| && s.sessions[sid].conn == h
  }

  // A registered handler's session is closed or in the registry; one that has left is closed.
  predicate HandlerOk(s: State, h: Handler) {
    var pc := PcOf(s, h);
    && (pc.Registered? ==>
          && OwnSession(s, h, pc.sid)
          && (s.sessions[pc.sid].closed || (pc.node in s.tunnels && s.tunnels[pc.node] == pc.sid)))
    && ((pc.Leaving? || pc.Finished?) && pc.had.Some? ==> OwnSession(s, h, pc.had.value) && s.sessions[pc.had.value].closed)
    && Closes(s, h) == CloseCalls(s, h)
  }

  // A session is its handler's registered one, or was refused and stays open.
  predicate SessionOk(s: State, sid: SessionID)
    requires sid < |s.sessions|
  {
    var pc := PcOf(s, s.sessions[sid].conn);
    match pc
    case Registered(_, sid') => sid' == sid
    case Leaving(x) => x == Some(sid) || (x == None && !s.sessions[sid].closed)
    case Finished(x) => x == Some(sid) || (x == None && !s.sessions[sid].closed)
    case _ => false
  }

  predicate EntryOk(s: State, node: NodeID)
    requires node in s.tunnels
  {
    var sid := s.tunnels[node];
    sid < |s.sessions| && PcOf(s, s.sessions[sid].conn) == Registered(node, sid)
  }

  // What UnregisterCloses left to UnregisterDeletes.
  predicate LockOk(s: State) {
    s.lock.Unregistering? ==>
      var pc := PcOf(s, s.lock.h);
      && pc.Registered? && pc.sid < |s.sessions| && s.sessions[pc.sid].closed
      && (pc.node in s.tunnels ==> s.tunnels[pc.node] < |s.sessions| && s.sessions[s.tunnels[pc.node]].closed)
  }

  ghost predicate ConnInv(s: State) {
    && (forall h: Handler :: HandlerOk(s, h))
    && (forall sid: SessionID | sid < |s.sessions| :: SessionOk(s, sid))
    && (forall node | node in s.tunnels :: EntryOk(s, node))
    && LockOk(s)
  }

  lemma CloseKeepsConns(s: State, node: NodeID)
    requires ConnInv(s) && node in s.tunnels
    ensures s.tunnels[node] < |s.sessions| && ConnInv(CloseSession(s, s.tunnels[node]))
  {
    assert EntryOk(s, node);
    var s' := CloseSession(s, s.tunnels[node]);
    forall h: Handler ensures HandlerOk(s', h) {
      assert HandlerOk(s, h);
    }
    forall sid: SessionID | sid < |s'.sessions| ensures SessionOk(s', sid) {
      assert SessionOk(s, sid);
    }
    assert forall n | n in s.tunnels :: EntryOk(s, n) ==> EntryOk(s', n);
  }

  // Only handler h moved on, with no session closed and no entry added.
  lemma MovesOn(s: State, s': State, h: Handler)
    requires ConnInv(s) && s'.sessions == s.sessions && HandlerOk(s', h) && LockOk(s')
    requires forall g: Handler | g != h :: PcOf(s', g) == PcOf(s, g) && Closes(s', g) == Closes(s, g)
    requires forall node | node in s'.tunnels ::
               node in s.tunnels && s'.tunnels[node] == s.tunnels[node] && (s'.tunnels[node] < |s.sessions| ==> s.sessions[s'.tunnels[node]].conn != h)
    requires forall node | node in s.tunnels && node !in s'.tunnels ::
               s.tunnels[node] < |s.sessions| ==> s.sessions[s.tunnels[node]].closed
    requires forall sid: SessionID | sid < |s.sessions| && s.sessions[sid].conn == h :: SessionOk(s', sid)
    ensures ConnInv(s')
  {
    forall g: Handler ensures HandlerOk(s', g) {
      assert HandlerOk(s, g);
    }
    forall sid: SessionID | sid < |s'.sessions| ensures SessionOk(s', sid) {
      assert SessionOk(s, sid);
    }
    assert forall n | n in s'.tunnels :: EntryOk(s, n) ==> EntryOk(s', n);
  }

  lemma RegisterKeepsConns(s: State, h: Handler)
    requires Enabled(s, Register(h)) && ConnInv(s)
    ensures ConnInv(Apply(s, Register(h)))
  {
    var s' := Apply(s, Register(h));
    assert HandlerOk(s, h);
    assert forall g: Handler | g != h :: PcOf(s', g) == PcOf(s, g);
    forall g: Handler ensures HandlerOk(s', g) {
      assert HandlerOk(s, g);
    }
    forall sid: SessionID | sid < |s'.sessions| ensures SessionOk(s', sid) {
      if sid < |s.sessions| {
        assert SessionOk(s, sid);
      }
    }
    forall n | n in s'.tunnels ensures EntryOk(s', n) {
      if n in s.tunnels {
        assert EntryOk(s, n);
      }
    }
  }

  // Nothing but streams, the lock and entries of closed sessions changed.
  lemma SameConns(s: State, s': State)
    requires ConnInv(s) && LockOk(s') && |s'.sessions| == |s.sessions| && s'.handlers == s.handlers && s'.closes == s.closes
    requires forall i: SessionID | i < |s.sessions| ::
               s'.sessions[i].conn == s.sessions[i].conn && s'.sessions[i].closed == s.sessions[i].closed
    requires s'.tunnels == s.tunnels
             || (s'.tunnels == map[] && forall n | n in s.tunnels :: s.tunnels[n] < |s.sessions| && s.sessions[s.tunnels[n]].closed)
    ensures ConnInv(s')
  {
    forall h: Handler ensures HandlerOk(s', h) {
      assert HandlerOk(s, h);
    }
    forall sid: SessionID | sid < |s'.sessions| ensures SessionOk(s', sid) {
      assert SessionOk(s, sid);
    }
    assert forall n | n in s'.tunnels :: EntryOk(s, n) ==> EntryOk(s', n);
  }

  lemma UnregisterKeepsConns(s: State, h: Handler)
    requires Enabled(s, UnregisterCloses(h)) && ConnInv(s)
    ensures ConnInv(Apply(s, UnregisterCloses(h)))
  {
    var node := PcOf(s, h).node;
    assert HandlerOk(s, h);
    var s1 := s;
    if node in s.tunnels {
      CloseKeepsConns(s, node);
      s1 := CloseSession(s, s.tunnels[node]);
    }
    SameConns(s1, Apply(s, UnregisterCloses(h)));
  }

  lemma BeforeRegistering(s: State, s': State, h: Handler)
    requires ConnInv(s) && PcOf(s, h) == Fresh && s' == s.(handlers := s'.handlers)
    requires PcOf(s', h).Checked? || PcOf(s', h) == Leaving(None)
    requires forall g: Handler | g != h :: PcOf(s', g) == PcOf(s, g)
    ensures ConnInv(s')
  {
    assert HandlerOk(s, h);
    forall sid: SessionID | sid < |s.sessions| ensures s.sessions[sid].conn != h {
      assert SessionOk(s, sid);
    }
    assert forall node | node in s.tunnels :: EntryOk(s, node);
    MovesOn(s, s', h);
  }

  lemma ReturnKeepsConns(s: State, h: Handler)
    requires Enabled(s, Return(h)) && ConnInv(s)
    ensures ConnInv(Apply(s, Return(h)))
  {
    var s' := Apply(s, Return(h));
    assert HandlerOk(s, h);
    forall sid: SessionID | sid < |s.sessions| && s.sessions[sid].conn == h ensures SessionOk(s', sid) {
      assert SessionOk(s, sid);
    }
    assert forall node | node in s.tunnels :: EntryOk(s, node);
    MovesOn(s, s', h);
  }

  lemma LeavingKeepsConns(s: State, h: Handler)
    requires Enabled(s, UnregisterDeletes(h)) && ConnInv(s)
    ensures ConnInv(Apply(s, UnregisterDeletes(h)))
  {
    var s' := Apply(s, UnregisterDeletes(h));
    assert HandlerOk(s, h);
    forall sid: SessionID | sid < |s.sessions| && s.sessions[sid].conn == h ensures SessionOk(s', sid) {
      assert SessionOk(s, sid);
    }
    assert forall node | node in s.tunnels :: EntryOk(s, node);
    MovesOn(s, s', h);
  }

  lemma StreamsKeepConns(s: State, e: Event)
    requires Enabled(s, e) && ConnInv(s) && (e.CreateStream? || e.RemoveStream?)
    ensures ConnInv(Apply(s, e))
  {
    SameConns(s, Apply(s, e));
  }

  lemma ManagerKeepsConns(s: State, e: Event)
    requires Enabled(s, e) && ConnInv(s) && (e.CloseBegins? || e.CloseEnds?)
    ensures ConnInv(Apply(s, e))
  {
    SameConns(s, Apply(s, e));
  }

  lemma StepKeepsConns(s: State, e: Event)
    requires Enabled(s, e) && ConnInv(s)
    ensures ConnInv(Apply(s, e))
  {
    match e
    case Register(h) => RegisterKeepsConns(s, h);
    case UnregisterCloses(h) => UnregisterKeepsConns(s, h);
    case CloseOne(node) => CloseKeepsConns(s, node);
    case Refuse(h) => BeforeRegistering(s, Apply(s, e), h);
    case Check(h, _) => BeforeRegistering(s, Apply(s, e), h);
    case Return(h) => ReturnKeepsConns(s, h);
    case UnregisterDeletes(h) => LeavingKeepsConns(s, h);
    case CreateStream(_, _) => StreamsKeepConns(s, e);
    case RemoveStream(_, _) => StreamsKeepConns(s, e);
    case CloseBegins => ManagerKeepsConns(s, e);
    case CloseEnds => ManagerKeepsConns(s, e);
  }

  /** In every interleaving a connection is closed once by its session, if that is closed, and once
      more by its handler's return: so at most twice, twice exactly when a registered handler has
      returned, and once when a refused one has. */
  lemma {:induction false} ConnectionCloses(states: seq<State>, events: seq<Event>, maxTunnels: int, k: nat)
    requires IsRun(states, events, maxTunnels) && k < |states|
    ensures ConnInv(states[k])
    ensures forall h: Handler ::
              && Closes(states[k], h) <= 2
              && (PcOf(states[k], h).Finished? ==> Closes(states[k], h) == if PcOf(states[k], h).had.Some? then 2 else 1)
    ensures forall i: SessionID | i < |states[k].sessions| ::
              Closes(states[k], states[k].sessions[i].conn) ==
                (if states[k].sessions[i].closed then 1 else 0) + if PcOf(states[k], states[k].sessions[i].conn).Finished? then 1 else 0
  {
    if k > 0 {
      ConnectionCloses(states, events, maxTunnels, k - 1);
      assert Enabled(states[k - 1], events[k - 1]);
      StepKeepsConns(states[k - 1], events[k - 1]);
    }
    CountsAdd(states[k]);
  }

  lemma CountsAdd(s: State)
    requires ConnInv(s)
    ensures forall h: Handler :: Closes(s, h) <= 2 && (PcOf(s, h).Finished? ==> Closes(s, h) == if PcOf(s, h).had.Some? then 2 else 1)
    ensures forall i: SessionID | i < |s.sessions| ::
              Closes(s, s.sessions[i].conn) ==
                (if s.sessions[i].closed then 1 else 0) + if PcOf(s, s.sessions[i].conn).Finished? then 1 else 0
  {
    forall h: Handler
      ensures Closes(s, h) <= 2 && (PcOf(s, h).Finished? ==> Closes(s, h) == if PcOf(s, h).had.Some? then 2 else 1)
    {
      assert HandlerOk(s, h);
    }
    forall i: SessionID | i < |s.sessions|
      ensures Closes(s, s.sessions[i].conn) ==
                (if s.sessions[i].closed then 1 else 0) + if PcOf(s, s.sessions[i].conn).Finished? then 1 else 0
    {
      assert SessionOk(s, i) && HandlerOk(s, s.sessions[i].conn);
    }
  }

  // ---------- A handler unregisters its own session ----------

  predicate Owns(s: State, h: Handler) {
    PcOf(s, h).Registered? && PcOf(s, h).node in s.tunnels && s.tunnels[PcOf(s, h).node] == PcOf(s, h).sid
  }

  ghost predicate OwnershipInv(s: State) {
    && (forall node | node in s.tunnels :: s.tunnels[node] < |s.sessions|)
    && (forall h: Handler | PcOf(s, h).Registered? :: Owns(s, h))
    && (forall h: Handler, h': Handler
          | PcOf(s, h).Registered? && PcOf(s, h').Registered? && PcOf(s, h).sid == PcOf(s, h').sid :: h == h')
  }

  ghost predicate AnyRegistered(s: State) {
    exists h: Handler :: PcOf(s, h).Registered?
  }

  /** Every step keeps ownership, except exactly a Close that empties the registry while some handler
      has not unregistered. */
  lemma StepKeepsOwnershipExactly(s: State, e: Event)
    requires Enabled(s, e) && OwnershipInv(s)
    ensures OwnershipInv(Apply(s, e)) <==> !(e == CloseEnds && AnyRegistered(s))
  {
    if e.Register? {
      RegisterKeepsOwnership(s, e.h);
    } else if e == CloseEnds {
      EmptyingKeepsOwnershipExactly(s);
    } else {
      OthersKeepOwnership(s, e);
    }
  }

  lemma EmptyingKeepsOwnershipExactly(s: State)
    requires Enabled(s, CloseEnds) && OwnershipInv(s)
    ensures OwnershipInv(Apply(s, CloseEnds)) <==> !AnyRegistered(s)
  {
    var s' := Apply(s, CloseEnds);
    assert forall h: Handler :: PcOf(s', h) == PcOf(s, h) && !Owns(s', h);
  }

  lemma OthersKeepOwnership(s: State, e: Event)
    requires Enabled(s, e) && OwnershipInv(s) && e != CloseEnds && !e.Register?
    ensures OwnershipInv(Apply(s, e))
  {
    var s' := Apply(s, e);
    forall h: Handler | PcOf(s', h).Registered?
      ensures PcOf(s', h) == PcOf(s, h) && Owns(s', h)
    {
      assert PcOf(s', h) == PcOf(s, h) && Owns(s, h);
    }
  }

  lemma RegisterKeepsOwnership(s: State, h: Handler)
    requires Enabled(s, Register(h)) && OwnershipInv(s)
    ensures OwnershipInv(Apply(s, Register(h)))
  {
    var s' := Apply(s, Register(h));
    forall k: Handler | PcOf(s', k).Registered? && k != h
      ensures PcOf(s', k) == PcOf(s, k) && Owns(s', k) && PcOf(s', k).sid < |s.sessions|
    {
      assert PcOf(s', k) == PcOf(s, k) && Owns(s, k);
    }
  }

  /** As long as the manager's Close never emptied the registry under a registered handler, a
      handler's deferred Unregister closes and removes exactly the session that it registered. */
  lemma {:induction false} UnregistersOwnSession(states: seq<State>, events: seq<Event>, maxTunnels: int, k: nat)
    requires IsRun(states, events, maxTunnels) && k < |states|
    requires forall m | 0 <= m < k :: !(events[m] == CloseEnds && AnyRegistered(states[m]))
    ensures OwnershipInv(states[k])
    ensures k < |events| && (events[k].UnregisterCloses? || events[k].UnregisterDeletes?) ==> Owns(states[k], events[k].h)
  {
    if k > 0 {
      UnregistersOwnSession(states, events, maxTunnels, k - 1);
      assert Enabled(states[k - 1], events[k - 1]);
      StepKeepsOwnershipExactly(states[k - 1], events[k - 1]);
    }
    assert k < |events| ==> Enabled(states[k], events[k]);
  }

  /** After Close it does not hold: from any state in which Close is about to empty the registry
      and handler a has not returned, the same node can register again through b, and a's
      Unregister then closes b's session while b still serves it. */
  lemma CloseBreaksOwnership(s: State, a: Handler, b: Handler)
    requires Enabled(s, CloseEnds) && s.maxTunnels >= 1
    requires PcOf(s, a).Registered? && PcOf(s, b) == Fresh
    ensures
      var node := PcOf(s, a).node;
      var emptied := Apply(s, CloseEnds);
      var again := Apply(Apply(emptied, Check(b, node)), Register(b));
      && Owns(again, b) && IsConnected(again, node)
      && var end := Apply(again, UnregisterCloses(a));
         PcOf(end, b) == Registered(node, |s.sessions|) && end.sessions[|s.sessions|].closed
  {
    var node := PcOf(s, a).node;
    var emptied := Apply(s, CloseEnds);
    var checked := Apply(emptied, Check(b, node));
    assert PcOf(checked, b) == Checked(node) && PcOf(checked, a) == PcOf(s, a);
    var again := Apply(checked, Register(b));
    assert PcOf(again, b) == Registered(node, |s.sessions|) && PcOf(again, a) == PcOf(s, a);
  }

  // ---------- Capacity ----------

  function Waiting(s: State): set<Handler> {
    set h | h in s.handlers && s.handlers[h].Checked?
  }

  ghost predicate CapacityInv(s: State, K: nat) {
    (|s.tunnels| == 0 && Waiting(s) == {}) || |s.tunnels| + |Waiting(s)| <= s.maxTunnels - 1 + K
  }

  lemma CheckKeepsCapacity(s: State, h: Handler, node: NodeID, K: nat)
    requires Enabled(s, Check(h, node)) && CapacityInv(s, K) && |Waiting(Apply(s, Check(h, node)))| <= K
    ensures CapacityInv(Apply(s, Check(h, node)), K)
  {
    assert |s.tunnels| >= s.maxTunnels ==> Waiting(Apply(s, Check(h, node))) == Waiting(s);
  }

  lemma RegisterKeepsCapacity(s: State, h: Handler, K: nat)
    requires Enabled(s, Register(h)) && CapacityInv(s, K)
    ensures CapacityInv(Apply(s, Register(h)), K)
  {
    var s', node := Apply(s, Register(h)), PcOf(s, h).node;
    assert h in Waiting(s) && Waiting(s') == Waiting(s) - {h};
    assert node !in s.tunnels ==> s'.tunnels.Keys == s.tunnels.Keys + {node};
  }

  lemma SameWaiting(s: State, s': State)
    requires forall h: Handler :: PcOf(s', h).Checked? <==> PcOf(s, h).Checked?
    ensures Waiting(s') == Waiting(s)
  {
    assert forall h: Handler :: h in Waiting(s) <==> PcOf(s, h).Checked?;
    assert forall h: Handler :: h in Waiting(s') <==> PcOf(s', h).Checked?;
  }

  lemma OthersKeepCapacity(s: State, s': State, K: nat)
    requires CapacityInv(s, K) && s'.maxTunnels == s.maxTunnels && s'.tunnels.Keys <= s.tunnels.Keys
    requires forall h: Handler :: PcOf(s', h).Checked? <==> PcOf(s, h).Checked?
    ensures CapacityInv(s', K)
  {
    SameWaiting(s, s');
    SmallerSet(s'.tunnels.Keys, s.tunnels.Keys);
    assert |s'.tunnels| == |s'.tunnels.Keys| && |s.tunnels| == |s.tunnels.Keys|;
  }

  lemma OthersKeepTunnels(s: State, e: Event)
    requires Enabled(s, e) && !e.Check? && !e.Register?
    ensures Apply(s, e).maxTunnels == s.maxTunnels && Apply(s, e).tunnels.Keys <= s.tunnels.Keys
    ensures forall h: Handler :: PcOf(Apply(s, e), h).Checked? <==> PcOf(s, h).Checked?
  {
  }

  lemma StepKeepsCapacity(s: State, e: Event, K: nat)
    requires Enabled(s, e) && CapacityInv(s, K) && |Waiting(Apply(s, e))| <= K
    ensures CapacityInv(Apply(s, e), K) && Apply(s, e).maxTunnels == s.maxTunnels
  {
    if e.Check? {
      CheckKeepsCapacity(s, e.h, e.node, K);
    } else if e.Register? {
      RegisterKeepsCapacity(s, e.h, K);
    } else {
      OthersKeepTunnels(s, e);
      OthersKeepCapacity(s, Apply(s, e), K);
    }
  }

  lemma SmallerSet<T>(a: set<T>, b: set<T>)
    requires a <= b
    ensures |a| <= |b|
  {
    assert |b| == |a| + |b - a| by { assert b == a + (b - a); }
  }

  /** The check and the registration are separate, so the limit can be passed, but not by more
      than the number of handlers that can be between the two: with at most K of them at any
      time there are never more than maxTunnels - 1 + K tunnels. */
  lemma {:induction false} CapacityBound(states: seq<State>, events: seq<Event>, maxTunnels: int, K: nat, k: nat)
    requires IsRun(states, events, maxTunnels) && k < |states| && 1 <= K
    requires forall m | 0 <= m <= k :: |Waiting(states[m])| <= K
    ensures CapacityInv(states[k], K) && states[k].maxTunnels == maxTunnels
    ensures |states[k].tunnels| <= Max(0, maxTunnels - 1 + K)
  {
    if k > 0 {
      CapacityBound(states, events, maxTunnels, K, k - 1);
      assert Enabled(states[k - 1], events[k - 1]);
      StepKeepsCapacity(states[k - 1], events[k - 1], K);
    }
  }

  // Handlers, all different, for nodes that are all different and not registered.
  predicate Different(s: State, hs: seq<Handler>, nodes: seq<NodeID>) {
    && s.lock == Free && |hs| == |nodes|
    && (forall i | 0 <= i < |hs| :: nodes[i] !in s.tunnels)
    && (forall i, j | 0 <= i < j < |hs| :: hs[i] != hs[j] && nodes[i] != nodes[j])
  }

  predicate AllFresh(s: State, hs: seq<Handler>) {
    forall i | 0 <= i < |hs| :: PcOf(s, hs[i]) == Fresh
  }

  predicate AllChecked(s: State, hs: seq<Handler>, nodes: seq<NodeID>) {
    |hs| == |nodes| && forall i | 0 <= i < |hs| :: PcOf(s, hs[i]) == Checked(nodes[i])
  }

  lemma CheckAdmits(s: State, hs: seq<Handler>, nodes: seq<NodeID>)
    requires hs != [] && Different(s, hs, nodes) && AllFresh(s, hs) && |s.tunnels| < s.maxTunnels
    ensures
      var s' := Apply(s, Check(hs[0], nodes[0]));
      && s'.tunnels == s.tunnels && s'.maxTunnels == s.maxTunnels && PcOf(s', hs[0]) == Checked(nodes[0])
      && Different(s', hs[1..], nodes[1..]) && AllFresh(s', hs[1..])
  {
  }

  function CheckAll(s: State, hs: seq<Handler>, nodes: seq<NodeID>): State
    requires Different(s, hs, nodes) && AllFresh(s, hs) && |s.tunnels| < s.maxTunnels
    decreases |hs|
  {
    if hs == [] then s
    else
      CheckAdmits(s, hs, nodes);
      CheckAll(Apply(s, Check(hs[0], nodes[0])), hs[1..], nodes[1..])
  }

  lemma {:induction false} CheckAllAdmits(s: State, hs: seq<Handler>, nodes: seq<NodeID>)
    requires Different(s, hs, nodes) && AllFresh(s, hs) && |s.tunnels| < s.maxTunnels
    ensures
      var s' := CheckAll(s, hs, nodes);
      && s'.tunnels == s.tunnels && Different(s', hs, nodes) && AllChecked(s', hs, nodes)
      && forall h: Handler | h !in hs :: PcOf(s', h) == PcOf(s, h)
    decreases |hs|
  {
    if hs != [] {
      CheckAdmits(s, hs, nodes);
      var s1 := Apply(s, Check(hs[0], nodes[0]));
      CheckAllAdmits(s1, hs[1..], nodes[1..]);
      FirstStays(s1, CheckAll(s1, hs[1..], nodes[1..]), hs, nodes);
      assert forall h: Handler | h !in hs :: h !in hs[1..] && PcOf(s1, h) == PcOf(s, h);
    }
  }

  lemma FirstStays(s1: State, s': State, hs: seq<Handler>, nodes: seq<NodeID>)
    requires hs != [] && Different(s1, hs, nodes) && PcOf(s1, hs[0]) == Checked(nodes[0])
    requires AllChecked(s', hs[1..], nodes[1..]) && forall h: Handler | h !in hs[1..] :: PcOf(s', h) == PcOf(s1, h)
    ensures AllChecked(s', hs, nodes)
  {
    assert hs[0] !in hs[1..];
    assert forall i | 0 < i < |hs| :: hs[i] == hs[1..][i - 1] && nodes[i] == nodes[1..][i - 1];
  }

  lemma RegisterAdmits(s: State, hs: seq<Handler>, nodes: seq<NodeID>)
    requires hs != [] && Different(s, hs, nodes) && AllChecked(s, hs, nodes)
    ensures
      var s' := Apply(s, Register(hs[0]));
      && |s'.tunnels| == |s.tunnels| + 1 && Different(s', hs[1..], nodes[1..]) && AllChecked(s', hs[1..], nodes[1..])
  {
    OneMore(s.tunnels, nodes[0], |s.sessions|);
  }

  lemma OneMore(m: map<NodeID, SessionID>, node: NodeID, sid: SessionID)
    requires node !in m
    ensures |m[node := sid]| == |m| + 1
  {
    assert m[node := sid].Keys == m.Keys + {node};
  }

  function RegisterAll(s: State, hs: seq<Handler>, nodes: seq<NodeID>): State
    requires Different(s, hs, nodes) && AllChecked(s, hs, nodes)
    decreases |hs|
  {
    if hs == [] then s
    else
      RegisterAdmits(s, hs, nodes);
      RegisterAll(Apply(s, Register(hs[0])), hs[1..], nodes[1..])
  }

  lemma {:induction false} RegisterAllAdmits(s: State, hs: seq<Handler>, nodes: seq<NodeID>)
    requires Different(s, hs, nodes) && AllChecked(s, hs, nodes)
    ensures |RegisterAll(s, hs, nodes).tunnels| == |s.tunnels| + |hs|
    decreases |hs|
  {
    if hs != [] {
      RegisterAdmits(s, hs, nodes);
      RegisterAllAdmits(Apply(s, Register(hs[0])), hs[1..], nodes[1..]);
    }
  }

  /** The bound is reached for every K: from any state with one place left, K handlers that check
      before any of them registers all get in. */
  lemma CapacityBoundIsReached(s: State, hs: seq<Handler>, nodes: seq<NodeID>)
    requires Different(s, hs, nodes) && AllFresh(s, hs) && |s.tunnels| == s.maxTunnels - 1
    ensures
      var checked := CheckAll(s, hs, nodes);
      && Different(checked, hs, nodes) && AllChecked(checked, hs, nodes)
      && |RegisterAll(checked, hs, nodes).tunnels| == s.maxTunnels - 1 + |hs|
  {
    CheckAllAdmits(s, hs, nodes);
    RegisterAllAdmits(CheckAll(s, hs, nodes), hs, nodes);
  }
}
