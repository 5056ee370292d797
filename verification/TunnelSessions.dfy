/**
 Tunnel sessions and their streams (internal/tunnel/tunnel.go) under the goroutines that use
 them (internal/tunnel/server.go): connection handlers that check the capacity, register,
 unregister and on return close their connection; forwarders that create and remove streams,
 under numbers that may repeat; the message loop that removes a stream at its end marker; and the
 manager's Close. Each step below is what one goroutine does under one lock; the manager's lock
 stays held across Unregister and Close, the session's lock does not, so stream steps fall in
 between.
 */
module TunnelSessions {
  import opened GoText

  type NodeID = string
  type SessionID = nat   // index of the session in creation order
  type StreamID = nat    // index of the stream in creation order, not its number on the wire
  type Handler = nat     // a connection and the goroutine that handles it

  datatype Session = Session(node: NodeID, conn: Handler, closed: bool, streams: map<uint32, StreamID>)

  datatype HandlerPc =
    | Fresh
    | Checked(node: NodeID)                    // between the capacity check and Register
    | Registered(node: NodeID, sid: SessionID)
    | Leaving(had: Option<SessionID>)          // about to close the connection; its session if registered
    | Finished(had: Option<SessionID>)

  datatype ManagerLock = Free | Unregistering(h: Handler) | Closing

  // dones[x] counts how often stream x's Done was closed; a second time would panic. closes[h]
  // counts the Close calls on connection h. `orphans` is a history variable: the streams whose map
  // entry a later stream took over.
  datatype State = State(
    maxTunnels: int,
    tunnels: map<NodeID, SessionID>,
    sessions: seq<Session>,
    dones: seq<nat>,
    orphans: set<StreamID>,
    closes: map<Handler, nat>,
    lock: ManagerLock,
    handlers: map<Handler, HandlerPc>)

  function Init(maxTunnels: int): State {
    State(maxTunnels, map[], [], [], {}, map[], Free, map[])
  }

  function PcOf(s: State, h: Handler): HandlerPc {
    if h in s.handlers then s.handlers[h] else Fresh
  }

  function Closes(s: State, h: Handler): nat {
    if h in s.closes then s.closes[h] else 0
  }

  datatype Event =
    | Refuse(h: Handler)                  // no valid registration message
    | Check(h: Handler, node: NodeID)
    | Register(h: Handler)
    | UnregisterCloses(h: Handler)
    | UnregisterDeletes(h: Handler)
    | Return(h: Handler)
    | CreateStream(sid: SessionID, id: uint32)
    | RemoveStream(sid: SessionID, id: uint32)
    | CloseBegins
    | CloseOne(node: NodeID)
    | CloseEnds

  predicate Enabled(s: State, e: Event) {
    match e
    case Refuse(h) => PcOf(s, h) == Fresh
    case Check(h, _) => s.lock == Free && PcOf(s, h) == Fresh
    case Register(h) => s.lock == Free && PcOf(s, h).Checked?
    case UnregisterCloses(h) => s.lock == Free && PcOf(s, h).Registered?
    case UnregisterDeletes(h) => s.lock == Unregistering(h) && PcOf(s, h).Registered?
    case Return(h) => PcOf(s, h).Leaving?
    case CreateStream(sid, _) => sid < |s.sessions|
    case RemoveStream(sid, _) => sid < |s.sessions|
    case CloseBegins => s.lock == Free
    case CloseOne(node) => s.lock == Closing && node in s.tunnels && s.tunnels[node] < |s.sessions|
    case CloseEnds =>
      s.lock == Closing &&
      forall node | node in s.tunnels :: s.tunnels[node] < |s.sessions| && s.sessions[s.tunnels[node]].closed
  }

  // The map entries that hold stream x.
  function Slots(streams: map<uint32, StreamID>, x: StreamID): set<uint32> {
    set id | id in streams && streams[id] == x
  }

  // TunnelSession.Close
  function CloseSession(s: State, sid: SessionID): State
    requires sid < |s.sessions|
  {
    var t := s.sessions[sid];
    if t.closed then s
    else s.(sessions := s.sessions[sid := t.(closed := true, streams := map[])],
            closes := s.closes[t.conn := Closes(s, t.conn) + 1],
            dones := seq(|s.dones|, x requires 0 <= x < |s.dones| => s.dones[x] + |Slots(t.streams, x)|))
  }

  function Apply(s: State, e: Event): State
    requires Enabled(s, e)
  {
    match e
    case Refuse(h) => s.(handlers := s.handlers[h := Leaving(None)])
    case Check(h, node) =>
      s.(handlers := s.handlers[h := if |s.tunnels| >= s.maxTunnels then Leaving(None) else Checked(node)])
    case Register(h) =>
      var node := PcOf(s, h).node;
      var s1 := s.(sessions := s.sessions + [Session(node, h, false, map[])]);
      if node in s.tunnels then s1.(handlers := s.handlers[h := Leaving(None)])
      else s1.(tunnels := s.tunnels[node := |s.sessions|],
               handlers := s.handlers[h := Registered(node, |s.sessions|)])
    case UnregisterCloses(h) =>
      var node := PcOf(s, h).node;
      (if node in s.tunnels && s.tunnels[node] < |s.sessions| then CloseSession(s, s.tunnels[node]) else s)
      .(lock := Unregistering(h))
    case UnregisterDeletes(h) =>
      s.(tunnels := s.tunnels - {PcOf(s, h).node}, lock := Free, handlers := s.handlers[h := Leaving(Some(PcOf(s, h).sid))])
    case Return(h) =>
      s.(closes := s.closes[h := Closes(s, h) + 1], handlers := s.handlers[h := Finished(PcOf(s, h).had)])
    case CreateStream(sid, id) =>
      var t, x := s.sessions[sid], |s.dones|;
      s.(dones := s.dones + [0],
         orphans := s.orphans + (if id in t.streams then {t.streams[id]} else {}),
         sessions := s.sessions[sid := t.(streams := t.streams[id := x])])
    case RemoveStream(sid, id) =>
      var t := s.sessions[sid];
      if id !in t.streams || t.streams[id] >= |s.dones| then s
      else s.(dones := s.dones[t.streams[id] := s.dones[t.streams[id]] + 1],
              sessions := s.sessions[sid := t.(streams := t.streams - {id})])
    case CloseBegins => s.(lock := Closing)
    case CloseOne(node) => CloseSession(s, s.tunnels[node])
    case CloseEnds => s.(tunnels := map[], lock := Free)
  }

  ghost predicate IsRun(states: seq<State>, events: seq<Event>, maxTunnels: int) {
    && |states| == |events| + 1
    && states[0] == Init(maxTunnels)
    && forall k {:trigger events[k]} | 0 <= k < |events| ::
         Enabled(states[k], events[k]) && states[k + 1] == Apply(states[k], events[k])
  }

  // ---------- Every Done is closed at most once ----------

  // Stream x is in the map of session sid under number id.
  predicate At(s: State, x: StreamID, sid: SessionID, id: uint32) {
    sid < |s.sessions| && id in s.sessions[sid].streams && s.sessions[sid].streams[id] == x
  }

  ghost predicate Live(s: State, x: StreamID) {
    exists sid: SessionID, id: uint32 :: At(s, x, sid, id)
  }

  ghost predicate StreamInv(s: State) {
    && (forall x: StreamID, sid: SessionID, id: uint32 | At(s, x, sid, id) :: x < |s.dones| && x !in s.orphans)
    && (forall x: StreamID, sid: SessionID, id: uint32, sid': SessionID, id': uint32
          | At(s, x, sid, id) && At(s, x, sid', id') :: sid == sid' && id == id')
    && (forall x: StreamID | x < |s.dones| :: s.dones[x] == if x in s.orphans || Live(s, x) then 0 else 1)
    && (forall x | x in s.orphans :: x < |s.dones|)
  }

  lemma CloseSessionKeepsStreams(s: State, sid: SessionID)
    requires StreamInv(s) && sid < |s.sessions|
    ensures StreamInv(CloseSession(s, sid))
  {
    var t, s' := s.sessions[sid], CloseSession(s, sid);
    if !t.closed {
      assert forall x: StreamID, sid1: SessionID, id: uint32 ::
          At(s', x, sid1, id) <==> sid1 != sid && At(s, x, sid1, id);
      forall x: StreamID | x < |s.dones|
        ensures s'.dones[x] == if x in s'.orphans || Live(s', x) then 0 else 1
      {
        assert forall id: uint32 :: id in Slots(t.streams, x) <==> At(s, x, sid, id);
        if id: uint32 :| At(s, x, sid, id) {
          assert Slots(t.streams, x) == {id};
          assert Live(s, x) && !Live(s', x);
        } else {
          assert Slots(t.streams, x) == {};
          assert Live(s, x) <==> Live(s', x);
        }
      }
    }
  }

  lemma CreateKeepsStreams(s: State, sid: SessionID, id: uint32)
    requires StreamInv(s) && sid < |s.sessions|
    ensures StreamInv(Apply(s, CreateStream(sid, id)))
  {
    var t, x0 := s.sessions[sid], |s.dones|;
    var s' := Apply(s, CreateStream(sid, id));
    forall x: StreamID, sid1: SessionID, id1: uint32
      ensures At(s', x, sid1, id1) <==>
        if sid1 == sid && id1 == id then x == x0 else At(s, x, sid1, id1)
    {
    }
    assert At(s', x0, sid, id);
    if id in t.streams {
      assert At(s, t.streams[id], sid, id);
    }
    forall x: StreamID | x < |s.dones|
      ensures x in s'.orphans || Live(s', x) <==> x in s.orphans || Live(s, x)
    {
      if sid1: SessionID, id1: uint32 :| At(s, x, sid1, id1) {
        assert At(s', x, sid1, id1) || x in s'.orphans;
      } else {
        assert !At(s, x, sid, id);
      }
    }
  }

  lemma RemoveKeepsStreams(s: State, sid: SessionID, id: uint32)
    requires StreamInv(s) && sid < |s.sessions|
    ensures StreamInv(Apply(s, RemoveStream(sid, id)))
  {
    var t, s' := s.sessions[sid], Apply(s, RemoveStream(sid, id));
    if id in t.streams {
      var x0 := t.streams[id];
      assert At(s, x0, sid, id);
      assert forall x: StreamID, sid1: SessionID, id1: uint32 ::
          At(s', x, sid1, id1) <==> At(s, x, sid1, id1) && !(sid1 == sid && id1 == id);
      forall x: StreamID | x < |s.dones|
        ensures s'.dones[x] == if x in s'.orphans || Live(s', x) then 0 else 1
      {
        if x != x0 && Live(s, x) {
          var sid1: SessionID, id1: uint32 :| At(s, x, sid1, id1);
          assert At(s', x, sid1, id1);
        }
      }
    }
  }

  lemma StepKeepsStreams(s: State, e: Event)
    requires Enabled(s, e) && StreamInv(s)
    ensures StreamInv(Apply(s, e))
  {
    var s' := Apply(s, e);
    match e
    case CreateStream(sid, id) => CreateKeepsStreams(s, sid, id);
    case RemoveStream(sid, id) => RemoveKeepsStreams(s, sid, id);
    case CloseOne(node) => CloseSessionKeepsStreams(s, s.tunnels[node]);
    case UnregisterCloses(h) =>
      var node := PcOf(s, h).node;
      var c := if node in s.tunnels && s.tunnels[node] < |s.sessions| then CloseSession(s, s.tunnels[node]) else s;
      if node in s.tunnels && s.tunnels[node] < |s.sessions| {
        CloseSessionKeepsStreams(s, s.tunnels[node]);
      }
      SameStreams(c, s');
    case _ => SameStreams(s, s');
  }

  // Nothing but sessions without streams was added.
  lemma SameStreams(s: State, s': State)
    requires StreamInv(s) && s'.dones == s.dones && s'.orphans == s.orphans
    requires |s.sessions| <= |s'.sessions| && s'.sessions[..|s.sessions|] == s.sessions
    requires forall i | |s.sessions| <= i < |s'.sessions| ::
               s'.sessions[i].streams == map[]
    ensures StreamInv(s')
  {
    assert forall i | 0 <= i < |s.sessions| :: s'.sessions[i] == s'.sessions[..|s.sessions|][i];
    assert forall x: StreamID, sid: SessionID, id: uint32 :: At(s', x, sid, id) <==> At(s, x, sid, id);
    assert forall x: StreamID :: Live(s', x) <==> Live(s, x);
  }

  /** In every interleaving, whatever numbers the streams get: a stream's Done has been closed once
      if the stream has left its session's map, and not at all while it is there or when another
      stream took over its number. */
  lemma {:induction false} DoneClosedAtMostOnce(states: seq<State>, events: seq<Event>, maxTunnels: int, k: nat)
    requires IsRun(states, events, maxTunnels) && k < |states|
    ensures StreamInv(states[k])
    ensures forall x | 0 <= x < |states[k].dones| :: states[k].dones[x] <= 1
  {
    if k > 0 {
      DoneClosedAtMostOnce(states, events, maxTunnels, k - 1);
      assert Enabled(states[k - 1], events[k - 1]);
      StepKeepsStreams(states[k - 1], events[k - 1]);
    } else {
      assert forall x: StreamID, sid: SessionID, id: uint32 :: !At(states[0], x, sid, id);
    }
  }

  // ---------- Being registered is being connected ----------

  predicate IsConnected(s: State, node: NodeID) {
    node in s.tunnels && s.tunnels[node] < |s.sessions| && !s.sessions[s.tunnels[node]].closed
  }

  // The node whose entry the holder of the lock may have closed already.
  predicate MayBeClosed(s: State, node: NodeID) {
    s.lock == Closing || (s.lock.Unregistering? && PcOf(s, s.lock.h).Registered? && PcOf(s, s.lock.h).node == node)
  }

  ghost predicate RegistryInv(s: State) {
    && (forall node | node in s.tunnels ::
          s.tunnels[node] < |s.sessions| && s.sessions[s.tunnels[node]].node == node)
    && (forall node | node in s.tunnels && !MayBeClosed(s, node) :: IsConnected(s, node))
    && (s.lock.Unregistering? ==> PcOf(s, s.lock.h).Registered?)
  }

  lemma CloseKeepsRegistry(s: State, s': State, gone: SessionID)
    requires RegistryInv(s) && s'.tunnels == s.tunnels && |s'.sessions| == |s.sessions|
    requires forall i: SessionID | i < |s.sessions| ::
               s'.sessions[i].node == s.sessions[i].node && (i != gone ==> s'.sessions[i].closed == s.sessions[i].closed)
    requires forall node | node in s.tunnels && !MayBeClosed(s', node) :: s.tunnels[node] != gone && !MayBeClosed(s, node)
    requires s'.lock.Unregistering? ==> PcOf(s', s'.lock.h).Registered?
    ensures RegistryInv(s')
  {
    assert forall node | node in s'.tunnels && !MayBeClosed(s', node) :: IsConnected(s, node);
  }

  lemma SessionStepKeepsRegistry(s: State, e: Event)
    requires Enabled(s, e) && RegistryInv(s)
    requires e.UnregisterCloses? || e.CloseOne? || e.CreateStream? || e.RemoveStream?
    ensures RegistryInv(Apply(s, e))
  {
    var s' := Apply(s, e);
    var gone :=
      match e
      case UnregisterCloses(h) => if PcOf(s, h).node in s.tunnels then s.tunnels[PcOf(s, h).node] else |s.sessions|
      case CloseOne(node) => s.tunnels[node]
      case _ => |s.sessions|;
    CloseKeepsRegistry(s, s', gone);
  }

  lemma RegisterKeepsRegistry(s: State, h: Handler)
    requires Enabled(s, Register(h)) && RegistryInv(s)
    ensures RegistryInv(Apply(s, Register(h)))
  {
    assert forall node | node in s.tunnels :: IsConnected(s, node);
  }

  lemma UnregisterKeepsRegistry(s: State, h: Handler)
    requires Enabled(s, UnregisterDeletes(h)) && RegistryInv(s)
    ensures RegistryInv(Apply(s, UnregisterDeletes(h)))
  {
    assert forall node | node in s.tunnels && node != PcOf(s, h).node :: IsConnected(s, node);
  }

  lemma StepKeepsRegistry(s: State, e: Event)
    requires Enabled(s, e) && RegistryInv(s)
    ensures RegistryInv(Apply(s, e))
  {
    match e
    case Register(h) => RegisterKeepsRegistry(s, h);
    case UnregisterDeletes(h) => UnregisterKeepsRegistry(s, h);
    case Check(_, _) => assert forall node | node in s.tunnels :: IsConnected(s, node);
    case Refuse(_) => CloseKeepsRegistry(s, Apply(s, e), |s.sessions|);
    case Return(_) => CloseKeepsRegistry(s, Apply(s, e), |s.sessions|);
    case CloseBegins =>
    case CloseEnds =>
    case _ => SessionStepKeepsRegistry(s, e);
  }

  /** Whenever the manager can be asked, a node is connected exactly when it is registered. */
  lemma {:induction false} ConnectedIffRegistered(states: seq<State>, events: seq<Event>, maxTunnels: int, k: nat)
    requires IsRun(states, events, maxTunnels) && k < |states|
    ensures RegistryInv(states[k])
    ensures states[k].lock == Free ==> forall node :: IsConnected(states[k], node) <==> node in states[k].tunnels
  {
    if k > 0 {
      ConnectedIffRegistered(states, events, maxTunnels, k - 1);
      assert Enabled(states[k - 1], events[k - 1]);
      StepKeepsRegistry(states[k - 1], events[k - 1]);
    }
  }
}
