/**
 Several goroutines writing to one tunnel connection (connAdapter in internal/tunnel/server.go).
 WriteMessage makes two writes, header and payload, or one when there is no payload; the
 adapter's mutex is meant to keep the two together. The server writes the registration reply to
 the connection directly, past the mutex, when forwarders can use the adapter already.
 */
module TunnelWriters {
  import opened GoText
  import opened TunnelFrames

  type Writer = nat

  datatype Pc =
    | Out
    | Started(msg: Message)      // inside WriteMessage, nothing written
    | HeaderSent(msg: Message)   // its payload is still to be written

  // `log` is a history variable: the messages in the order in which their last byte was written.
  datatype State = State(wire: seq<byte>, mutex: Option<Writer>, pcs: map<Writer, Pc>, log: seq<Message>)

  const Init: State := State([], None, map[], [])

  // The last write of a message includes the unlock, if it was this writer that locked.
  datatype Event =
    | Lock(w: Writer, msg: Message)       // connAdapter.WriteMessage takes the mutex
    | Bypass(w: Writer, msg: Message)     // WriteMessage called on the connection itself
    | SendHeader(w: Writer)
    | SendPayload(w: Writer)

  function PcOf(s: State, w: Writer): Pc {
    if w in s.pcs then s.pcs[w] else Out
  }

  predicate Enabled(s: State, e: Event) {
    match e
    case Lock(w, msg) => PcOf(s, w) == Out && s.mutex == None && Sound(msg)
    case Bypass(w, msg) => PcOf(s, w) == Out && Sound(msg)
    case SendHeader(w) => PcOf(s, w).Started? && Sound(PcOf(s, w).msg)
    case SendPayload(w) => PcOf(s, w).HeaderSent? && Sound(PcOf(s, w).msg)
  }

  // The writer has written all of msg, the last of it `bytes`.
  function Completed(s: State, w: Writer, msg: Message, bytes: seq<byte>): State {
    State(s.wire + bytes, if s.mutex == Some(w) then None else s.mutex, s.pcs[w := Out], s.log + [msg])
  }

  function Apply(s: State, e: Event): State
    requires Enabled(s, e)
  {
    match e
    case Lock(w, msg) => s.(mutex := Some(w), pcs := s.pcs[w := Started(msg)])
    case Bypass(w, msg) => s.(pcs := s.pcs[w := Started(msg)])
    case SendHeader(w) =>
      var msg := PcOf(s, w).msg;
      if msg.payload == [] then Completed(s, w, msg, EncodeHeader(msg.header))
      else s.(wire := s.wire + EncodeHeader(msg.header), pcs := s.pcs[w := HeaderSent(msg)])
    case SendPayload(w) => Completed(s, w, PcOf(s, w).msg, PcOf(s, w).msg.payload)
  }

  ghost predicate IsRun(states: seq<State>, events: seq<Event>) {
    && |states| == |events| + 1
    && states[0] == Init
    && forall k {:trigger events[k]} | 0 <= k < |events| ::
         Enabled(states[k], events[k]) && states[k + 1] == Apply(states[k], events[k])
  }

  // ---------- Runs in which no message is torn ----------

  predicate HeaderOut(s: State, w: Writer) {
    PcOf(s, w).HeaderSent?
  }

  // Nothing is written while another writer's header waits for its payload.
  ghost predicate Untorn(s: State, e: Event) {
    (e.SendHeader? || e.SendPayload?) ==> forall w: Writer | w != e.w :: !HeaderOut(s, w)
  }

  // The wire is the log plus, if a writer's header is out, that header.
  ghost predicate Inv(s: State) {
    && AllSound(s.log)
    && (forall w: Writer, v: Writer | HeaderOut(s, w) && HeaderOut(s, v) :: w == v)
    && (forall w: Writer | HeaderOut(s, w) ::
          && Sound(PcOf(s, w).msg) && PcOf(s, w).msg.payload != []
          && s.wire == EncodeAll(s.log) + EncodeHeader(PcOf(s, w).msg.header))
    && ((forall w: Writer :: !HeaderOut(s, w)) ==> s.wire == EncodeAll(s.log))
  }

  // A message written whole behind the log.
  lemma CompletedKeepsInv(s: State, w: Writer, msg: Message, bytes: seq<byte>)
    requires AllSound(s.log) && Sound(msg) && s.wire + bytes == EncodeAll(s.log) + Encode(msg)
    requires forall v: Writer | v != w :: !HeaderOut(s, v)
    ensures Inv(Completed(s, w, msg, bytes))
  {
    var s' := Completed(s, w, msg, bytes);
    EncodeAllSnoc(s.log, msg);
    forall v: Writer ensures !HeaderOut(s', v) {
      assert v != w ==> !HeaderOut(s, v);
    }
  }

  lemma StepKeepsInv(s: State, e: Event)
    requires Enabled(s, e) && Inv(s) && Untorn(s, e)
    ensures Inv(Apply(s, e))
  {
    var s' := Apply(s, e);
    match e
    case SendPayload(w) =>
      var msg := PcOf(s, w).msg;
      assert HeaderOut(s, w);
      assert EncodeAll(s.log) + EncodeHeader(msg.header) + msg.payload == EncodeAll(s.log) + Encode(msg);
      CompletedKeepsInv(s, w, msg, msg.payload);
    case SendHeader(w) =>
      var msg := PcOf(s, w).msg;
      assert forall v: Writer :: !HeaderOut(s, v);
      if msg.payload == [] {
        assert Encode(msg) == EncodeHeader(msg.header);
        CompletedKeepsInv(s, w, msg, EncodeHeader(msg.header));
      } else {
        forall v: Writer ensures HeaderOut(s', v) <==> v == w {
          assert v != w ==> !HeaderOut(s, v);
        }
        assert HeaderOut(s', w);
      }
    case _ =>
      assert forall v: Writer :: HeaderOut(s', v) <==> HeaderOut(s, v);
      assert forall v: Writer | HeaderOut(s, v) :: PcOf(s', v) == PcOf(s, v);
  }

  ghost predicate AllUntorn(states: seq<State>, events: seq<Event>, k: nat)
    requires k < |states| && k <= |events|
  {
    forall m | 0 <= m < k :: Untorn(states[m], events[m])
  }

  lemma {:induction false} RunKeepsInv(states: seq<State>, events: seq<Event>, k: nat)
    requires IsRun(states, events) && k < |states| && AllUntorn(states, events, k)
    ensures Inv(states[k])
  {
    if k > 0 {
      RunKeepsInv(states, events, k - 1);
      assert Enabled(states[k - 1], events[k - 1]);
      StepKeepsInv(states[k - 1], events[k - 1]);
    }
  }

  lemma PeerReads(s: State)
    requires Inv(s)
    ensures DecodeAll(s.wire) == Transcript(s.log, if exists w: Writer :: HeaderOut(s, w) then Cut else EndOfStream)
  {
    if w: Writer :| HeaderOut(s, w) {
      UnfinishedMessage(s.log, PcOf(s, w).msg);
    } else {
      WholeStream(s.log);
    }
  }

  // A header whose payload is missing is an error, not a message.
  lemma UnfinishedMessage(log: seq<Message>, msg: Message)
    requires AllSound(log) && Sound(msg) && msg.payload != []
    ensures DecodeAll(EncodeAll(log) + EncodeHeader(msg.header)) == Transcript(log, Cut)
  {
    var h := EncodeHeader(msg.header);
    ReadsAll(log, h);
    assert Encode(msg)[..HEADER_SIZE] == h;
    CutInside(msg, HEADER_SIZE);
  }

  /** In any interleaving in which no message is torn, whether or not some of them bypass the
      mutex, what a peer reads at any moment is exactly the completed messages in the order of
      their completion, then the end of the stream or the cut of one unfinished message. */
  lemma PeerReadsTheLog(states: seq<State>, events: seq<Event>, k: nat)
    requires IsRun(states, events) && k < |states| && AllUntorn(states, events, k)
    ensures DecodeAll(states[k].wire) ==
              Transcript(states[k].log, if exists w: Writer :: HeaderOut(states[k], w) then Cut else EndOfStream)
  {
    RunKeepsInv(states, events, k);
    PeerReads(states[k]);
  }

  // ---------- The mutex prevents tearing ----------

  // Only the holder is inside WriteMessage.
  ghost predicate HolderOnly(s: State) {
    forall w: Writer | PcOf(s, w) != Out :: s.mutex == Some(w)
  }

  /** Writers that all go through the adapter tear nothing. */
  lemma {:induction false} AdapterTearsNothing(states: seq<State>, events: seq<Event>, k: nat)
    requires IsRun(states, events) && k < |states|
    requires forall m | 0 <= m < k :: !events[m].Bypass?
    ensures HolderOnly(states[k]) && AllUntorn(states, events, k)
  {
    if k > 0 {
      AdapterTearsNothing(states, events, k - 1);
      var s, e := states[k - 1], events[k - 1];
      assert Enabled(s, e);
      assert forall w: Writer | w != e.w :: PcOf(states[k], w) == PcOf(s, w);
      assert PcOf(s, e.w) != Out ==> s.mutex == Some(e.w);
    }
  }

  // ---------- What a torn message reads as ----------

  // A payload that does not begin with the version byte, as no JSON text does.
  predicate Telling(msg: Message) {
    Sound(msg) && msg.header.version == 1 && (msg.payload != [] ==> msg.payload[0] != 1)
  }

  // The peer reads, behind the log, a message with msg's header and a payload that begins with 1.
  ghost predicate Misread(t: Transcript, log: seq<Message>, msg: Message) {
    && log <= t.msgs
    && (t.msgs != log ==> t.msgs[|log|].header == msg.header && t.msgs[|log|].payload != [] && t.msgs[|log|].payload[0] == 1)
  }

  /** Once a header is followed by the first byte of another, whatever comes later, the peer never
      reads the message it belongs to. */
  lemma TornForGood(log: seq<Message>, msg: Message, more: seq<byte>)
    requires AllSound(log) && Sound(msg) && msg.payload != [] && more != [] && more[0] == 1
    ensures Misread(DecodeAll(EncodeAll(log) + (EncodeHeader(msg.header) + more)), log, msg)
    ensures |more| >= msg.header.length ==> DecodeAll(EncodeAll(log) + (EncodeHeader(msg.header) + more)).msgs != log
  {
    var tail := EncodeHeader(msg.header) + more;
    ReadsAll(log, tail);
    HeaderRoundTrip(msg.header);
    assert tail[..HEADER_SIZE] == EncodeHeader(msg.header) && tail[HEADER_SIZE..] == more;
    var t := DecodeAll(tail);
    if t.msgs != [] {
      assert t.msgs[0].header == msg.header && t.msgs[0].payload == more[..msg.header.length];
    }
  }

  // From the first torn write on, the wire begins with the log of then and a torn header.
  ghost predicate Torn(s: State, log: seq<Message>, msg: Message) {
    && AllSound(log) && Telling(msg) && msg.payload != [] && log <= s.log
    && (exists more: seq<byte> :: more != [] && more[0] == 1 && s.wire == EncodeAll(log) + (EncodeHeader(msg.header) + more))
  }

  ghost predicate AllTelling(s: State) {
    && (forall i | 0 <= i < |s.log| :: Telling(s.log[i]))
    && (forall w: Writer | PcOf(s, w) != Out :: Telling(PcOf(s, w).msg))
  }

  // The message is completed, or its writer is still to write the payload.
  ghost predicate Pending(s: State, log: seq<Message>, msg: Message) {
    |s.log| > |log| || exists w: Writer :: PcOf(s, w) == HeaderSent(msg)
  }

  lemma FirstTear(s: State, e: Event)
    requires Enabled(s, e) && Inv(s) && AllTelling(s) && !Untorn(s, e)
    ensures exists msg :: Torn(Apply(s, e), s.log, msg) && Pending(Apply(s, e), s.log, msg)
  {
    var s' := Apply(s, e);
    var w: Writer :| w != e.w && HeaderOut(s, w);
    var msg, more := PcOf(s, w).msg, EncodeHeader(PcOf(s, e.w).msg.header);
    assert !HeaderOut(s, e.w);
    assert s'.wire == EncodeAll(s.log) + (EncodeHeader(msg.header) + more);
    assert PcOf(s', w) == HeaderSent(msg);
    assert Torn(s', s.log, msg) && Pending(s', s.log, msg);
  }

  lemma TearStays(s: State, e: Event, log: seq<Message>, msg: Message)
    requires Enabled(s, e) && Torn(s, log, msg) && Pending(s, log, msg)
    ensures Torn(Apply(s, e), log, msg) && Pending(Apply(s, e), log, msg)
  {
    var s' := Apply(s, e);
    var more: seq<byte> :| more != [] && more[0] == 1 && s.wire == EncodeAll(log) + (EncodeHeader(msg.header) + more);
    var added := s'.wire[|s.wire|..];
    assert s'.wire == s.wire + added;
    assert (more + added)[0] == 1;
    assert s'.wire == EncodeAll(log) + (EncodeHeader(msg.header) + (more + added));
    if |s.log| == |log| {
      var w: Writer :| PcOf(s, w) == HeaderSent(msg);
      assert w != e.w ==> PcOf(s', w) == HeaderSent(msg);
    }
  }

  predicate SendsTelling(e: Event) {
    (e.Lock? || e.Bypass?) ==> Telling(e.msg)
  }

  lemma StepKeepsTelling(s: State, e: Event)
    requires Enabled(s, e) && AllTelling(s) && SendsTelling(e)
    ensures AllTelling(Apply(s, e))
  {
    var s' := Apply(s, e);
    assert forall w: Writer | w != e.w :: PcOf(s', w) == PcOf(s, w);
    assert PcOf(s, e.w) != Out ==> Telling(PcOf(s, e.w).msg);
  }

  lemma {:induction false} TellingRun(states: seq<State>, events: seq<Event>, k: nat)
    requires IsRun(states, events) && k < |states|
    requires forall m | 0 <= m < k :: SendsTelling(events[m])
    ensures AllTelling(states[k])
  {
    if k > 0 {
      TellingRun(states, events, k - 1);
      assert Enabled(states[k - 1], events[k - 1]);
      StepKeepsTelling(states[k - 1], events[k - 1]);
    }
  }

  ghost predicate SomeTorn(s: State) {
    exists log, msg :: Torn(s, log, msg) && Pending(s, log, msg)
  }

  lemma StepKeepsTorn(s: State, e: Event)
    requires Enabled(s, e)
    requires SomeTorn(s) || (Inv(s) && AllTelling(s) && !Untorn(s, e))
    ensures SomeTorn(Apply(s, e))
  {
    if SomeTorn(s) {
      var log, msg :| Torn(s, log, msg) && Pending(s, log, msg);
      TearStays(s, e, log, msg);
    } else {
      FirstTear(s, e);
    }
  }

  lemma OneMoreUntorn(states: seq<State>, events: seq<Event>, k: nat)
    requires k + 1 < |states| && k < |events|
    ensures AllUntorn(states, events, k + 1) <==> AllUntorn(states, events, k) && Untorn(states[k], events[k])
  {
  }

  lemma {:induction false} TornRun(states: seq<State>, events: seq<Event>, k: nat)
    requires IsRun(states, events) && k < |states|
    requires forall m | 0 <= m < k :: SendsTelling(events[m])
    requires !AllUntorn(states, events, k)
    ensures SomeTorn(states[k])
  {
    var j := k - 1;
    OneMoreUntorn(states, events, j);
    if AllUntorn(states, events, j) {
      RunKeepsInv(states, events, j);
      TellingRun(states, events, j);
    } else {
      TornRun(states, events, j);
    }
    assert Enabled(states[j], events[j]) && states[k] == Apply(states[j], events[j]);
    StepKeepsTorn(states[j], events[j]);
  }

  /** For messages whose payload does not begin with the version byte, when no writer is between
      header and payload: the peer reads exactly the completed messages if and only if no message
      was torn. */
  lemma PeerReadsTheLogExactly(states: seq<State>, events: seq<Event>, k: nat)
    requires IsRun(states, events) && k < |states|
    requires forall m | 0 <= m < k :: SendsTelling(events[m])
    requires forall w: Writer :: !HeaderOut(states[k], w)
    ensures DecodeAll(states[k].wire) == Transcript(states[k].log, EndOfStream) <==> AllUntorn(states, events, k)
  {
    if AllUntorn(states, events, k) {
      PeerReadsTheLog(states, events, k);
    } else {
      var s := states[k];
      TornRun(states, events, k);
      TellingRun(states, events, k);
      var log, msg :| Torn(s, log, msg) && Pending(s, log, msg);
      var more: seq<byte> :| more != [] && more[0] == 1 && s.wire == EncodeAll(log) + (EncodeHeader(msg.header) + more);
      TornForGood(log, msg, more);
      assert forall w: Writer :: PcOf(s, w) == HeaderSent(msg) ==> HeaderOut(s, w);
      assert Telling(s.log[|log|]);
    }
  }

  // ---------- Past the mutex ----------

  // Constructed messages of a kind other than this.
  predicate OtherKinds(others: seq<Message>, kind: byte) {
    AllSound(others) && forall i | 0 <= i < |others| :: others[i].header.version == 1 && others[i].header.kind != kind
  }

  lemma BeginsWithVersion(others: seq<Message>, rest: seq<byte>)
    requires others != [] && AllSound(others) && others[0].header.version == 1
    ensures EncodeAll(others) + rest != [] && (EncodeAll(others) + rest)[0] == 1
  {
    assert (EncodeAll(others) + rest)[0] == EncodeHeader(others[0].header)[0];
  }

  /** The registration reply is read if and only if nothing was written between its two halves.
      Whatever constructed messages of other kinds are written there, the peer reads in its place
      a message that is neither the reply nor any of them. */
  lemma ReplyIsReadExactly(log: seq<Message>, reply: Message, others: seq<Message>)
    requires AllSound(log) && Telling(reply) && reply.payload != [] && OtherKinds(others, reply.header.kind)
    ensures
      var t := DecodeAll(EncodeAll(log) + (EncodeHeader(reply.header) + (EncodeAll(others) + reply.payload)));
      && log < t.msgs
      && (t.msgs[|log|] == reply <==> others == [])
      && t.msgs[|log|] !in others
      && (others == [] ==> t == Transcript(log + [reply], EndOfStream))
  {
    if others == [] {
      assert EncodeAll(others) + reply.payload == reply.payload;
      ReplyAlone(log, reply);
    } else {
      BeginsWithVersion(others, reply.payload);
      TornForGood(log, reply, EncodeAll(others) + reply.payload);
      NobodySentIt(DecodeAll(EncodeAll(log) + (EncodeHeader(reply.header) + (EncodeAll(others) + reply.payload))), log, reply, others);
    }
  }

  lemma NobodySentIt(t: Transcript, log: seq<Message>, reply: Message, others: seq<Message>)
    requires Misread(t, log, reply) && t.msgs != log && Telling(reply) && OtherKinds(others, reply.header.kind)
    ensures log < t.msgs && t.msgs[|log|] != reply && t.msgs[|log|] !in others
  {
  }

  lemma ReplyAlone(log: seq<Message>, reply: Message)
    requires AllSound(log) && Sound(reply)
    ensures DecodeAll(EncodeAll(log) + (EncodeHeader(reply.header) + reply.payload)) == Transcript(log + [reply], EndOfStream)
  {
    ReadsAll(log, EncodeHeader(reply.header) + reply.payload);
    assert EncodeHeader(reply.header) + reply.payload == Encode(reply) + [];
    ReadsOn(reply, []);
  }

  // One whole WriteMessage through the adapter.
  function Through(s: State, w: Writer, msg: Message): (s': State)
    requires PcOf(s, w) == Out && s.mutex == None && Sound(msg)
    ensures forall v: Writer | v != w :: PcOf(s', v) == PcOf(s, v)
  {
    var s1 := Apply(Apply(s, Lock(w, msg)), SendHeader(w));
    if msg.payload == [] then s1 else Apply(s1, SendPayload(w))
  }

  lemma ThroughWrites(s: State, w: Writer, msg: Message)
    requires PcOf(s, w) == Out && s.mutex == None && Sound(msg)
    ensures Through(s, w, msg).wire == s.wire + Encode(msg) && Through(s, w, msg).log == s.log + [msg]
  {
    assert s.wire + EncodeHeader(msg.header) + msg.payload == s.wire + Encode(msg);
  }

  /** Tearing is possible: in any state in which the reply's header is out, past the mutex, and the
      mutex is free, a forwarder can write any message whole before the payload follows; the peer
      then reads neither the reply nor that message in the reply's place. */
  lemma BypassCorruptsTheStream(s: State, a: Writer, b: Writer, other: Message)
    requires Inv(s) && s.mutex == None && a != b && HeaderOut(s, a) && PcOf(s, b) == Out
    requires Telling(PcOf(s, a).msg) && Sound(other) && OtherKinds([other], PcOf(s, a).msg.header.kind)
    ensures
      var reply, end := PcOf(s, a).msg, Apply(Through(s, b, other), SendPayload(a));
      && end.log == s.log + [other] + [reply]
      && var t := DecodeAll(end.wire);
         s.log < t.msgs && t.msgs[|s.log|] != reply && t.msgs[|s.log|] != other
  {
    var reply, end := PcOf(s, a).msg, Apply(Through(s, b, other), SendPayload(a));
    ThroughWrites(s, b, other);
    assert EncodeAll([other]) == Encode(other) by {
      assert [other][1..] == [];
    }
    assert end.wire == EncodeAll(s.log) + (EncodeHeader(reply.header) + (EncodeAll([other]) + reply.payload));
    ReplyIsReadExactly(s.log, reply, [other]);
    assert other in [other];
  }

  /** A connection can begin with such a state, when the reply's header is the first thing written;
      a forwarder may also come first, since the session is registered before the reply. */
  lemma ReplyComesFirst(a: Writer, reply: Message)
    requires Telling(reply) && reply.payload != []
    ensures
      var s := Apply(Apply(Init, Bypass(a, reply)), SendHeader(a));
      && Inv(s) && s.mutex == None && PcOf(s, a) == HeaderSent(reply)
      && forall b: Writer | b != a :: PcOf(s, b) == Out
  {
    var s1 := Apply(Init, Bypass(a, reply));
    assert forall w: Writer :: !HeaderOut(Init, w);
    StepKeepsInv(Init, Bypass(a, reply));
    assert forall w: Writer :: !HeaderOut(s1, w);
    StepKeepsInv(s1, SendHeader(a));
  }
}
