/**
 The reader of a response body that arrives as messages on a tunnel stream (tunnelBodyReader in
 internal/tunnel/server.go). Which branch its select takes is not the reader's choice: a message
 that has arrived, the stream's Done, or the timeout.
 */
module TunnelBodies {
  import opened GoText
  import opened TunnelFrames

  datatype Branch = TakeMessage | SeeDone | TimeOut

  datatype ReadOutcome = Bytes(data: seq<byte>) | Eof | Failed

  // `arriving` is what is still to come on the stream's channel, in order.
  datatype Body = Body(remain: int, buf: seq<byte>, arriving: seq<Message>)

  predicate Selects(b: Body) {
    b.buf == [] && b.remain > 0
  }

  class BodyReader {
    var remain: int
    var buf: seq<byte>
    var arriving: seq<Message>

    constructor (bodyLen: int, arriving: seq<Message>)
      ensures View() == Body.Body(bodyLen, [], arriving)
    {
      remain, buf := bodyLen, [];
      this.arriving := arriving;
    }

    function View(): Body
      reads this
    {
      Body.Body(remain, buf, arriving)
    }

    /** Read into a buffer of n bytes; `branch` says what the select finds, if it comes to that. */
    method Read(n: nat, branch: Branch) returns (result: ReadOutcome)
      requires branch == TakeMessage && Selects(View()) ==> arriving != []
      modifies this
      ensures result == Outcome(old(View()), n, branch)
      ensures View() == Next(old(View()), n, branch)
    {
      if remain <= 0 && |buf| == 0 {
        return Eof;
      }
      if |buf| > 0 {
        var k := Min(n, |buf|);
        result := Bytes(buf[..k]);
        buf := buf[k..];
        return;
      }
      match branch
      case TakeMessage =>
        var msg := arriving[0];
        arriving := arriving[1..];
        if msg.header.kind == MSG_DATA {
          remain := remain - |msg.payload|;
          var k := Min(n, |msg.payload|);
          if k < |msg.payload| {
            buf := msg.payload[k..];
          }
          return Bytes(msg.payload[..k]);
        } else if msg.header.kind == MSG_DATA_END {
          return Eof;
        } else {
          return Failed;
        }
      case SeeDone => return Eof;
      case TimeOut => return Failed;
    }
  }

  // ---------- One call ----------

  predicate CanRead(b: Body, branch: Branch) {
    branch == TakeMessage && Selects(b) ==> b.arriving != []
  }

  function Outcome(b: Body, n: nat, branch: Branch): ReadOutcome
    requires CanRead(b, branch)
  {
    if b.buf != [] then Bytes(b.buf[..Min(n, |b.buf|)])
    else if b.remain <= 0 then Eof
    else
      match branch
      case TakeMessage =>
        var msg := b.arriving[0];
        if msg.header.kind == MSG_DATA then Bytes(msg.payload[..Min(n, |msg.payload|)])
        else if msg.header.kind == MSG_DATA_END then Eof
        else Failed
      case SeeDone => Eof
      case TimeOut => Failed
  }

  function Next(b: Body, n: nat, branch: Branch): Body
    requires CanRead(b, branch)
  {
    if b.buf != [] then b.(buf := b.buf[Min(n, |b.buf|)..])
    else if b.remain <= 0 || branch != TakeMessage then b
    else
      var msg := b.arriving[0];
      if msg.header.kind == MSG_DATA then
        Body.Body(b.remain - |msg.payload|, msg.payload[Min(n, |msg.payload|)..], b.arriving[1..])
      else b.(arriving := b.arriving[1..])
  }

  // ---------- Runs of calls ----------

  datatype Call = Call(n: nat, branch: Branch)

  // The bytes of the Data messages, in order.
  function DataOf(msgs: seq<Message>): seq<byte> {
    if msgs == [] then []
    else (if msgs[0].header.kind == MSG_DATA then msgs[0].payload else []) + DataOf(msgs[1..])
  }

  predicate Feasible(b: Body, calls: seq<Call>)
    decreases |calls|
  {
    calls == [] ||
    (CanRead(b, calls[0].branch) && Feasible(Next(b, calls[0].n, calls[0].branch), calls[1..]))
  }

  function After(b: Body, calls: seq<Call>): Body
    requires Feasible(b, calls)
    decreases |calls|
  {
    if calls == [] then b else After(Next(b, calls[0].n, calls[0].branch), calls[1..])
  }

  function Delivered(b: Body, calls: seq<Call>): seq<byte>
    requires Feasible(b, calls)
    decreases |calls|
  {
    if calls == [] then []
    else
      var out := Outcome(b, calls[0].n, calls[0].branch);
      (if out.Bytes? then out.data else []) + Delivered(Next(b, calls[0].n, calls[0].branch), calls[1..])
  }

  // What is in the buffer and still to come.
  function Pending(b: Body): seq<byte> {
    b.buf + DataOf(b.arriving)
  }

  // A call moves bytes from the front of what is pending to the caller, and loses none.
  lemma CallConserves(b: Body, n: nat, branch: Branch)
    requires CanRead(b, branch)
    ensures
      var out, b' := Outcome(b, n, branch), Next(b, n, branch);
      && (if out.Bytes? then out.data else []) + Pending(b') == Pending(b)
      && b'.remain + |DataOf(b.arriving)| == b.remain + |DataOf(b'.arriving)|
  {
    var b' := Next(b, n, branch);
    if b.buf != [] {
      var k := Min(n, |b.buf|);
      assert b.buf == b.buf[..k] + b.buf[k..];
      assert b.buf[..k] + (b.buf[k..] + DataOf(b.arriving)) == b.buf + DataOf(b.arriving);
    } else if b.remain > 0 && branch == TakeMessage && b.arriving[0].header.kind == MSG_DATA {
      var p := b.arriving[0].payload;
      var k := Min(n, |p|);
      assert p[..k] + (p[k..] + DataOf(b.arriving[1..])) == p + DataOf(b.arriving[1..]);
    }
  }

  /** For any buffer sizes and any branches: what was delivered, then the buffer, then what is
      still to come is the whole in-order body, and `remain` is the announced length less the
      bytes taken from the channel. */
  lemma {:induction false} ReadsConserve(b: Body, calls: seq<Call>)
    requires Feasible(b, calls)
    ensures Delivered(b, calls) + Pending(After(b, calls)) == Pending(b)
    ensures After(b, calls).remain + |DataOf(b.arriving)| == b.remain + |DataOf(After(b, calls).arriving)|
    decreases |calls|
  {
    if calls != [] {
      var n, branch := calls[0].n, calls[0].branch;
      CallConserves(b, n, branch);
      ReadsConserve(Next(b, n, branch), calls[1..]);
    }
  }

  /** Delivered bytes are a prefix of the concatenated Data payloads; and when a call ends with
      EOF on its own account, without Done or an end marker, at least bodyLen bytes were
      delivered, all of what was taken. */
  lemma DeliversPrefix(bodyLen: int, arriving: seq<Message>, calls: seq<Call>)
    requires Feasible(Body.Body(bodyLen, [], arriving), calls)
    ensures Delivered(Body.Body(bodyLen, [], arriving), calls) <= DataOf(arriving)
    ensures
      var end := After(Body.Body(bodyLen, [], arriving), calls);
      end.buf == [] && end.remain <= 0 ==> |Delivered(Body.Body(bodyLen, [], arriving), calls)| >= bodyLen
  {
    var b := Body.Body(bodyLen, [], arriving);
    ReadsConserve(b, calls);
    assert Pending(b) == DataOf(arriving);
  }

  // How many bytes were taken from the channel.
  function Taken(b: Body, calls: seq<Call>): int
    requires Feasible(b, calls)
  {
    |DataOf(b.arriving)| - |DataOf(After(b, calls).arriving)|
  }

  // The select finds a message, and it is of this kind.
  predicate FindsKind(b: Body, branch: Branch, kind: byte)
    requires CanRead(b, branch) && Selects(b)
  {
    branch == TakeMessage && b.arriving[0].header.kind == kind
  }

  /** After any calls, as long as bytes that were taken are not yet delivered, a call delivers more of
      them. When all are, it ends in EOF exactly if the announced length was taken, or the select
      finds Done or an end marker; in an error exactly if it finds the timeout or a message that is
      neither data nor an end marker; and otherwise it delivers from the data message it finds. */
  lemma CallEndsExactly(bodyLen: int, arriving: seq<Message>, calls: seq<Call>, n: nat, branch: Branch)
    requires Feasible(Body.Body(bodyLen, [], arriving), calls)
    requires CanRead(After(Body.Body(bodyLen, [], arriving), calls), branch)
    ensures
      var b := Body.Body(bodyLen, [], arriving);
      var end, all, out := After(b, calls), |Delivered(b, calls)| == Taken(b, calls), Outcome(After(b, calls), n, branch);
      && (!all ==> out.Bytes? && (n > 0 ==> out.data != []))
      && (all && Taken(b, calls) >= bodyLen ==> out == Eof)
      && (all && Taken(b, calls) < bodyLen ==>
            && Selects(end)
            && (out == Eof <==> branch == SeeDone || FindsKind(end, branch, MSG_DATA_END))
            && (out.Bytes? <==> FindsKind(end, branch, MSG_DATA))
            && (out == Failed <==>
                  (branch == TimeOut
                   || (branch == TakeMessage && !FindsKind(end, branch, MSG_DATA) && !FindsKind(end, branch, MSG_DATA_END)))))
  {
    var b := Body.Body(bodyLen, [], arriving);
    var end := After(b, calls);
    ReadsConserve(b, calls);
    assert |Delivered(b, calls) + Pending(end)| == |Pending(b)|;
  }
}
