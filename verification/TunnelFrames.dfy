/**
 Framing of tunnel messages (internal/tunnel/message.go): a ten-byte header, big-endian numbers,
 then the payload.
 */
module TunnelFrames {
  import opened GoText

  type byte = x: int | 0 <= x < 256

  const HEADER_SIZE := 10
  const MSG_DATA: byte := 0x12
  const MSG_DATA_END: byte := 0x13

  datatype Header = Header(version: byte, kind: byte, streamID: uint32, length: uint32)
  datatype Message = Message(header: Header, payload: seq<byte>)

  // NewControlMessage and NewDataMessage; the length is cut to 32 bits.
  function NewMessage(kind: byte, streamID: uint32, data: seq<byte>): Message {
    Message(Header(1, kind, streamID, |data| % 0x1_0000_0000), data)
  }

  // ---------- The format ----------

  function BigEndian(n: uint32): (s: seq<byte>)
    ensures |s| == 4
  {
    [n / 0x100_0000, n / 0x1_0000 % 256, n / 0x100 % 256, n % 256]
  }

  function FromBigEndian(s: seq<byte>): uint32
    requires |s| == 4
  {
    s[0] as int * 0x100_0000 + s[1] as int * 0x1_0000 + s[2] as int * 0x100 + s[3] as int
  }

  function EncodeHeader(h: Header): (s: seq<byte>)
    ensures |s| == HEADER_SIZE
  {
    [h.version, h.kind] + BigEndian(h.streamID) + BigEndian(h.length)
  }

  function DecodeHeader(s: seq<byte>): Header
    requires |s| == HEADER_SIZE
  {
    Header(s[0], s[1], FromBigEndian(s[2..6]), FromBigEndian(s[6..10]))
  }

  // payload[:length] must not reach past the payload.
  predicate Writable(m: Message) {
    m.payload != [] ==> m.header.length <= |m.payload|
  }

  function Body(m: Message): seq<byte>
    requires Writable(m)
  {
    if m.header.length > 0 && m.payload != [] then m.payload[..m.header.length] else []
  }

  function Encode(m: Message): seq<byte>
    requires Writable(m)
  {
    EncodeHeader(m.header) + Body(m)
  }

  datatype ReadResult =
    | Got(msg: Message, rest: seq<byte>)
    | EndOfStream   // not one byte of a header
    | Cut           // the stream ends inside a message

  function Decode(s: seq<byte>): (r: ReadResult)
    ensures r.Got? ==> |r.rest| < |s|
  {
    if s == [] then EndOfStream
    else if |s| < HEADER_SIZE then Cut
    else
      var h := DecodeHeader(s[..HEADER_SIZE]);
      var rest := s[HEADER_SIZE..];
      if |rest| < h.length then Cut
      else Got(Message(h, rest[..h.length]), rest[h.length..])
  }

  // ---------- Writing and reading ----------

  class Writer {
    var written: seq<byte>
  }

  class Reader {
    var unread: seq<byte>
  }

  method WriteMessage(w: Writer, msg: Message)
    requires Writable(msg)
    modifies w
    ensures w.written == old(w.written) + Encode(msg)
  {
    var buf := new byte[HEADER_SIZE](_ => 0);
    buf[0] := msg.header.version;
    buf[1] := msg.header.kind;
    PutUint32(buf, 2, msg.header.streamID);
    PutUint32(buf, 6, msg.header.length);
    assert buf[2..6] == BigEndian(msg.header.streamID);
    assert buf[..] == buf[..2] + buf[2..6] + buf[6..];
    assert buf[..2] == [msg.header.version, msg.header.kind];
    w.written := w.written + buf[..];
    if msg.header.length > 0 && |msg.payload| > 0 {
      w.written := w.written + msg.payload[..msg.header.length];
    }
  }

  method PutUint32(buf: array<byte>, at: nat, n: uint32)
    requires at + 4 <= buf.Length
    modifies buf
    ensures buf[at..at + 4] == BigEndian(n)
    ensures forall i | 0 <= i < buf.Length && !(at <= i < at + 4) :: buf[i] == old(buf[i])
  {
    buf[at], buf[at + 1], buf[at + 2], buf[at + 3] := n / 0x100_0000, n / 0x1_0000 % 256, n / 0x100 % 256, n % 256;
  }

  // io.ReadFull: n bytes, or all that is left and a failure.
  method ReadFull(r: Reader, n: nat) returns (buf: seq<byte>, ok: bool)
    modifies r
    ensures ok <==> n <= |old(r.unread)|
    ensures ok ==> buf == old(r.unread)[..n] && r.unread == old(r.unread)[n..]
    ensures !ok ==> r.unread == []
  {
    ok := n <= |r.unread|;
    if ok {
      buf, r.unread := r.unread[..n], r.unread[n..];
    } else {
      buf, r.unread := r.unread, [];
    }
  }

  method ReadMessage(r: Reader) returns (result: ReadResult)
    modifies r
    ensures result == Decode(old(r.unread))
    ensures r.unread == if result.Got? then result.rest else []
  {
    var atEnd := r.unread == [];
    var buf, ok := ReadFull(r, HEADER_SIZE);
    if !ok {
      return if atEnd then EndOfStream else Cut;
    }
    var h := DecodeHeader(buf);
    var payload: seq<byte> := [];
    if h.length > 0 {
      payload, ok := ReadFull(r, h.length);
      if !ok {
        return Cut;
      }
    }
    return Got(Message(h, payload), r.unread);
  }

  // ---------- Round trips ----------

  lemma BigEndianRoundTrip(n: uint32)
    ensures FromBigEndian(BigEndian(n)) == n
  {
    var a, b, c := n / 0x100, n / 0x1_0000, n / 0x100_0000;
    assert n == 0x100 * a + n % 0x100;
    assert a / 0x100 == b && a == 0x100 * b + a % 0x100;
    assert b / 0x100 == c && b == 0x100 * c + b % 0x100;
  }

  lemma HeaderRoundTrip(h: Header)
    ensures DecodeHeader(EncodeHeader(h)) == h
  {
    var s := EncodeHeader(h);
    assert s[2..6] == BigEndian(h.streamID) && s[6..10] == BigEndian(h.length);
    BigEndianRoundTrip(h.streamID);
    BigEndianRoundTrip(h.length);
  }

  // The header tells the payload's length.
  predicate Sound(m: Message) {
    m.header.length == |m.payload|
  }

  predicate AllSound(msgs: seq<Message>) {
    forall i | 0 <= i < |msgs| :: Sound(msgs[i])
  }

  lemma DecodeInvertsEncode(m: Message, rest: seq<byte>)
    requires Writable(m)
    ensures Decode(Encode(m) + rest) ==
              if |Body(m)| == m.header.length then Got(Message(m.header, Body(m)), rest)
              else Decode(EncodeHeader(m.header) + rest)
    ensures Sound(m) ==> Decode(Encode(m) + rest) == Got(m, rest)
  {
    var s := Encode(m) + rest;
    HeaderRoundTrip(m.header);
    assert s[..HEADER_SIZE] == EncodeHeader(m.header);
    assert s[HEADER_SIZE..] == Body(m) + rest;
    if |Body(m)| == m.header.length {
      assert (Body(m) + rest)[..m.header.length] == Body(m);
      assert (Body(m) + rest)[m.header.length..] == rest;
    } else {
      assert Body(m) == [] && s == EncodeHeader(m.header) + rest;
    }
  }

  /** A constructed message survives the wire if and only if its payload is shorter than 2^32
      bytes; a longer one arrives cut to its length modulo 2^32, without an error. */
  lemma RoundTripExactly(kind: byte, streamID: uint32, data: seq<byte>, rest: seq<byte>)
    ensures
      var m := NewMessage(kind, streamID, data);
      && Writable(m)
      && (Decode(Encode(m) + rest) == Got(m, rest) <==> |data| < 0x1_0000_0000)
      && Decode(Encode(m) + rest) == Got(NewMessage(kind, streamID, data[..|data| % 0x1_0000_0000]), rest)
  {
    var m := NewMessage(kind, streamID, data);
    var n := |data| % 0x1_0000_0000;
    assert Body(m) == data[..n];
    DecodeInvertsEncode(m, rest);
    assert |data[..n]| == n && n % 0x1_0000_0000 == n;
    assert NewMessage(kind, streamID, data[..n]) == Message(m.header, data[..n]);
    if |data| < 0x1_0000_0000 {
      assert data[..n] == data;
    } else {
      assert |data[..n]| != |data|;
    }
  }

  /** A constructed message arrives with the version, the kind, the stream number and the payload it
      was made of, the latter two as far as 32 bits of length reach. */
  lemma ConstructedArrives(kind: byte, streamID: uint32, data: seq<byte>, rest: seq<byte>)
    ensures
      var n := |data| % 0x1_0000_0000;
      Decode(Encode(NewMessage(kind, streamID, data)) + rest) == Got(Message(Header(1, kind, streamID, n), data[..n]), rest)
  {
    RoundTripExactly(kind, streamID, data, rest);
  }

  function Weighed(a: int, b: int, c: int, d: int): int {
    256 * (256 * (256 * a + b) + c) + d
  }

  /** The bytes on the wire: version, kind, stream number and length most significant byte first, and
      the payload up to the length. */
  lemma WireLayout(m: Message)
    requires Writable(m)
    ensures
      var s := Encode(m);
      && |s| == 10 + |Body(m)| && s[0] == m.header.version && s[1] == m.header.kind
      && Weighed(s[2], s[3], s[4], s[5]) == m.header.streamID && Weighed(s[6], s[7], s[8], s[9]) == m.header.length
      && (m.payload != [] ==> s[10..] == m.payload[..m.header.length])
  {
    BigEndianRoundTrip(m.header.streamID);
    BigEndianRoundTrip(m.header.length);
    var h := EncodeHeader(m.header);
    assert h[2..6] == BigEndian(m.header.streamID) && h[6..10] == BigEndian(m.header.length);
    assert Encode(m)[..10] == h;
  }

  // ---------- Whole streams ----------

  function EncodeAll(msgs: seq<Message>): seq<byte>
    requires AllSound(msgs)
  {
    if msgs == [] then [] else Encode(msgs[0]) + EncodeAll(msgs[1..])
  }

  datatype Transcript = Transcript(msgs: seq<Message>, end: ReadResult)

  // Reads until the first failure.
  function DecodeAll(s: seq<byte>): Transcript
    decreases |s|
  {
    match Decode(s)
    case Got(m, rest) => var t := DecodeAll(rest); Transcript([m] + t.msgs, t.end)
    case end => Transcript([], end)
  }

  lemma {:induction false} EncodeAllSnoc(msgs: seq<Message>, m: Message)
    requires AllSound(msgs) && Sound(m)
    ensures EncodeAll(msgs + [m]) == EncodeAll(msgs) + Encode(m)
  {
    if msgs == [] {
      assert EncodeAll([m]) == Encode(m) + EncodeAll([m][1..]);
    } else {
      assert (msgs + [m])[1..] == msgs[1..] + [m];
      EncodeAllSnoc(msgs[1..], m);
    }
  }

  // How many messages lie whole within the first `cut` bytes.
  function Whole(msgs: seq<Message>, cut: nat): (n: nat)
    requires AllSound(msgs)
    ensures n <= |msgs| && |EncodeAll(msgs[..n])| <= cut
    ensures n < |msgs| ==> cut < |EncodeAll(msgs[..n])| + |Encode(msgs[n])|
  {
    if msgs == [] || cut < |Encode(msgs[0])| then 0
    else
      var n := 1 + Whole(msgs[1..], cut - |Encode(msgs[0])|);
      assert msgs[..n] == [msgs[0]] + msgs[1..][..n - 1];
      n
  }

  lemma CutInside(m: Message, cut: nat)
    requires Sound(m) && cut < |Encode(m)|
    ensures Decode(Encode(m)[..cut]) == if cut == 0 then EndOfStream else Cut
  {
    var s := Encode(m)[..cut];
    if cut >= HEADER_SIZE {
      HeaderRoundTrip(m.header);
      assert s[..HEADER_SIZE] == EncodeHeader(m.header);
    }
  }

  lemma CutInsideFirst(msgs: seq<Message>, cut: nat)
    requires msgs != [] && AllSound(msgs) && cut < |Encode(msgs[0])|
    ensures DecodeAll(EncodeAll(msgs)[..cut]) == Transcript([], if cut == 0 then EndOfStream else Cut)
  {
    assert EncodeAll(msgs)[..cut] == Encode(msgs[0])[..cut];
    CutInside(msgs[0], cut);
  }

  lemma ReadsOn(m: Message, tail: seq<byte>)
    requires Sound(m)
    ensures DecodeAll(Encode(m) + tail) == Transcript([m] + DecodeAll(tail).msgs, DecodeAll(tail).end)
  {
    DecodeInvertsEncode(m, tail);
  }

  lemma HeadFirst<T>(s: seq<T>, t: seq<T>)
    requires s != []
    ensures [s[0]] + (s[1..] + t) == s + t
  {
  }

  lemma {:induction false} ReadsAll(msgs: seq<Message>, tail: seq<byte>)
    requires AllSound(msgs)
    ensures DecodeAll(EncodeAll(msgs) + tail) == Transcript(msgs + DecodeAll(tail).msgs, DecodeAll(tail).end)
  {
    if msgs == [] {
      assert EncodeAll(msgs) + tail == tail;
    } else {
      ReadsAll(msgs[1..], tail);
      assert EncodeAll(msgs) + tail == Encode(msgs[0]) + (EncodeAll(msgs[1..]) + tail);
      ReadsOn(msgs[0], EncodeAll(msgs[1..]) + tail);
      HeadFirst(msgs, DecodeAll(tail).msgs);
    }
  }

  lemma ReadsOnTruncated(msgs: seq<Message>, cut: nat)
    requires msgs != [] && AllSound(msgs) && |Encode(msgs[0])| <= cut <= |EncodeAll(msgs)|
    ensures
      var t := DecodeAll(EncodeAll(msgs[1..])[..cut - |Encode(msgs[0])|]);
      DecodeAll(EncodeAll(msgs)[..cut]) == Transcript([msgs[0]] + t.msgs, t.end)
  {
    var tail := EncodeAll(msgs[1..])[..cut - |Encode(msgs[0])|];
    assert EncodeAll(msgs)[..cut] == Encode(msgs[0]) + tail;
    ReadsOn(msgs[0], tail);
  }

  lemma EncodePrefix(msgs: seq<Message>, n: nat)
    requires AllSound(msgs) && n < |msgs|
    ensures EncodeAll(msgs[..n + 1]) == Encode(msgs[0]) + EncodeAll(msgs[1..][..n])
    ensures msgs[..n + 1] == [msgs[0]] + msgs[1..][..n]
  {
    assert msgs[..n + 1][1..] == msgs[1..][..n];
  }

  /** Cutting the encoding of any messages at any byte, reading yields exactly the messages that
      lie whole before the cut, then an error; it reports the end of the stream only at a
      boundary. With the cut at the end this is the round trip of the whole list. */
  lemma {:induction false} TruncatedStream(msgs: seq<Message>, cut: nat)
    requires AllSound(msgs) && cut <= |EncodeAll(msgs)|
    ensures
      var n := Whole(msgs, cut);
      DecodeAll(EncodeAll(msgs)[..cut]) ==
        Transcript(msgs[..n], if cut == |EncodeAll(msgs[..n])| then EndOfStream else Cut)
  {
    if msgs != [] {
      var size := |Encode(msgs[0])|;
      if cut < size {
        CutInsideFirst(msgs, cut);
        assert msgs[..0] == [];
      } else {
        TruncatedStream(msgs[1..], cut - size);
        ReadsOnTruncated(msgs, cut);
        EncodePrefix(msgs, Whole(msgs[1..], cut - size));
      }
    }
  }

  lemma WholeStream(msgs: seq<Message>)
    requires AllSound(msgs)
    ensures DecodeAll(EncodeAll(msgs)) == Transcript(msgs, EndOfStream)
  {
    ReadsAll(msgs, []);
    assert EncodeAll(msgs) + [] == EncodeAll(msgs);
  }
}
