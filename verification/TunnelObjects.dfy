/**
 The session registry as objects (internal/tunnel/tunnel.go), one call at a time. Closing a
 channel twice panics in Go, so CloseDone demands that it is still open; that every caller can
 meet this is what the classes below prove.
 */
module TunnelObjects {
  import opened GoText

  class Stream {
    const id: uint32
    var doneCloses: nat

    constructor (id: uint32)
      ensures this.id == id && doneCloses == 0
    {
      this.id := id;
      doneCloses := 0;
    }

    method CloseDone()
      requires doneCloses == 0
      modifies this
      ensures doneCloses == 1
    {
      doneCloses := 1;
    }
  }

  class TunnelSession {
    const nodeID: string
    var streams: map<uint32, Stream>
    var closed: bool
    var connCloses: nat   // Close calls that the session made on its connection

    // Each stream sits under one number, with its Done still open.
    ghost predicate Valid()
      reads this, streams.Values
    {
      && (forall i, j | i in streams && j in streams && streams[i] == streams[j] :: i == j)
      && (forall i | i in streams :: streams[i].doneCloses == 0)
      && connCloses == if closed then 1 else 0
    }

    constructor (nodeID: string)
      ensures this.nodeID == nodeID && streams == map[] && !closed && Valid()
    {
      this.nodeID := nodeID;
      streams, closed, connCloses := map[], false, 0;
    }

    method CreateStream(id: uint32) returns (s: Stream)
      requires Valid()
      modifies this`streams
      ensures Valid() && fresh(s) && s.id == id && streams == old(streams)[id := s]
    {
      s := new Stream(id);
      streams := streams[id := s];
    }

    method RemoveStream(id: uint32)
      requires Valid()
      modifies this`streams, streams.Values
      ensures Valid() && streams == old(streams) - {id}
      ensures forall i | i in old(streams) :: old(streams)[i].doneCloses == if i == id then 1 else 0
    {
      if id in streams {
        streams[id].CloseDone();
        streams := streams - {id};
      }
    }

    method Close()
      requires Valid()
      modifies this, streams.Values
      ensures Valid() && closed
      ensures if old(closed) then streams == old(streams) else streams == map[]
      ensures forall i | i in old(streams) :: old(streams)[i].doneCloses == if old(closed) then 0 else 1
    {
      if closed {
        return;
      }
      closed := true;
      var rest := streams.Keys;
      while rest != {}
        invariant rest <= streams.Keys && streams == old(streams) && closed && connCloses == 0
        invariant forall i | i in streams :: streams[i].doneCloses == if i in rest then 0 else 1
        decreases |rest|
      {
        var i :| i in rest;
        streams[i].CloseDone();
        rest := rest - {i};
      }
      streams := map[];
      connCloses := connCloses + 1;
    }
  }

  class TunnelManager {
    var tunnels: map<string, TunnelSession>

    ghost function Footprint(): set<object>
      reads this, tunnels.Values
    {
      (set n | n in tunnels :: tunnels[n] as object) +
      (set n, i | n in tunnels && i in tunnels[n].streams :: tunnels[n].streams[i] as object)
    }

    // Registered sessions are filed under their own node and share no stream.
    ghost predicate Valid()
      reads this, tunnels.Values, Footprint()
    {
      && (forall n | n in tunnels :: tunnels[n].nodeID == n && tunnels[n].Valid())
      && (forall m, n, i, j | m in tunnels && n in tunnels && m != n && i in tunnels[m].streams && j in tunnels[n].streams ::
            tunnels[m].streams[i] != tunnels[n].streams[j])
    }

    ghost predicate AllOpen()
      reads this, tunnels.Values
    {
      forall n | n in tunnels :: !tunnels[n].closed
    }

    constructor ()
      ensures Valid() && AllOpen() && tunnels == map[]
    {
      tunnels := map[];
    }

    /** Refuses a node that is registered already. */
    method Register(session: TunnelSession) returns (ok: bool)
      requires Valid() && session.Valid()
      requires forall i | i in session.streams :: session.streams[i] !in Footprint()
      modifies this
      ensures Valid()
      ensures old(AllOpen()) && !session.closed ==> AllOpen()
      ensures ok <==> session.nodeID !in old(tunnels)
      ensures tunnels == if ok then old(tunnels)[session.nodeID := session] else old(tunnels)
    {
      if session.nodeID in tunnels {
        return false;
      }
      tunnels := tunnels[session.nodeID := session];
      return true;
    }

    /** Closes the node's session, with its streams if it was open, and forgets it. */
    method Unregister(nodeID: string)
      requires Valid()
      modifies this, Footprint()
      ensures Valid() && tunnels == old(tunnels) - {nodeID} && (old(AllOpen()) ==> AllOpen())
      ensures nodeID in old(tunnels) ==>
                IsClosed(old(tunnels)[nodeID], !old(tunnels[nodeID].closed), old(tunnels[nodeID].streams))
    {
      if nodeID in tunnels {
        var session := tunnels[nodeID];
        session.Close();
        tunnels := tunnels - {nodeID};
      }
    }

    method IsConnected(nodeID: string) returns (connected: bool)
      ensures connected <==> nodeID in tunnels && !tunnels[nodeID].closed
      ensures AllOpen() ==> (connected <==> nodeID in tunnels)
    {
      connected := nodeID in tunnels && !tunnels[nodeID].closed;
    }

    /** Closes every session, with its streams if it was open, and forgets them all. */
    method Close()
      requires Valid()
      modifies this, Footprint()
      ensures Valid() && tunnels == map[]
      ensures forall n | n in old(tunnels) :: IsClosed(old(tunnels)[n], !old(tunnels[n].closed), old(tunnels[n].streams))
    {
      ghost var all: map<string, map<uint32, Stream>> := map n | n in tunnels :: tunnels[n].streams;
      ghost var was := map n | n in tunnels :: tunnels[n].closed;
      CloseSessions(tunnels, all, was, Footprint());
      tunnels := map[];
    }
  }

  // The loop of the manager's Close; `all` and `was` say what streams each session had and whether
  // it was closed.
  method CloseSessions(tunnels: map<string, TunnelSession>, ghost all: map<string, map<uint32, Stream>>, ghost was: map<string, bool>,
                       ghost repr: set<object>)
    requires Within(tunnels, all, was, repr) && Halfway(tunnels, all, was, tunnels.Keys, repr)
    modifies repr
    ensures forall n | n in tunnels :: IsClosed(tunnels[n], !was[n], all[n])
  {
    var rest := tunnels.Keys;
    while rest != {}
      invariant rest <= tunnels.Keys && Halfway(tunnels, all, was, rest, repr)
      decreases |rest|
    {
      var n :| n in rest;
      CloseOne(tunnels, n, all, was, rest, repr);
      rest := rest - {n};
    }
  }

  // One round of it, which leaves the other sessions as they are.
  method CloseOne(tunnels: map<string, TunnelSession>, n: string, ghost all: map<string, map<uint32, Stream>>, ghost was: map<string, bool>,
                  ghost rest: set<string>, ghost repr: set<object>)
    requires n in rest && rest <= tunnels.Keys && Within(tunnels, all, was, repr) && Halfway(tunnels, all, was, rest, repr)
    modifies repr
    ensures Halfway(tunnels, all, was, rest - {n}, repr)
  {
    assert forall m | m in tunnels && m != n :: tunnels[m] != tunnels[n];
    tunnels[n].Close();
  }

  // The sessions and the streams they had are in repr; none is listed twice.
  ghost predicate Within(tunnels: map<string, TunnelSession>, all: map<string, map<uint32, Stream>>, was: map<string, bool>, repr: set<object>) {
    && all.Keys == was.Keys == tunnels.Keys && NodesDiffer(tunnels) && NoSharing(all)
    && forall n | n in tunnels :: tunnels[n] in repr && all[n].Values <= repr
  }

  // The sessions in `rest` are as they were, the others are closed.
  ghost predicate Halfway(tunnels: map<string, TunnelSession>, all: map<string, map<uint32, Stream>>, was: map<string, bool>,
                          rest: set<string>, repr: set<object>)
    requires Within(tunnels, all, was, repr)
    reads repr
  {
    forall n | n in tunnels ::
      if n in rest then tunnels[n].streams == all[n] && Intact(tunnels[n], all[n], was[n])
      else IsClosed(tunnels[n], !was[n], all[n])
  }

  ghost predicate NodesDiffer(tunnels: map<string, TunnelSession>) {
    forall n | n in tunnels :: tunnels[n].nodeID == n
  }

  ghost predicate NoSharing(all: map<string, map<uint32, Stream>>) {
    forall m, n, i, j | m in all && n in all && m != n && i in all[m] && j in all[n] :: all[m][i] != all[n][j]
  }

  ghost predicate Intact(session: TunnelSession, streams: map<uint32, Stream>, wasClosed: bool)
    reads session, session.streams.Values
  {
    session.Valid() && session.streams == streams && session.closed == wasClosed
  }

  // The session is closed, its connection with it, and if it was open so is the Done of each of
  // the streams it had, once.
  ghost predicate IsClosed(session: TunnelSession, wasOpen: bool, streams: map<uint32, Stream>)
    reads session, streams.Values
  {
    && session.closed && session.connCloses == 1
    && (wasOpen ==> forall i | i in streams :: streams[i].doneCloses == 1)
  }
}
