/**
 The control plane's index of which node serves which stream (StreamingStrategy in
 internal/streaming/strategy.go). Stream types are strings; "hls" and "dash" are the known ones.
 */
module StreamIndexes {
  import opened GoText

  const HLS := "hls"
  const DASH := "dash"

  // node -> stream type -> stream keys
  type Streams = map<string, map<string, seq<string>>>

  predicate Has(s: Streams, node: string, kind: string, key: string) {
    node in s && kind in s[node] && key in s[node][kind]
  }

  predicate NoRepeats(keys: seq<string>) {
    forall i, j | 0 <= i < j < |keys| :: keys[i] != keys[j]
  }

  ghost predicate Valid(s: Streams) {
    forall n, t | n in s && t in s[n] :: NoRepeats(s[n][t])
  }

  predicate OnlyUnderOtherTypes(s: Streams, node: string, key: string) {
    && node in s && (exists t | t in s[node] :: key in s[node][t])
    && !Has(s, node, HLS, key) && !Has(s, node, DASH, key)
  }

  // Nothing changed but whether (node, kind, key) is there.
  ghost predicate ChangedOnlyAt(s: Streams, s': Streams, node: string, kind: string, key: string) {
    forall n, t, k | !(n == node && t == kind && k == key) :: Has(s', n, t, k) <==> Has(s, n, t, k)
  }

  class StreamingStrategy {
    const enabled: bool   // cfg present and switched on
    var nodeStreams: Streams

    constructor (enabled: bool)
      ensures this.enabled == enabled && nodeStreams == map[] && Valid(nodeStreams)
    {
      this.enabled := enabled;
      nodeStreams := map[];
    }

    method ReportStream(node: string, key: string, kind: string)
      requires Valid(nodeStreams)
      modifies this
      ensures Valid(nodeStreams) && Has(nodeStreams, node, kind, key)
      ensures ChangedOnlyAt(old(nodeStreams), nodeStreams, node, kind, key)
    {
      if node !in nodeStreams {
        nodeStreams := nodeStreams[node := map[]];
      }
      var streams := if kind in nodeStreams[node] then nodeStreams[node][kind] else [];
      var seen := false;
      for i := 0 to |streams|
        invariant !seen && key !in streams[..i]
      {
        if streams[i] == key {
          seen := true;
          break;
        }
      }
      if !seen {
        assert streams[..|streams|] == streams;
        nodeStreams := nodeStreams[node := nodeStreams[node][kind := streams + [key]]];
      }
    }

    method RemoveStream(node: string, key: string, kind: string)
      requires Valid(nodeStreams)
      modifies this
      ensures Valid(nodeStreams) && !Has(nodeStreams, node, kind, key)
      ensures ChangedOnlyAt(old(nodeStreams), nodeStreams, node, kind, key)
    {
      if node !in nodeStreams || kind !in nodeStreams[node] {
        return;
      }
      var streams := nodeStreams[node][kind];
      for i := 0 to |streams|
        invariant nodeStreams == old(nodeStreams) && key !in streams[..i]
      {
        if streams[i] == key {
          var spliced := streams[..i] + streams[i + 1..];
          nodeStreams := nodeStreams[node := nodeStreams[node][kind := spliced]];
          assert streams == streams[..i] + [key] + streams[i + 1..];
          assert forall k | k != key :: k in spliced <==> k in streams;
          assert key !in streams[i + 1..];
          return;
        }
      }
      assert streams[..|streams|] == streams;
    }

    /** The bonus for one node, given the stream key that the resource key names, if any. */
    method StreamScore(node: string, stream: Option<string>) returns (score: real)
      ensures score == ScoreOf(enabled, nodeStreams, node, stream)
    {
      if !enabled || stream.None? || node !in nodeStreams {
        return 0.0;
      }
      var types := [HLS, DASH];
      for t := 0 to 2
        invariant forall j | 0 <= j < t :: !Has(nodeStreams, node, types[j], stream.value)
      {
        var streams := if types[t] in nodeStreams[node] then nodeStreams[node][types[t]] else [];
        for i := 0 to |streams|
          invariant stream.value !in streams[..i]
        {
          if streams[i] == stream.value {
            return 20.0;
          }
        }
        assert streams[..|streams|] == streams;
      }
      assert !Has(nodeStreams, node, types[0], stream.value) && !Has(nodeStreams, node, types[1], stream.value);
      return 0.0;
    }

    /** All nodes at once, whatever type a stream was reported under. */
    method FindNodesWithStream(key: string) returns (nodes: set<string>)
      ensures forall n :: n in nodes <==> enabled && n in NodesWith(nodeStreams, key)
    {
      nodes := {};
      if !enabled {
        return;
      }
      var rest := nodeStreams.Keys;
      while rest != {}
        invariant rest <= nodeStreams.Keys
        invariant forall n :: n in nodes <==> n in NodesWith(nodeStreams, key) && n !in rest
        decreases |rest|
      {
        var n :| n in rest;
        var types := nodeStreams[n].Keys;
        while types != {}
          invariant types <= nodeStreams[n].Keys
          invariant n !in nodes ==> forall t | t in nodeStreams[n] && t !in types :: key !in nodeStreams[n][t]
          invariant n in nodes ==> n in NodesWith(nodeStreams, key)
          invariant forall m | m != n :: m in nodes <==> m in NodesWith(nodeStreams, key) && m !in rest
          decreases |types|
        {
          var t :| t in types;
          if key in nodeStreams[n][t] {
            nodes := nodes + {n};
          }
          types := types - {t};
        }
        rest := rest - {n};
      }
    }
  }

  function ScoreOf(enabled: bool, s: Streams, node: string, stream: Option<string>): real {
    if enabled && stream.Some? && (Has(s, node, HLS, stream.value) || Has(s, node, DASH, stream.value)) then 20.0
    else 0.0
  }

  function NodesWith(s: Streams, key: string): set<string> {
    set n | n in s && exists t | t in s[n] :: key in s[n][t]
  }

  /** The two lookups agree on a node if and only if it does not have the stream under some other
      type only: FindNodesWithStream looks at every type, StreamScore at "hls" and "dash". */
  lemma LookupsAgreeExactly(enabled: bool, s: Streams, node: string, key: string)
    ensures ((enabled && node in NodesWith(s, key)) <==> ScoreOf(enabled, s, node, Some(key)) > 0.0)
            <==> !(enabled && OnlyUnderOtherTypes(s, node, key))
  {
    if Has(s, node, HLS, key) {
      assert HLS in s[node];
    }
    if Has(s, node, DASH, key) {
      assert DASH in s[node];
    }
  }

  /** They do disagree after any report under another type of a stream that the node does not have
      under the two known ones. */
  lemma OtherTypeIsMissed(s: Streams, s': Streams, node: string, key: string, kind: string)
    requires Has(s', node, kind, key) && ChangedOnlyAt(s, s', node, kind, key)
    requires kind != HLS && kind != DASH && !Has(s, node, HLS, key) && !Has(s, node, DASH, key)
    ensures node in NodesWith(s', key) && ScoreOf(true, s', node, Some(key)) == 0.0
  {
    assert kind in s'[node];
    assert !Has(s', node, HLS, key) && !Has(s', node, DASH, key);
  }

  // ---------- Histories ----------

  datatype Op =
    | Report(node: string, key: string, kind: string)
    | Remove(node: string, key: string, kind: string)

  // The latest operation on this very stream was a report.
  predicate LatestIsReport(ops: seq<Op>, node: string, kind: string, key: string) {
    if ops == [] then false
    else
      var op := ops[|ops| - 1];
      if op.node == node && op.kind == kind && op.key == key then op.Report?
      else LatestIsReport(ops[..|ops| - 1], node, kind, key)
  }

  /** Replaying any history, a node has a stream under a type exactly when the latest operation on
      it was a report. */
  method Replay(ops: seq<Op>, enabled: bool) returns (ss: StreamingStrategy)
    ensures Valid(ss.nodeStreams)
    ensures forall n, t, k :: Has(ss.nodeStreams, n, t, k) <==> LatestIsReport(ops, n, t, k)
  {
    ss := new StreamingStrategy(enabled);
    for i := 0 to |ops|
      invariant fresh(ss) && Valid(ss.nodeStreams)
      invariant forall n, t, k :: Has(ss.nodeStreams, n, t, k) <==> LatestIsReport(ops[..i], n, t, k)
    {
      assert ops[..i + 1][..i] == ops[..i] && ops[..i + 1][i] == ops[i];
      match ops[i] {
        case Report(n, k, t) => ss.ReportStream(n, k, t);
        case Remove(n, k, t) => ss.RemoveStream(n, k, t);
      }
    }
    assert ops[..|ops|] == ops;
  }
}
