/**
 Choosing the edge nodes for a request (internal/controlplane/scheduler.go): two filters, a
 score per node, and the best MaxCandidates of them. Scores are reals.
 */
module Dispatch {
  import opened GoText
  import opened BloomFilters
  import opened ContentIndexes
  import opened StreamIndexes
  import opened TopK

  const STATUS_DISABLED := "DISABLED"
  const STATUS_MAINTENANCE := "MAINTENANCE"

  datatype Capabilities = Capabilities(inboundReachable: bool, tunnelRequired: bool,
                                       maxUplinkMbps: int, currentEgressMbps: real, shieldMode: bool)
  datatype NodeScores = NodeScores(reachable: real, health: real, risk: real)
  // An endpoint is its URL.
  datatype Node = Node(id: string, region: string, isp: string, status: string,
                       endpoints: seq<string>, caps: Capabilities, scores: NodeScores)
  datatype Client = Client(region: string, isp: string)
  datatype Config = Config(smallBandwidth: bool, threshold: int, hotWeight: real, contentWeight: real,
                           maxCandidates: int, degradeToOrigin: bool, originURL: string)

  // What the scheduler sees while it serves one request. A component that is not set is None;
  // `infer` finds the stream that a chunk's key belongs to, the empty string if it finds none.
  datatype World = World(cfg: Config, hash: HashFn, index: Option<Index>,
                         streams: Option<Streams>, streamsEnabled: bool,
                         infer: string -> string, tunnels: Option<set<string>>)

  predicate Ready(w: World) {
    w.index.Some? ==> Probeable(w.index.value)
  }

  // ---------- Filters ----------

  // `filter`
  predicate Eligible(w: World, n: Node) {
    && n.status != STATUS_DISABLED && n.status != STATUS_MAINTENANCE
    && if n.caps.inboundReachable then n.scores.reachable >= 10.0
       else n.caps.tunnelRequired && w.tunnels.Some? && n.id in w.tunnels.value
  }

  predicate IsCached(w: World, id: string, key: string)
    requires Ready(w)
  {
    w.index.Some? && (IsHot(w.index.value, id, key) || InBloom(w.index.value, w.hash, id, key))
  }

  predicate IsSmall(w: World, n: Node) {
    0 < n.caps.maxUplinkMbps < w.cfg.threshold
  }

  // `filterForSmallBandwidth`
  predicate KeepsSmall(w: World, key: string, n: Node)
    requires Ready(w)
  {
    IsSmall(w, n) && key != "" && w.index.Some? && !IsCached(w, n.id, key) ==>
      n.caps.currentEgressMbps / n.caps.maxUplinkMbps as real < 0.5
  }

  // The elements that pass, in order.
  function Select<T>(s: seq<T>, p: T -> bool): seq<T> {
    if s == [] then [] else Select(s[..|s| - 1], p) + if p(s[|s| - 1]) then [s[|s| - 1]] else []
  }

  /** Selecting keeps every passing element, as often as it occurs, and no other. */
  lemma {:induction false} SelectKeepsExactly<T>(s: seq<T>, p: T -> bool, x: T)
    ensures multiset(Select(s, p))[x] == if p(x) then multiset(s)[x] else 0
  {
    if s != [] {
      SelectKeepsExactly(s[..|s| - 1], p, x);
      assert s == s[..|s| - 1] + [s[|s| - 1]];
    }
  }

  /** The competing nodes are those that pass the first filter and, while the optimisation is on, the
      second, each as often as it is listed. */
  lemma PoolExactly(w: World, key: string, nodes: seq<Node>, n: Node)
    requires Ready(w)
    ensures multiset(Pool(w, key, nodes))[n]
            == if Eligible(w, n) && (w.cfg.smallBandwidth ==> KeepsSmall(w, key, n)) then multiset(nodes)[n] else 0
  {
    SelectKeepsExactly(nodes, x => Eligible(w, x), n);
    SelectKeepsExactly(Select(nodes, x => Eligible(w, x)), x => KeepsSmall(w, key, x), n);
  }

  lemma SelectSnoc<T>(s: seq<T>, i: nat, p: T -> bool)
    requires i < |s|
    ensures Select(s[..i + 1], p) == Select(s[..i], p) + if p(s[i]) then [s[i]] else []
  {
    assert s[..i + 1][..i] == s[..i];
  }

  // The nodes that compete for the request.
  function Pool(w: World, key: string, nodes: seq<Node>): seq<Node>
    requires Ready(w)
  {
    var eligible := Select(nodes, n => Eligible(w, n));
    if w.cfg.smallBandwidth then Select(eligible, n => KeepsSmall(w, key, n)) else eligible
  }

  method Filter(w: World, nodes: seq<Node>) returns (filtered: seq<Node>)
    ensures filtered == Select(nodes, n => Eligible(w, n))
  {
    filtered := [];
    for i := 0 to |nodes|
      invariant filtered == Select(nodes[..i], n => Eligible(w, n))
    {
      assert nodes[..i + 1][..i] == nodes[..i];
      var n := nodes[i];
      if n.status == STATUS_DISABLED || n.status == STATUS_MAINTENANCE {
        continue;
      }
      if n.caps.inboundReachable {
        if n.scores.reachable >= 10.0 {
          filtered := filtered + [n];
        }
      } else if n.caps.tunnelRequired && w.tunnels.Some? {
        if n.id in w.tunnels.value {
          filtered := filtered + [n];
        }
      }
    }
    assert nodes[..|nodes|] == nodes;
  }

  /** Compacts the passing nodes to the front of the same array. */
  method FilterForSmallBandwidth(w: World, nodes: array<Node>, key: string) returns (n: nat)
    requires Ready(w)
    modifies nodes
    ensures n <= nodes.Length
    ensures nodes[..n] == if w.cfg.smallBandwidth then Select(old(nodes[..]), x => KeepsSmall(w, key, x)) else old(nodes[..])
  {
    if !w.cfg.smallBandwidth {
      return nodes.Length;
    }
    n := 0;
    for i := 0 to nodes.Length
      invariant n <= i && nodes[i..] == old(nodes[..])[i..]
      invariant nodes[..n] == Select(old(nodes[..])[..i], x => KeepsSmall(w, key, x))
    {
      var node := nodes[i];
      var keep := true;
      if IsSmall(w, node) && key != "" && w.index.Some? {
        keep := IsCached(w, node.id, key) || node.caps.currentEgressMbps / node.caps.maxUplinkMbps as real < 0.5;
      }
      SelectSnoc(old(nodes[..]), i, x => KeepsSmall(w, key, x));
      if keep {
        ghost var front := nodes[..n];
        nodes[n] := node;
        n := n + 1;
        assert nodes[..n] == front + [node];
      }
    }
    assert old(nodes[..])[..nodes.Length] == old(nodes[..]);
  }

  // ---------- Scores ----------

  // Node sets looked up once per request; empty sets stand for nil maps.
  datatype Lookup = Lookup(hot: set<string>, bloom: set<string>, streams: set<string>)

  const NoLookup: Lookup := Lookup({}, {}, {})

  predicate IsLookup(w: World, key: string, t: Lookup)
    requires Ready(w)
  {
    && (forall n | n in t.hot :: w.index.Some? && key != "" && IsHot(w.index.value, n, key))
    && (forall n | n in t.bloom :: w.index.Some? && key != "" && !IsHot(w.index.value, n, key) && InBloom(w.index.value, w.hash, n, key))
    && (w.index.Some? && key != "" ==>
          && (forall n | n in w.index.value.hotKeys && IsHot(w.index.value, n, key) :: n in t.hot)
          && (forall n | n in w.index.value.blooms && !IsHot(w.index.value, n, key) && InBloom(w.index.value, w.hash, n, key) :: n in t.bloom))
    && t.streams == StreamNodes(w, key)
  }

  function StreamNodes(w: World, key: string): set<string> {
    if w.streams.Some? && w.streamsEnabled && key != "" && w.infer(key) != ""
    then NodesWith(w.streams.value, w.infer(key)) else {}
  }

  function StreamOf(w: World, key: string): Option<string> {
    if w.infer(key) == "" then None else Some(w.infer(key))
  }

  function MatchScore(n: Node, c: Client): real {
    (if n.region == c.region && c.region != "" then 30.0 else 0.0)
    + (if n.isp == c.isp && c.isp != "" then 20.0 else 0.0)
    + (n.scores.reachable * 0.3 + n.scores.health * 0.2 - n.scores.risk * 0.5)
    - (if n.caps.tunnelRequired then 15.0 else 0.0)
  }

  function ContentScore(w: World, n: Node, key: string, t: Lookup): real
    requires Ready(w)
  {
    if key == "" then 0.0
    else
      (if n.id in t.hot then w.cfg.hotWeight
       else if n.id in t.bloom then w.cfg.contentWeight
       else if w.index.Some? then
         if IsHot(w.index.value, n.id, key) then w.cfg.hotWeight
         else if InBloom(w.index.value, w.hash, n.id, key) then w.cfg.contentWeight
         else 0.0
       else 0.0)
      + (if n.id in t.streams then 20.0
         else if w.streams.Some? then ScoreOf(w.streamsEnabled, w.streams.value, n.id, StreamOf(w, key))
         else 0.0)
  }

  function BandwidthScore(w: World, n: Node, t: Lookup): real {
    if !w.cfg.smallBandwidth then 0.0
    else
      var bw := n.caps.maxUplinkMbps;
      (if bw > 0 then
         (if bw as real * 0.2 > 20.0 then 20.0 else bw as real * 0.2)
         - (if n.caps.currentEgressMbps > bw as real * 0.8 then 15.0 else 0.0)
         + (if bw < w.cfg.threshold && (n.id in t.hot || n.id in t.bloom) then 30.0 else 0.0)
       else 0.0)
      + (if n.caps.shieldMode then 20.0 else 0.0)
  }

  function RawScore(w: World, n: Node, c: Client, key: string, t: Lookup): real
    requires Ready(w)
  {
    MatchScore(n, c) + ContentScore(w, n, key, t) + BandwidthScore(w, n, t)
  }

  // `scoreKeyFast`; with NoLookup it is `scoreKey`.
  function Score(w: World, n: Node, c: Client, key: string, t: Lookup): real
    requires Ready(w)
  {
    var raw := RawScore(w, n, c, key, t);
    if raw < 0.0 then 0.0 else raw
  }

  // The two places where looking up all nodes at once scores a node differently.
  function CachedBonus(w: World, n: Node, key: string): real
    requires Ready(w)
  {
    if w.cfg.smallBandwidth && IsSmall(w, n) && key != "" && IsCached(w, n.id, key) then 30.0 else 0.0
  }

  function OtherTypeBonus(w: World, n: Node, key: string): real {
    if && w.streams.Some? && w.streamsEnabled && key != "" && w.infer(key) != ""
       && OnlyUnderOtherTypes(w.streams.value, n.id, w.infer(key))
    then 20.0 else 0.0
  }

  /** The fast scorer is the per-node one, before clamping at zero, plus 30 exactly for a cached node
      of small bandwidth while the optimisation is on, plus 20 exactly for a node that has the
      stream under a type other than "hls" and "dash" only. */
  lemma FastScoreExactly(w: World, n: Node, c: Client, key: string, t: Lookup)
    requires Ready(w) && IsLookup(w, key, t)
    ensures RawScore(w, n, c, key, t) ==
              RawScore(w, n, c, key, NoLookup) + CachedBonus(w, n, key) + OtherTypeBonus(w, n, key)
  {
    assert n.id in t.hot <==> w.index.Some? && key != "" && IsHot(w.index.value, n.id, key);
    assert n.id in t.bloom <==> w.index.Some? && key != "" && !IsHot(w.index.value, n.id, key) && InBloom(w.index.value, w.hash, n.id, key);
    if key != "" && w.streams.Some? && w.infer(key) != "" {
      LookupsAgreeExactly(w.streamsEnabled, w.streams.value, n.id, w.infer(key));
    }
    assert ContentScore(w, n, key, t) == ContentScore(w, n, key, NoLookup) + OtherTypeBonus(w, n, key);
    assert BandwidthScore(w, n, t) == BandwidthScore(w, n, NoLookup) + CachedBonus(w, n, key);
  }

  // ---------- What each part of a score is worth ----------

  function If(b: bool, x: real): real {
    if b then x else 0.0
  }

  lemma SameElsewhere(w: World, n: Node, m: Node, key: string, t: Lookup)
    requires Ready(w) && m.id == n.id && m.caps == n.caps
    ensures ContentScore(w, m, key, t) == ContentScore(w, n, key, t) && BandwidthScore(w, m, t) == BandwidthScore(w, n, t)
  {
  }

  /** Reachability counts 0.3, health 0.2, and risk 0.5 against the node. */
  lemma ScoresAreWorth(w: World, n: Node, c: Client, key: string, t: Lookup, x: NodeScores)
    requires Ready(w)
    ensures RawScore(w, n.(scores := x), c, key, t) - RawScore(w, n, c, key, t)
            == (x.reachable - n.scores.reachable) * 0.3 + (x.health - n.scores.health) * 0.2 - (x.risk - n.scores.risk) * 0.5
  {
    SameElsewhere(w, n, n.(scores := x), key, t);
  }

  /** The client's region is worth 30 and its ISP 20, if it has them. */
  lemma PlaceIsWorth(w: World, n: Node, c: Client, key: string, t: Lookup, region: string, isp: string)
    requires Ready(w)
    ensures RawScore(w, n.(region := region), c, key, t) - RawScore(w, n, c, key, t)
            == If(c.region != "" && region == c.region, 30.0) - If(c.region != "" && n.region == c.region, 30.0)
    ensures RawScore(w, n.(isp := isp), c, key, t) - RawScore(w, n, c, key, t)
            == If(c.isp != "" && isp == c.isp, 20.0) - If(c.isp != "" && n.isp == c.isp, 20.0)
  {
    SameElsewhere(w, n, n.(region := region), key, t);
    SameElsewhere(w, n, n.(isp := isp), key, t);
  }

  /** Needing a tunnel costs 15. */
  lemma TunnelIsWorth(w: World, n: Node, c: Client, key: string, t: Lookup)
    requires Ready(w)
    ensures RawScore(w, n.(caps := n.caps.(tunnelRequired := true)), c, key, t)
            == RawScore(w, n.(caps := n.caps.(tunnelRequired := false)), c, key, t) - 15.0
  {
  }

  // Only what the bandwidth score reads was changed.
  lemma SameButBandwidth(w: World, n: Node, m: Node, c: Client, key: string, t: Lookup)
    requires Ready(w) && m == n.(caps := m.caps) && m.caps.tunnelRequired == n.caps.tunnelRequired
    ensures RawScore(w, m, c, key, t) - RawScore(w, n, c, key, t) == BandwidthScore(w, m, t) - BandwidthScore(w, n, t)
  {
  }

  /** While the optimisation is on, a shield node gets 20. */
  lemma ShieldIsWorth(w: World, n: Node, c: Client, key: string, t: Lookup)
    requires Ready(w)
    ensures RawScore(w, n.(caps := n.caps.(shieldMode := true)), c, key, t)
            == RawScore(w, n.(caps := n.caps.(shieldMode := false)), c, key, t) + If(w.cfg.smallBandwidth, 20.0)
  {
    SameButBandwidth(w, n, n.(caps := n.caps.(shieldMode := true)), c, key, t);
    SameButBandwidth(w, n, n.(caps := n.caps.(shieldMode := false)), c, key, t);
  }

  /** While it is on, egress above 80 percent of a known uplink costs 15. */
  lemma CongestionIsWorth(w: World, n: Node, c: Client, key: string, t: Lookup, egress: real)
    requires Ready(w)
    ensures
      var on, limit := w.cfg.smallBandwidth && n.caps.maxUplinkMbps > 0, n.caps.maxUplinkMbps as real * 0.8;
      RawScore(w, n.(caps := n.caps.(currentEgressMbps := egress)), c, key, t) - RawScore(w, n, c, key, t)
      == If(on && n.caps.currentEgressMbps > limit, 15.0) - If(on && egress > limit, 15.0)
  {
    SameButBandwidth(w, n, n.(caps := n.caps.(currentEgressMbps := egress)), c, key, t);
  }

  /** While it is on, an idle node's uplink is worth a fifth of its Mbps, up to 20, against an unknown one. */
  lemma UplinkIsWorth(w: World, n: Node, c: Client, key: string, uplink: int)
    requires Ready(w) && n.caps.currentEgressMbps == 0.0
    ensures
      var rated, unknown := n.(caps := n.caps.(maxUplinkMbps := uplink)), n.(caps := n.caps.(maxUplinkMbps := 0));
      RawScore(w, rated, c, key, NoLookup) - RawScore(w, unknown, c, key, NoLookup)
      == If(w.cfg.smallBandwidth && uplink > 0, if uplink >= 100 then 20.0 else uplink as real / 5.0)
  {
    SameButBandwidth(w, n.(caps := n.caps.(maxUplinkMbps := 0)), n.(caps := n.caps.(maxUplinkMbps := uplink)), c, key, NoLookup);
  }

  /** A hot key is worth the hot weight and a key in the filter the content weight, against having no
      index; a stream known under "hls" or "dash" is worth 20, against having none. */
  lemma ContentIsWorth(w: World, n: Node, c: Client, key: string)
    requires Ready(w)
    ensures RawScore(w, n, c, key, NoLookup) - RawScore(w.(index := None), n, c, key, NoLookup)
            == if key == "" || w.index.None? then 0.0
               else if IsHot(w.index.value, n.id, key) then w.cfg.hotWeight
               else If(InBloom(w.index.value, w.hash, n.id, key), w.cfg.contentWeight)
    ensures RawScore(w, n, c, key, NoLookup) - RawScore(w.(streams := None), n, c, key, NoLookup)
            == If(&& key != "" && w.streams.Some? && w.streamsEnabled && w.infer(key) != ""
                  && (Has(w.streams.value, n.id, HLS, w.infer(key)) || Has(w.streams.value, n.id, DASH, w.infer(key))), 20.0)
  {
  }

  /** A node about which nothing is known scores nothing, and no score is negative. */
  lemma ScoresStartAtZero(w: World, n: Node, c: Client, key: string, t: Lookup)
    requires Ready(w)
    ensures
      var blank := Node(n.id, "", "", n.status, n.endpoints, Capabilities(n.caps.inboundReachable, false, 0, 0.0, false), NodeScores(0.0, 0.0, 0.0));
      RawScore(w.(index := None, streams := None), blank, c, key, NoLookup) == 0.0
    ensures Score(w, n, c, key, t) >= 0.0 && Score(w, n, c, key, t) >= RawScore(w, n, c, key, t)
    ensures Score(w, n, c, key, t) > 0.0 ==> Score(w, n, c, key, t) == RawScore(w, n, c, key, t)
  {
  }

  // ---------- Which nodes pass ----------

  /** Disabled nodes and those in maintenance never pass. A reachable one passes from a reachability of
      10 on, another one exactly if it uses a tunnel and the tunnel is connected. */
  lemma EligibleExactly(w: World, n: Node)
    ensures n.status in {"DISABLED", "MAINTENANCE"} ==> !Eligible(w, n)
    ensures n.status !in {"DISABLED", "MAINTENANCE"} && n.caps.inboundReachable ==> (Eligible(w, n) <==> 10.0 <= n.scores.reachable)
    ensures n.status !in {"DISABLED", "MAINTENANCE"} && !n.caps.inboundReachable ==>
              (Eligible(w, n) <==> n.caps.tunnelRequired && w.tunnels.Some? && n.id in w.tunnels.value)
  {
  }

  /** The second filter drops a node exactly if its uplink is known and below the threshold, the key is
      known not to be cached there, and at least half of the uplink is in use. */
  lemma DroppedExactly(w: World, key: string, n: Node)
    requires Ready(w)
    ensures !KeepsSmall(w, key, n)
            <==> && 0 < n.caps.maxUplinkMbps < w.cfg.threshold && key != "" && w.index.Some?
                 && !IsHot(w.index.value, n.id, key) && !InBloom(w.index.value, w.hash, n.id, key)
                 && n.caps.maxUplinkMbps as real <= 2.0 * n.caps.currentEgressMbps
  {
    if 0 < n.caps.maxUplinkMbps {
      HalfOf(n.caps.currentEgressMbps, n.caps.maxUplinkMbps as real);
    }
  }

  lemma HalfOf(x: real, y: real)
    requires y > 0.0
    ensures x / y < 0.5 <==> 2.0 * x < y
  {
    assert x / y * y == x;
  }

  // ---------- Resolving a request ----------

  datatype Candidate = Candidate(id: string, endpoint: string, weight: int, region: string, isp: string, proxyMode: string)

  datatype Response = Failed | Response(candidates: seq<Candidate>, token: Option<string>)

  function ToCandidate(sn: Scored<Node>): Candidate {
    var n := sn.item;
    Candidate(n.id, if n.caps.inboundReachable && |n.endpoints| > 0 then n.endpoints[0] else "",
              sn.score.Floor, n.region, n.isp, if n.caps.tunnelRequired then "tunnel" else "direct")
  }

  // `NoOriginFallback`
  function Fallback(cfg: Config): seq<Candidate> {
    if !cfg.degradeToOrigin then []
    else [Candidate("origin", if cfg.originURL == "" then "http://localhost:7070" else cfg.originURL, 1, "", "", "")]
  }

  function Offers(w: World, pool: seq<Node>, c: Client, key: string, t: Lookup): (offers: seq<Scored<Node>>)
    requires Ready(w)
  {
    seq(|pool|, i requires 0 <= i < |pool| => Scored(pool[i], Score(w, pool[i], c, key, t)))
  }

  function Candidates(ranked: seq<Scored<Node>>): seq<Candidate> {
    seq(|ranked|, i requires 0 <= i < |ranked| => ToCandidate(ranked[i]))
  }

  method FindPool(w: World, key: string, nodes: seq<Node>) returns (pool: seq<Node>)
    requires Ready(w)
    ensures pool == Pool(w, key, nodes)
  {
    var filtered := Filter(w, nodes);
    var slice := new Node[|filtered|](i requires 0 <= i < |filtered| => filtered[i]);
    assert slice[..] == filtered;
    var n := FilterForSmallBandwidth(w, slice, key);
    pool := slice[..n];
  }

  method ScoreAll(w: World, pool: seq<Node>, c: Client, key: string, t: Lookup) returns (offers: seq<Scored<Node>>)
    requires Ready(w)
    ensures offers == Offers(w, pool, c, key, t)
  {
    offers := [];
    for i := 0 to |pool|
      invariant offers == Offers(w, pool[..i], c, key, t)
    {
      offers := offers + [Scored(pool[i], Score(w, pool[i], c, key, t))];
    }
    assert pool[..|pool|] == pool;
  }

  method ToCandidates(ranked: seq<Scored<Node>>) returns (candidates: seq<Candidate>)
    ensures candidates == Candidates(ranked)
  {
    candidates := [];
    for i := 0 to |ranked|
      invariant candidates == Candidates(ranked[..i])
    {
      candidates := candidates + [ToCandidate(ranked[i])];
    }
    assert ranked[..|ranked|] == ranked;
  }

  /** The best MaxCandidates of the pool, best first. */
  ghost predicate IsRanking(w: World, pool: seq<Node>, c: Client, key: string, t: Lookup, ranked: seq<Scored<Node>>)
    requires Ready(w)
  {
    Descending(ranked) && IsTopK(multiset(ranked), multiset(Offers(w, pool, c, key, t)), Max(w.cfg.maxCandidates, 0))
  }

  method RankPool(w: World, pool: seq<Node>, c: Client, key: string, t: Lookup) returns (ranked: seq<Scored<Node>>)
    requires Ready(w)
    ensures IsRanking(w, pool, c, key, t, ranked)
  {
    var offers := ScoreAll(w, pool, c, key, t);
    ranked := Rank(offers, w.cfg.maxCandidates);
  }

  class Scheduler {
    const cfg: Config
    const contentIndex: ContentIndex?
    const streamStrat: StreamingStrategy?
    const infer: string -> string
    const hash: HashFn

    constructor (cfg: Config, contentIndex: ContentIndex?, streamStrat: StreamingStrategy?,
                 infer: string -> string, hash: HashFn)
      ensures this.cfg == cfg && this.contentIndex == contentIndex && this.streamStrat == streamStrat
      ensures this.infer == infer && this.hash == hash
    {
      this.cfg, this.contentIndex, this.streamStrat := cfg, contentIndex, streamStrat;
      this.infer, this.hash := infer, hash;
    }

    ghost predicate Wired()
      reads this, contentIndex
    {
      contentIndex != null ==> contentIndex.hash == hash && Probeable(contentIndex.View())
    }

    function View(tunnels: Option<set<string>>): (w: World)
      reads this, contentIndex, streamStrat
      ensures Wired() ==> Ready(w)
    {
      World(cfg, hash, if contentIndex == null then None else Some(contentIndex.View()),
            if streamStrat == null then None else Some(streamStrat.nodeStreams),
            streamStrat != null && streamStrat.enabled, infer, tunnels)
    }

    method Tables(key: string, tunnels: Option<set<string>>) returns (t: Lookup)
      requires Wired()
      ensures IsLookup(View(tunnels), key, t)
    {
      t := NoLookup;
      if contentIndex != null && key != "" {
        var hot, bloom := contentIndex.FindNodesWithKey(key);
        t := t.(hot := hot, bloom := bloom);
      }
      if streamStrat != null && key != "" {
        if infer(key) != "" {
          var nodes := streamStrat.FindNodesWithStream(infer(key));
          t := t.(streams := nodes);
          assert nodes == StreamNodes(View(tunnels), key);
        }
      }
    }

    /** With n > 0 nodes passing the filters, exactly min(max(K, 0), n) of them are returned, the
        best ones, best first, with a token; with none, the fallback, without one. Failing to list
        the nodes or to sign the token (`signed` is what the signer answers) fails the request. */
    method Resolve(listed: Option<seq<Node>>, client: Client, key: string, tunnels: Option<set<string>>, signed: Option<string>)
      returns (response: Response, t: Lookup, ranked: seq<Scored<Node>>)
      requires Wired()
      ensures listed.None? ==> response == Failed
      ensures listed.Some? ==>
        var w := View(tunnels);
        var pool := Pool(w, key, listed.value);
        if pool == [] then response == Response(Fallback(cfg), None)
        else
          && IsLookup(w, key, t) && IsRanking(w, pool, client, key, t, ranked)
          && response == if signed.None? then Failed else Response(Candidates(ranked), signed)
    {
      t, ranked := NoLookup, [];
      if listed.None? {
        return Failed, t, ranked;
      }
      var w := View(tunnels);
      var pool := FindPool(w, key, listed.value);
      if |pool| == 0 {
        return Response(Fallback(cfg), None), t, ranked;
      }
      t := Tables(key, tunnels);
      ranked := RankPool(w, pool, client, key, t);
      var candidates := ToCandidates(ranked);
      response := if signed.None? then Failed else Response(candidates, signed);
    }
  }

  // ---------- What the client gets ----------

  /** A candidate is the node it stands for, with its first endpoint if it is reachable and has one, and
      the whole part of its score as weight. */
  lemma CandidateSays(sn: Scored<Node>)
    ensures
      var k, n := ToCandidate(sn), sn.item;
      && k.id == n.id && k.region == n.region && k.isp == n.isp
      && k.weight as real <= sn.score < k.weight as real + 1.0
      && (k.proxyMode == "tunnel" <==> n.caps.tunnelRequired) && (k.proxyMode == "direct" <==> !n.caps.tunnelRequired)
      && (n.caps.inboundReachable && n.endpoints != [] ==> k.endpoint == n.endpoints[0])
      && (!n.caps.inboundReachable || n.endpoints == [] ==> k.endpoint == "")
  {
  }

  /** The fallback is the origin alone, at its configured or its default address, or nothing. */
  lemma FallbackSays(cfg: Config)
    ensures Fallback(cfg) == [] <==> !cfg.degradeToOrigin
    ensures cfg.degradeToOrigin ==>
              && |Fallback(cfg)| == 1 && Fallback(cfg)[0].id == "origin" && Fallback(cfg)[0].weight == 1
              && (cfg.originURL != "" ==> Fallback(cfg)[0].endpoint == cfg.originURL)
              && (cfg.originURL == "" ==> Fallback(cfg)[0].endpoint == "http://localhost:7070")
  {
  }

  /** Of two nodes that compete, the one that scores higher is returned if the other is. */
  lemma HigherScoreWins(w: World, pool: seq<Node>, c: Client, key: string, t: Lookup, ranked: seq<Scored<Node>>, a: nat, i: nat)
    requires Ready(w) && IsRanking(w, pool, c, key, t, ranked) && a < |pool| && i < |ranked|
    requires Score(w, pool[a], c, key, t) > ranked[i].score
    ensures exists j :: 0 <= j < i && ranked[j].item == pool[a]
  {
    var offers := Offers(w, pool, c, key, t);
    var x := offers[a];
    assert x in multiset(offers) && ranked[i] in multiset(ranked);
    assert x in multiset(ranked) || x in multiset(offers) - multiset(ranked);
    var j :| 0 <= j < |ranked| && ranked[j] == x;
  }

  // ---------- No candidate twice ----------

  predicate DistinctIds(nodes: seq<Node>) {
    forall a, b | 0 <= a < b < |nodes| :: nodes[a].id != nodes[b].id
  }

  lemma {:induction false} SelectKeepsIdsDistinct(s: seq<Node>, p: Node -> bool)
    requires DistinctIds(s)
    ensures DistinctIds(Select(s, p)) && forall x | x in Select(s, p) :: x in s && p(x)
  {
    if s != [] {
      var init, last := s[..|s| - 1], s[|s| - 1];
      SelectKeepsIdsDistinct(init, p);
      forall a | 0 <= a < |Select(init, p)| ensures Select(init, p)[a].id != last.id {
        assert Select(init, p)[a] in init;
      }
      assert s == init + [last];
    }
  }

  lemma PoolKeepsIdsDistinct(w: World, key: string, nodes: seq<Node>)
    requires Ready(w) && DistinctIds(nodes)
    ensures DistinctIds(Pool(w, key, nodes)) && forall x | x in Pool(w, key, nodes) :: x in nodes && Eligible(w, x)
  {
    SelectKeepsIdsDistinct(nodes, n => Eligible(w, n));
    if w.cfg.smallBandwidth {
      SelectKeepsIdsDistinct(Select(nodes, n => Eligible(w, n)), n => KeepsSmall(w, key, n));
    }
  }

  lemma RankedKeepsIdsDistinct(w: World, pool: seq<Node>, c: Client, key: string, t: Lookup, ranked: seq<Scored<Node>>, i: nat, j: nat)
    requires Ready(w) && multiset(ranked) <= multiset(Offers(w, pool, c, key, t)) && DistinctIds(pool) && i < j < |ranked|
    ensures ranked[i].item.id != ranked[j].item.id
  {
    var offers := Offers(w, pool, c, key, t);
    assert ranked[i] in multiset(ranked) && ranked[j] in multiset(ranked);
    var a :| 0 <= a < |offers| && offers[a] == ranked[i];
    var b :| 0 <= b < |offers| && offers[b] == ranked[j];
    if ranked[i].item.id == ranked[j].item.id {
      assert a == b && ranked[i] == ranked[j];
      TwiceCounted(ranked, i, j);
      OnceCounted(offers, a);
    }
  }

  /** When the listed nodes have different IDs, so have the candidates, and each is the ID of a listed
      node that is eligible. */
  lemma CandidatesAreDifferent(w: World, nodes: seq<Node>, c: Client, key: string, t: Lookup, ranked: seq<Scored<Node>>)
    requires Ready(w) && DistinctIds(nodes) && IsRanking(w, Pool(w, key, nodes), c, key, t, ranked)
    ensures forall i, j | 0 <= i < j < |ranked| :: Candidates(ranked)[i].id != Candidates(ranked)[j].id
    ensures forall i | 0 <= i < |ranked| :: exists n :: n in nodes && Eligible(w, n) && n.id == Candidates(ranked)[i].id
  {
    var pool := Pool(w, key, nodes);
    PoolKeepsIdsDistinct(w, key, nodes);
    forall i, j | 0 <= i < j < |ranked| ensures Candidates(ranked)[i].id != Candidates(ranked)[j].id {
      RankedKeepsIdsDistinct(w, pool, c, key, t, ranked, i, j);
    }
    forall i | 0 <= i < |ranked| ensures exists n :: n in nodes && Eligible(w, n) && n.id == Candidates(ranked)[i].id {
      RankedFromPool(w, pool, c, key, t, ranked, i);
    }
  }

  /** Every ranked node competes, with its own score. */
  lemma RankedFromPool(w: World, pool: seq<Node>, c: Client, key: string, t: Lookup, ranked: seq<Scored<Node>>, i: nat)
    requires Ready(w) && multiset(ranked) <= multiset(Offers(w, pool, c, key, t)) && i < |ranked|
    ensures ranked[i].item in pool && ranked[i].score == Score(w, ranked[i].item, c, key, t)
  {
    assert ranked[i] in multiset(ranked);
    var a :| 0 <= a < |pool| && Offers(w, pool, c, key, t)[a] == ranked[i];
  }
}
