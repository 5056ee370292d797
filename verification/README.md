# Edge Dispatch Framework: a verified model of its core

The Edge Dispatch Framework is a small content delivery network in Go: control-plane instances that
elect a leader and dispatch clients to edge nodes, edge agents that cache objects on disk and fetch
from an origin, and a reverse tunnel for nodes that cannot be reached from outside. This project
models the parts of it that keep state under interleaving, failure or overflow, and proves what they
guarantee over every run and every input.

Objects that the Go code updates in place are classes whose methods are proved against functions on
their state; concurrent protocols are step systems in which every atomic action of every goroutine
may interleave with every other; parsers and formats are functions. Where a promise does not hold of
the code, the model keeps the code's behaviour, shows inputs or runs for which the promise fails and proves
when it holds, exactly.

| file | component | main results |
|---|---|---|
| `LeaderLease.dfy` | leader election by an expiring Redis key | mutual exclusion over every run, with command errors, lost replies and late arrivals; its hypothesis is tight in both clauses, and the one on timing follows from the ticker as long as enough rounds fit into the TTL |
| `EdgeCache.dfy` | LRU disk cache of an edge | four redundant records agree after every operation of every run; eviction removes the shortest oldest prefix; the limit holds; a new object stays if and only if it fits |
| `TunnelFrames.dfy`, `TunnelWriters.dfy`, `TunnelBodies.dfy` | tunnel wire format, concurrent writers, body reader | an interleaving decodes to the completed messages in order if and only if no message is torn, and the adapter tears none; truncation decodes to a prefix and then an error; delivered bytes are a prefix |
| `TunnelSessions.dfy`, `TunnelHandlers.dfy`, `TunnelObjects.dfy` | sessions, streams, registry, connection handlers | every stream's channel is closed at most once, and how often a connection is; connected if and only if registered; which steps keep ownership; capacity, tight for every K |
| `TopK.dfy`, `Dispatch.dfy` | candidate selection | a bounded heap yields exactly the best K of any offers; the fast scorer equals the plain one up to two stated bonuses |
| `BloomFilters.dfy`, `ContentIndexes.dfy`, `StreamIndexes.dfy` | what the nodes have cached | no false negatives through serialisation; bulk lookups equal per-node lookups, exactly when |
| `TenantBucket.dfy`, `TokenBucket.dfy`, `Ledgers.dfy` | two token buckets | bounds on every window; when the key expiry is invisible; the bound survives int64 overflow and is reached |
| `AdminNonces.dfy` | replay protection | no pair passes twice, if and only if the memory lasts twice the skew plus the disorder of the clock readings |
| `CircuitBreaker.dfy` | circuit breaker | the state is a function of the event trace, defined without the breaker |
| `ChunkKeys.dfy`, `StreamWindows.dfy` | streaming windows | key parsing inverts key making; exactly the last chunks stay cached; streams do not disturb each other |
| `RangeHeaders.dfy` | the two Range parsers | they agree, exactly when, and accept what the header selects |
| `GoText.dfy` | Go's int64, ParseInt, formatting, substrings | shared by the others |

What turned out to hold only under a condition:

- A DEL that arrives after its sender gave up waiting removes whatever key is there; while no grant
  lapses, at most one instance leads as long as none arrives while an instance relies on the key
  (`LeaderLease.StepKeepsInvExactly`, `LeaderLease.StrayDelAdmitsSecondLeader`,
  `LeaderLease.ResignCanLeaveStrayDel`).
- The Range parsers disagree on a negative suffix length that overflows `size - suffix` on a
  non-empty object: the edge serves it whole, the origin refuses (`RangeHeaders.ParsersAgree`,
  `RangeHeaders.NegativeSuffixSplitsParsers`).
- Deleting a cache entry whose meta file does not parse lowers the count of an entry that was never
  counted, and a torn write of a tracked entry's meta file leaves the maps ahead of the disk
  (`EdgeCache.DeleteKeepsInvExactly`, `EdgeCache.TornMetaKeepsInvExactly`,
  `EdgeCache.TornPutThenDeleteMiscounts`).
- `StreamScore` looks at the types "hls" and "dash" only, `FindNodesWithStream` at all of them
  (`StreamIndexes.LookupsAgreeExactly`, `StreamIndexes.OtherTypeIsMissed`), so the fast scorer has a
  second bonus besides the one for cached content on small links (`Dispatch.FastScoreExactly`).
- A message of 2^32 bytes or more arrives shortened, without an error
  (`TunnelFrames.RoundTripExactly`).
- The registration reply is written past the adapter's mutex. It is read if and only if nothing is
  written between its two halves, which a forwarder can do (`TunnelWriters.ReplyIsReadExactly`,
  `TunnelWriters.BypassCorruptsTheStream`).
- A registered handler's connection is closed twice, by its session and by its own return
  (`TunnelHandlers.ConnectionCloses`).
- A handler's deferred Unregister can close a session that another handler registered, exactly when
  the manager's Close emptied the registry under it (`TunnelHandlers.StepKeepsOwnershipExactly`,
  `TunnelHandlers.CloseBreaksOwnership`), and the tunnel limit can be passed by handlers between check
  and registration (`TunnelHandlers.CapacityBoundIsReached`).
- A chunk number that is cached again before its first copy has left the window loses its new copy
  too (`StreamWindows.ReuseLosesChunk`, `StreamWindows.ReusedNumberIsLost`).
- The tenant bucket's key expiry is visible when a period does not refill the burst
  (`TenantBucket.ExpiryInvisibleExactly`).
- The admin clock is read before the lock is taken; the deployed values tolerate no disorder of the
  readings (`AdminNonces.DeployedNeedsOrder`).
- The breaker's failure counter is an int32: the trial that fails when it is full does not open the
  breaker again (`CircuitBreaker.TrialEndsExactly`, `CircuitBreaker.OverflowHidesFailure`).

`dafny verify dfyconfig.toml` checks the whole project.

## Model

| member | source | states |
|---|---|---|
| LeaderLease.StepKeepsInvExactly | internal/controlplane/leader.go:56-98 | every Redis command, answered, failed or arriving late, every flag store and clock advance keeps: whoever relies on the lease holds it with its last grant; except exactly a late DEL under a relying instance |
| LeaderLease.RunKeepsInv | internal/controlplane/leader.go:56-98 | the invariant holds in every state of every run in which no relying instance outlived its grant and no late DEL arrived under one |
| LeaderLease.MutualExclusion | internal/controlplane/leader.go:15-98 | in such runs at most one of any number of instances leads, with lost requests, lost replies and late arrivals allowed |
| LeaderLease.StepKeepsOwnersLead | internal/controlplane/leader.go:56-98 | without command errors, an owner of the key has its flag up or is about to raise it |
| LeaderLease.MutualExclusionWithoutErrors | internal/controlplane/leader.go:15-98 | without command errors mutual exclusion needs the timing hypothesis only of instances with the flag up or a grant about to be stored |
| LeaderLease.CommandsTouchOwnLease | internal/controlplane/leader.go:70-98 | EXPIRE and DEL, which do not look at the value, only ever touch the sender's own live lease while it waits for them |
| LeaderLease.LapseAdmitsSecondLeader | internal/controlplane/leader.go:56-85 | the clause on timing is tight: once any relying instance's grant lapses, a newcomer gets the key and both go on to lead; until then it is refused |
| LeaderLease.StrayDelAdmitsSecondLeader | internal/controlplane/leader.go:87-98 | so is the clause on DEL: from any state with a relying instance such an arrival lets a second one lead, both within their grants |
| LeaderLease.ResignCanLeaveStrayDel | internal/controlplane/leader.go:87-98 | such a state is reached: a resign whose DEL is unanswered, then another leader |
| LeaderLease.OwnStepInTime | internal/controlplane/leader.go:36-98 | how long after its last grant an owner can reach each point of its code, when waits and failed rounds are bounded |
| LeaderLease.TickerKeepsLease | internal/controlplane/leader.go:36-98 | the clause on timing follows, in every run with errors and without a late DEL under a relying instance, if the owner starts rounds at most `wait` apart, takes at most `step` between commands, has at most `fails` failed rounds in a row, and fails + 1 such rounds fit into the TTL |
| LeaderLease.TickerExcludes | internal/controlplane/leader.go:36-98 | so at most one instance leads |
| LeaderLease.DeployedTickerExcludes | internal/controlplane/leader.go:15-54 | with a TTL of 10 and an interval of 3 seconds, two failed rounds in a row are tolerated as long as lateness plus three command times is under a third of a second |
| LeaderLease.LeaderElection.constructor | internal/controlplane/leader.go:28-34 | a new instance does not lead |
| LeaderLease.LeaderElection.TryAcquire | internal/controlplane/leader.go:56-85 | an uninterrupted call equals the step system's events back to back; after a failed SETNX or GET the flag is what it was; after an answered GET it says exactly whether the key was the instance's own and EXPIRE was acknowledged; without errors it says exactly whether the instance owns a lease, with a full TTL if so |
| LeaderLease.FailedRoundKeepsFlags | internal/controlplane/leader.go:56-73 | a failed SETNX or GET, or a key that is gone when GET comes, ends the round and leaves every flag as it was |
| LeaderLease.AnsweredRoundDecides | internal/controlplane/leader.go:56-85 | an answered round leaves the flag up exactly when the key was free, or was its own and EXPIRE was acknowledged; no other flag changes |
| LeaderLease.LeaderElection.Resign | internal/controlplane/leader.go:87-98 | lowers the flag; removes the key, whoever holds it, exactly when the flag was up and the command arrived |
| EdgeCache.CountIsSize | internal/edgeagent/cache.go:50-62 | the count is the number of tracked entries |
| EdgeCache.StoredKeepsInv | internal/edgeagent/cache.go:149-199 | a completed write, of a new entry or over an old one, keeps counters, maps and disk in agreement |
| EdgeCache.DroppedKeepsInv | internal/edgeagent/cache.go:292-306 | so does removing a tracked entry |
| EdgeCache.DeleteKeepsInvExactly | internal/edgeagent/cache.go:214-247 | Delete keeps the agreement if and only if the entry's meta file is not a corrupt one |
| EdgeCache.TornMetaKeepsInvExactly | internal/edgeagent/cache.go:184-186 | a torn meta write keeps it if and only if the entry was not tracked |
| EdgeCache.FailedPutKeepsInvExactly | internal/edgeagent/cache.go:159-186 | a Put that fails at any point keeps it, except the torn write of a tracked entry's meta file |
| EdgeCache.FailuresAreSkipped | internal/edgeagent/cache.go:287-298 | failed removals only take entries out of the eviction order |
| EdgeCache.ShortestPrefix | internal/edgeagent/cache.go:287-307 | the victims are the shortest prefix of the order that reaches the target, or everything |
| EdgeCache.BytesIsTotal | internal/edgeagent/cache.go:265-282 | the entries that eviction lists sum up to the whole cache |
| EdgeCache.EvictionMeetsLimit | internal/edgeagent/cache.go:200-206 | evicting the excess brings the total within any limit that is not negative |
| EdgeCache.LastGoesExactly | internal/edgeagent/cache.go:287-307 | the last entry of the order is evicted exactly when all before it do not free enough |
| EdgeCache.NewestIsEvictedExactly | internal/edgeagent/cache.go:200-206 | the strictly newest entry is evicted if and only if it alone exceeds the limit |
| EdgeCache.Cache.constructor | internal/edgeagent/cache.go:64-103 | whatever is on disk, the four records agree at the start, and sizes and access times are those of the readable meta files |
| EdgeCache.Cache.RunTouches | internal/edgeagent/cache.go:133-138 | deferred touches set access times, never remove one, and change nothing else; which time a name ends with is in LastTouchCounts |
| EdgeCache.LastTouchCounts | internal/edgeagent/cache.go:133-138 | after any touches a name's access time is that of its last one |
| EdgeCache.OlderGoesToo | internal/edgeagent/cache.go:269-307 | least recently used: a tracked entry that can be removed and was accessed strictly before a victim is a victim too |
| EdgeCache.StoredIsThere | internal/edgeagent/cache.go:149-199 | a written entry has its content, size and time on disk and in both maps, and no other entry is affected |
| EdgeCache.DeletedIsGone | internal/edgeagent/cache.go:214-247 | a deleted entry is in neither map and not on disk, and no other entry is affected |
| EdgeCache.FailedPutLeaves | internal/edgeagent/cache.go:159-186 | what each failing step of Put leaves: no other entry is affected, the entry's meta file stays unless its write was torn, and a failed copy leaves no content |
| EdgeCache.RestartKeepsEntries | internal/edgeagent/cache.go:64-103 | after a write, a cache made anew from the disk tracks the same entries with the same sizes, and the written one with the time of that write |
| EdgeCache.Cache.Snapshot | internal/edgeagent/cache.go:269-281 | lists every entry with both a size and an access time once, with their values |
| EdgeCache.Cache.Evict | internal/edgeagent/cache.go:259-313 | with touches at any point, removes from maps, counters and disk exactly the victims of an order by access time, gives the access times that are left, and keeps the agreement |
| EdgeCache.Cache.EvictLoop | internal/edgeagent/cache.go:287-307 | the loop removes exactly the victims, with failed removals and touches at any round, and leaves exactly these access times |
| EdgeCache.VictimsLoseTimes | internal/edgeagent/cache.go:287-307 | an entry not touched meanwhile keeps its access time if and only if it is not a victim |
| EdgeCache.Cache.Put | internal/edgeagent/cache.go:142-206 | what a failed Put leaves; the agreement, exactly when; size within the limit; a strictly newest object stays if and only if it fits |
| EdgeCache.Cache.Store | internal/edgeagent/cache.go:149-199 | meta file, maps and counters after a write, with touches between the map and the counter updates |
| EdgeCache.Cache.Delete | internal/edgeagent/cache.go:214-247 | the new state, and the agreement if and only if the call fails or the meta file was not corrupt |
| EdgeCache.PutAchieves | internal/edgeagent/cache.go:142-206 | the same promises for every order that a sort by access time may choose among equal times |
| EdgeCache.EvictedKeepsInv | internal/edgeagent/cache.go:265-313 | every eviction, with any failed removals, keeps the agreement |
| EdgeCache.StepKeepsInvExactly | internal/edgeagent/cache.go:133-313 | every Put, Delete, Evict and touch keeps the agreement, if and only if it is neither a torn write of a tracked entry's meta file nor the removal of an entry with a corrupt one |
| EdgeCache.RunKeepsInv | internal/edgeagent/cache.go:64-313 | over every run, from any disk, the four records agree after every operation as long as neither of the two occurred, and every completed Put whose removals succeed ends within the limit |
| EdgeCache.SoundDiskNeverBreaks | internal/edgeagent/cache.go:64-313 | from a disk without corrupt meta files a run without torn meta writes has neither |
| EdgeCache.TornPutThenDeleteMiscounts | internal/edgeagent/cache.go:142-247 | the two do occur: a torn Put of a new entry and its Delete leave the count one too low, from any state in agreement |
| EdgeCache.SortByAccess | internal/edgeagent/cache.go:283-285 | a permutation in order of access time |
| TunnelFrames.WriteMessage | internal/tunnel/message.go:80-100 | appends exactly the encoding of the message |
| TunnelFrames.ReadMessage | internal/tunnel/message.go:103-128 | yields what the format says of the unread bytes, and consumes exactly that |
| TunnelFrames.HeaderRoundTrip | internal/tunnel/message.go:80-117 | decoding inverts encoding for every header, byte order included |
| TunnelFrames.DecodeInvertsEncode | internal/tunnel/message.go:80-128 | the same for whole messages followed by anything, also where header and payload disagree |
| TunnelFrames.RoundTripExactly | internal/tunnel/message.go:141-168 | a constructed message survives if and only if its payload is under 2^32 bytes; otherwise it arrives cut modulo 2^32 |
| TunnelFrames.ConstructedArrives | internal/tunnel/message.go:141-168 | a constructed message arrives with version 1 and the kind and stream number it was given, and its payload cut to the length modulo 2^32 |
| TunnelFrames.WireLayout | internal/tunnel/message.go:80-100 | the bytes on the wire: version, kind, stream number and length most significant byte first, then the payload up to the length |
| TunnelFrames.CutInside | internal/tunnel/message.go:103-128 | a stream cut inside a message is an error, and an end of stream only at its very beginning |
| TunnelFrames.Whole | internal/tunnel/message.go:103-128 | how many messages lie whole before a cut: those fit, one more does not |
| TunnelFrames.TruncatedStream | internal/tunnel/message.go:80-128 | cut at any byte, the encoding of any messages decodes to exactly those whole before the cut, then an error |
| TunnelFrames.WholeStream | internal/tunnel/message.go:80-128 | uncut, it decodes to exactly those messages |
| TunnelFrames.ReadsAll | internal/tunnel/message.go:80-128 | whatever follows the encoding of a list of messages is read as it would be read alone |
| TunnelWriters.StepKeepsInv | internal/tunnel/message.go:80-100 | a step that tears nothing keeps: the wire is the completed messages plus at most one header |
| TunnelWriters.PeerReadsTheLog | internal/tunnel/server.go:357-366 | in any interleaving in which nothing is written between another message's header and payload, past the mutex or not, the peer reads exactly the completed messages in order, then the end or one cut |
| TunnelWriters.UnfinishedMessage | internal/tunnel/message.go:80-128 | a header whose payload is missing is an error, not a message |
| TunnelWriters.AdapterTearsNothing | internal/tunnel/server.go:357-366 | writers that all go through the adapter tear nothing |
| TunnelWriters.TornForGood | internal/tunnel/message.go:103-128 | once a header is followed by another header's first byte, its message is never read, whatever comes later |
| TunnelWriters.PeerReadsTheLogExactly | internal/tunnel/server.go:357-366 | for payloads that do not begin with the version byte, as JSON does not: the peer reads exactly the completed messages if and only if none was torn |
| TunnelWriters.ReplyIsReadExactly | internal/tunnel/server.go:167-176 | the reply is read if and only if nothing is written between its halves; otherwise the peer reads neither it nor any of what was written there |
| TunnelWriters.BypassCorruptsTheStream | internal/tunnel/server.go:159-176 | that happens: in any state with the reply's header out and the mutex free, a forwarder can write any message of another kind before the payload |
| TunnelWriters.ReplyComesFirst | internal/tunnel/server.go:159-176 | a connection can begin in such a state |
| TunnelBodies.BodyReader.constructor | internal/tunnel/server.go:315-319 | starts with the announced length and an empty buffer |
| TunnelBodies.BodyReader.Read | internal/tunnel/server.go:321-354 | the outcome and the new state for every buffer size and every select branch |
| TunnelBodies.CallConserves | internal/tunnel/server.go:321-354 | one call moves bytes from the front of what is pending to the caller and loses none |
| TunnelBodies.ReadsConserve | internal/tunnel/server.go:321-354 | over any calls: delivered, then buffered, then still to come is the whole body; remain is the announced length less what was taken |
| TunnelBodies.DeliversPrefix | internal/tunnel/server.go:315-354 | delivered bytes are a prefix of the payloads; running out means the announced length was delivered |
| TunnelBodies.CallEndsExactly | internal/tunnel/server.go:321-354 | after any calls: while taken bytes are undelivered a call delivers more; then it ends in EOF exactly when the announced length was taken or the select finds Done or an end marker, and in an error exactly when it finds the timeout or a message of another kind |
| TunnelSessions.CloseSessionKeepsStreams | internal/tunnel/tunnel.go:164-181 | closing a session closes each Done of its streams once and none of another session |
| TunnelSessions.CreateKeepsStreams | internal/tunnel/tunnel.go:131-143 | a stream under a number in use replaces the old stream without closing it |
| TunnelSessions.RemoveKeepsStreams | internal/tunnel/tunnel.go:154-161 | removing closes the stream that is there, once, and nothing when there is none |
| TunnelSessions.DoneClosedAtMostOnce | internal/tunnel/tunnel.go:55-181 | in every interleaving, whatever numbers the streams get, each stream's Done is closed at most once, and exactly once when the stream has left its session without being replaced |
| TunnelSessions.ConnectedIffRegistered | internal/tunnel/tunnel.go:55-117 | whenever the manager can be asked, a node is connected exactly when it is registered |
| TunnelHandlers.StepKeepsConns | internal/tunnel/server.go:122-189 | every step keeps: the Close calls on a connection are those of its session and of its handler's return, and a handler that unregistered leaves its session closed |
| TunnelHandlers.ConnectionCloses | internal/tunnel/server.go:122-189 | over every run a connection is closed once if its session is closed plus once if its handler has returned: at most twice, twice for every registered handler that has returned, once for a refused one |
| TunnelHandlers.StepKeepsOwnershipExactly | internal/tunnel/server.go:151-165 | a step keeps every registered handler's entry its own session, if and only if it is not the end of a Close with a handler still registered |
| TunnelHandlers.UnregistersOwnSession | internal/tunnel/server.go:151-165 | in every run without such a Close a handler's deferred Unregister closes and removes exactly its own session |
| TunnelHandlers.CloseBreaksOwnership | internal/tunnel/tunnel.go:73-117 | after one it may close a session that another handler registered and still serves |
| TunnelHandlers.StepKeepsCapacity | internal/tunnel/server.go:151-165 | tunnels plus handlers between check and registration stay bounded |
| TunnelHandlers.CapacityBound | internal/tunnel/server.go:151-165 | with at most K handlers in between, never more than MaxTunnels - 1 + K tunnels |
| TunnelHandlers.CapacityBoundIsReached | internal/tunnel/server.go:151-165 | for every K, K handlers that check before any registers all get in from any state with one place left |
| TunnelObjects.TunnelSession.CreateStream | internal/tunnel/tunnel.go:131-143 | a fresh stream under the number, its Done open |
| TunnelObjects.TunnelSession.RemoveStream | internal/tunnel/tunnel.go:154-161 | closes and removes that stream only; no channel is closed twice |
| TunnelObjects.TunnelSession.Close | internal/tunnel/tunnel.go:164-181 | the first call closes every stream once and the connection, a later one does nothing |
| TunnelObjects.TunnelManager.Register | internal/tunnel/tunnel.go:55-70 | registers exactly when the node is not registered yet, for any session whose streams are its own |
| TunnelObjects.TunnelManager.Unregister | internal/tunnel/tunnel.go:73-82 | closes the node's session and, if it was open, each of its streams once; keeps all others as they are |
| TunnelObjects.TunnelManager.IsConnected | internal/tunnel/tunnel.go:93-98 | true exactly for registered nodes whose session is open, so for all registered ones while all are open |
| TunnelObjects.TunnelManager.Close | internal/tunnel/tunnel.go:108-117 | closes every session and, if it was open, each of its streams once, and empties the registry |
| TopK.UpStep | internal/controlplane/scheduler.go:31-37 | one swap of sifting up moves the only violation to the parent |
| TopK.DownStep | internal/controlplane/scheduler.go:31-37 | one swap of sifting down moves the only violation to the lesser child |
| TopK.LeastOf | internal/controlplane/scheduler.go:47-56 | the root scores least of all in a heap |
| TopK.PushKeepsBest | internal/controlplane/scheduler.go:47-56 | if the heap held the best k of all offers, after one more offer it does again |
| TopK.ScoredHeap.Up | internal/controlplane/scheduler.go:31-45 | restores order by a permutation |
| TopK.ScoredHeap.Down | internal/controlplane/scheduler.go:31-45 | restores order within the first n by a permutation that leaves the rest alone |
| TopK.ScoredHeap.Pop | internal/controlplane/scheduler.go:39-45 | removes the least and keeps order |
| TopK.ScoredHeap.Push | internal/controlplane/scheduler.go:47-56 | takes, replaces the least, or refuses, as capacity and score say |
| TopK.ScoredHeap.Sorted | internal/controlplane/scheduler.go:58-64 | empties the heap into an ascending permutation of it |
| TopK.Rank | internal/controlplane/scheduler.go:168-206 | for any offers and any K: the best max(K, 0) of them, best first |
| Dispatch.SelectKeepsExactly | internal/controlplane/scheduler.go:319-377 | a filter keeps every passing node as often as it occurs and no other |
| Dispatch.Filter | internal/controlplane/scheduler.go:319-343 | exactly the eligible nodes, in order |
| Dispatch.FilterForSmallBandwidth | internal/controlplane/scheduler.go:345-377 | compacts exactly the passing nodes, in order, in the same array |
| Dispatch.FastScoreExactly | internal/controlplane/scheduler.go:238-317 | with tables that answer the lookups, the fast score before clamping is the plain one plus 30 exactly for cached nodes of small bandwidth and 20 exactly for streams of other types |
| Dispatch.Scheduler.Tables | internal/controlplane/scheduler.go:147-158 | the tables built once per request answer the per-node lookups |
| Dispatch.Scheduler.Resolve | internal/controlplane/scheduler.go:132-232 | the best MaxCandidates of the nodes that pass both filters, best first, with the token; the fallback exactly when none passes; failure when listing or signing fails; scores, filters and candidates are described by the rows that follow |
| Dispatch.ScoresAreWorth | internal/controlplane/scheduler.go:242-317 | between two nodes alike in all else, reachability counts 0.3, health 0.2, and risk 0.5 against the node |
| Dispatch.PlaceIsWorth | internal/controlplane/scheduler.go:242-317 | the client's region is worth 30 and its ISP 20, if it has them |
| Dispatch.TunnelIsWorth | internal/controlplane/scheduler.go:242-317 | needing a tunnel costs 15 |
| Dispatch.ShieldIsWorth | internal/controlplane/scheduler.go:242-317 | a shield node gets 20, exactly while the optimisation is on |
| Dispatch.CongestionIsWorth | internal/controlplane/scheduler.go:242-317 | egress above 80 percent of a known uplink costs 15, exactly while it is on |
| Dispatch.UplinkIsWorth | internal/controlplane/scheduler.go:242-317 | while it is on, an idle node's uplink is worth a fifth of its Mbps, up to 20 |
| Dispatch.ContentIsWorth | internal/controlplane/scheduler.go:242-317 | a hot key is worth the hot weight, a key in the filter the content weight, and a stream known under "hls" or "dash" 20 |
| Dispatch.ScoresStartAtZero | internal/controlplane/scheduler.go:242-317 | a node about which nothing is known scores zero; no score is negative, and a positive one was not clamped |
| Dispatch.EligibleExactly | internal/controlplane/scheduler.go:319-343 | disabled nodes and those in maintenance never pass; a reachable one passes from a reachability of 10 on, another exactly if it uses a tunnel that is connected |
| Dispatch.DroppedExactly | internal/controlplane/scheduler.go:345-377 | the second filter drops a node exactly if its uplink is known and below the threshold, the key is known not to be cached there, and at least half of the uplink is in use |
| Dispatch.PoolExactly | internal/controlplane/scheduler.go:132-167 | a listed node competes, as often as it is listed, exactly if it passes the first filter and, while the optimisation is on, the second |
| Dispatch.HigherScoreWins | internal/controlplane/scheduler.go:168-206 | a competing node that scores higher than a returned one is returned before it |
| Dispatch.CandidateSays | internal/controlplane/scheduler.go:168-206 | a candidate has its node's ID, region and ISP, the first endpoint exactly if the node is reachable and has one, the mode that its need of a tunnel asks for, and the whole part of its score as weight |
| Dispatch.FallbackSays | internal/controlplane/scheduler.go:402-427 | the fallback is the origin alone with weight 1, at the configured or the default address, and nothing exactly when degrading is off |
| Dispatch.CandidatesAreDifferent | internal/controlplane/scheduler.go:132-206 | listed nodes with different IDs give candidates with different IDs, each of a listed eligible node |
| BloomFilters.BloomFilter.constructor | internal/contentindex/bloom.go:20-34 | the chosen number of bits rounded up to whole words, except where rounding overflows 32 bits; all bits clear |
| BloomFilters.BloomFilter.Add | internal/contentindex/bloom.go:64-72 | sets exactly the probed bits, in bounds, in any filter that can be probed |
| BloomFilters.BloomFilter.Test | internal/contentindex/bloom.go:81-92 | true exactly when every probed bit is set |
| BloomFilters.ProbesWalk | internal/contentindex/bloom.go:64-92 | the probes of a key are a walk that starts at its first hash and goes on by its second, modulo 2^64, each place taken modulo the size |
| BloomFilters.BloomFilter.Bytes | internal/contentindex/bloom.go:100-106 | the little-endian bytes of the words |
| BloomFilters.BloomFilter.Load | internal/contentindex/bloom.go:37-61 | the filter that any bytes denote, padding the last word, cutting the size to 32 bits |
| BloomFilters.BytesLayout | internal/contentindex/bloom.go:100-106 | byte j of the serialised form has positions 8j to 8j + 7 of the filter, the lowest first |
| BloomFilters.LoadedBits | internal/contentindex/bloom.go:37-61 | a loaded filter has the positions of its bytes, and zeros after them |
| BloomFilters.AddAll | internal/contentindex/bloom.go:64-77 | after any list of keys the set bits are exactly their probes |
| BloomFilters.LoadInvertsBytes | internal/contentindex/bloom.go:37-106 | loading inverts serialising, except that more than 100 probes become one |
| BloomFilters.LoadedCanBeProbed | internal/contentindex/bloom.go:37-61 | loaded bytes can be probed if and only if 64 times the words is not zero modulo 2^32 |
| BloomFilters.LoadedContainsExactly | internal/contentindex/bloom.go:37-106 | a loaded filter contains a key exactly when each of its probes is a probe of an added key; so it contains every added key, also with k over 100 |
| ContentIndexes.ContentIndex.Update | internal/contentindex/bloom.go:158-173 | replaces hot keys and filter of that node, each only if the summary has it |
| ContentIndexes.ContentIndex.RemoveNode | internal/contentindex/bloom.go:235-241 | forgets that node only |
| ContentIndexes.ContentIndex.IsCached | internal/contentindex/bloom.go:177-194 | hot and likely cached, for one node |
| ContentIndexes.ContentIndex.FindNodesWithKey | internal/contentindex/bloom.go:199-220 | node by node what IsCached says, in disjoint sets |
| ContentIndexes.IndexIsLatest | internal/contentindex/bloom.go:158-241 | after any history a node's entry is the latest hot keys, the latest filter and the latest total it sent since it was removed |
| ContentIndexes.HotExactly | internal/contentindex/bloom.go:158-241 | after any history a key is hot on a node exactly when it is in the latest list the node sent since it was removed |
| ContentIndexes.ReportedKeysAreFound | internal/contentindex/bloom.go:64-194 | every key a node added to its latest filter is reported as cached there |
| StreamIndexes.StreamingStrategy.ReportStream | internal/streaming/strategy.go:28-47 | afterwards the node has the stream, once, and nothing else changed |
| StreamIndexes.StreamingStrategy.RemoveStream | internal/streaming/strategy.go:50-68 | afterwards it does not have it under that type, and nothing else changed |
| StreamIndexes.StreamingStrategy.StreamScore | internal/streaming/strategy.go:72-97 | 20 exactly for a stream known under "hls" or "dash" |
| StreamIndexes.StreamingStrategy.FindNodesWithStream | internal/streaming/strategy.go:120-140 | exactly the nodes with the stream under any type |
| StreamIndexes.LookupsAgreeExactly | internal/streaming/strategy.go:72-140 | the two lookups agree on a node if and only if it does not have the stream under other types only |
| StreamIndexes.OtherTypeIsMissed | internal/streaming/strategy.go:28-140 | a report under another type makes them disagree |
| StreamIndexes.Replay | internal/streaming/strategy.go:28-68 | after any history a node has a stream exactly when the latest operation on it was a report |
| TenantBucket.RedisHash.Allow | internal/controlplane/tenant_ratelimit.go:33-69 | one run of the script, expiry included |
| TenantBucket.AfterRun | internal/controlplane/tenant_ratelimit.go:33-69 | the level never exceeds the burst, and the refill time is that of the last request |
| TenantBucket.AdmittedExactly | internal/controlplane/tenant_ratelimit.go:33-69 | without expiry, after any run a request is admitted exactly when the level the last one left, with what accrued since, makes a token and the burst allows one; it leaves that level, cut to the burst, less its token |
| TenantBucket.FirstIsAdmittedExactly | internal/controlplane/tenant_ratelimit.go:33-69 | the first request meets a full bucket: it is admitted exactly when the burst allows one |
| TenantBucket.WindowBound | internal/controlplane/tenant_ratelimit.go:33-69 | without expiry, the requests from any index on are admitted at most burst plus rate times elapsed seconds often |
| TenantBucket.ExpiryChangesNothing | internal/controlplane/tenant_ratelimit.go:33-69 | if a period refills the burst, the expiring bucket holds the same state at every request |
| TenantBucket.ExpiryInvisibleExactly | internal/controlplane/tenant_ratelimit.go:27-69 | every decision of every run is the same with and without expiry, if and only if the burst is refilled within the period or is empty |
| TenantBucket.DefaultWindowBound | internal/controlplane/tenant_ratelimit.go:27-69 | so the default limits admit at most 200 plus 100 per second, expiry included |
| TokenBucket.Next | internal/controlplane/api.go:90-117 | tokens stay between zero and the burst, overflow or not; with a negative burst they never change |
| TokenBucket.RateLimiter.constructor | internal/controlplane/api.go:83-88 | starts full |
| TokenBucket.RateLimiter.Allow | internal/controlplane/api.go:90-117 | decision and new state for every int64 clock reading, wrap-around included |
| TokenBucket.CreditGrowth | internal/controlplane/api.go:92-97 | wrapped or not, credit grows by no more than the rate, taken modulo 2^64, times elapsed time |
| TokenBucket.CallSpends | internal/controlplane/api.go:95-117 | an admitted call costs at least one token of tokens plus credit; a refused one changes nothing |
| TokenBucket.AdmittedExactly | internal/controlplane/api.go:90-117 | short of an overflow of the tokens, a call is admitted exactly when there is a token in hand or the credit makes one, and the burst allows one |
| TokenBucket.AdmittedCallKeepsRest | internal/controlplane/api.go:90-117 | short of an overflow of the tokens, an admitted call costs less than two tokens of tokens plus credit, or leaves the bucket full but for its token |
| Ledgers.RunIsLedger | internal/controlplane/api.go:90-117 | if every step pays for itself and settles under the cap, so does every run |
| Ledgers.LedgerBound | internal/controlplane/api.go:90-117 | then admitted calls cost less than one unit, the cap and what accrued |
| TokenBucket.WindowBound | internal/controlplane/api.go:83-117 | any run with a forward clock admits less than burst + 1 plus rate times elapsed seconds, from any state, for every int64 rate and burst, whatever overflows |
| TokenBucket.ExtraTokenIsReached | internal/controlplane/api.go:90-117 | under every positive rate and burst a new limiter admits burst + 1 calls within a nanosecond |
| AdminNonces.AdminAuth.constructor | internal/controlplane/admin_internal.go:61-71 | nothing remembered |
| AdminNonces.AdminAuth.CheckAndRememberNonce | internal/controlplane/admin_internal.go:206-228 | cleans up when due, refuses a remembered nonce and remembers a new one |
| AdminNonces.AdminAuth.Admit | internal/controlplane/admin_internal.go:102-123 | the skew check, then the nonce check |
| AdminNonces.CleanupExactly | internal/controlplane/admin_internal.go:206-228 | a cleanup removes exactly what is older than a TTL, and the next is due `cleanupEvery` later |
| AdminNonces.FreshRequestPasses | internal/controlplane/admin_internal.go:102-228 | no request is refused without reason: one within the skew passes if its nonce never did |
| AdminNonces.RememberedForTTL | internal/controlplane/admin_internal.go:206-228 | whatever cleanups occur, a nonce that passed is remembered until some request comes more than a TTL later |
| AdminNonces.PassesAreApart | internal/controlplane/admin_internal.go:206-228 | between two passes of one nonce some request comes more than a TTL after the first |
| AdminNonces.LongMemoryNeverReplays | internal/controlplane/admin_internal.go:102-228 | with readings out of order by at most d and a TTL of at least twice the skew plus d, no run replays a pair |
| AdminNonces.ShortMemoryReplays | internal/controlplane/admin_internal.go:206-228 | with a shorter one some run does, however rare the cleanups are |
| AdminNonces.NoReplayExactly | internal/controlplane/admin_internal.go:61-228 | for every d: no run with readings out of order by at most d replays a pair, if and only if the TTL is at least twice the skew plus d |
| AdminNonces.DeployedNeedsOrder | internal/controlplane/admin_internal.go:61-123 | with the deployed constants no run replays a pair, if and only if d is zero |
| CircuitBreaker.CircuitBreaker.Allow | internal/edgeagent/fetcher.go:249-267 | decision and new state; when it admits is in AdmitsExactly |
| CircuitBreaker.CircuitBreaker.RecordFailure | internal/edgeagent/fetcher.go:269-277 | new state, with the int32 counter |
| CircuitBreaker.CircuitBreaker.RecordSuccess | internal/edgeagent/fetcher.go:279-292 | new state |
| CircuitBreaker.InvHolds | internal/edgeagent/fetcher.go:219-292 | after any trace the counters are what the trace says: failures since the last reset, the streak, the last failure, the successes of the running trial |
| CircuitBreaker.TripsExactly | internal/edgeagent/fetcher.go:269-277 | a closed breaker opens exactly on the failure that completes `threshold` of them with no success between |
| CircuitBreaker.OpenExactly | internal/edgeagent/fetcher.go:249-267 | an open one refuses until `recovery` after the last failure; only a later Allow leaves the state |
| CircuitBreaker.TrialEndsExactly | internal/edgeagent/fetcher.go:269-292 | a trial ends at its first failure, which reopens if and only if the counter does not overflow, or its third success, which closes |
| CircuitBreaker.TrialIsUnique | internal/edgeagent/fetcher.go:249-267 | a trace has at most one running trial |
| CircuitBreaker.ClosesOnlyAfterTrial | internal/edgeagent/fetcher.go:279-292 | the breaker never closes without three successes and no failure since the Allow that ended the open period |
| CircuitBreaker.StateIsMode | internal/edgeagent/fetcher.go:219-292 | on every trace whose failures since the last reset fit an int32, the state is the one defined from streaks, failure times and successes alone |
| CircuitBreaker.AdmitsExactly | internal/edgeagent/fetcher.go:249-267 | on every such trace a request is refused exactly while the breaker is open and `recovery` has not passed since the last failure; every other is admitted |
| CircuitBreaker.OverflowHidesFailure | internal/edgeagent/fetcher.go:269-277 | under every configuration a trace reaches the overflow: the failed trial leaves the breaker half-open |
| ChunkKeys.LastMark | internal/streaming/window.go:155-165 | the last marker of a key is the one that key making put there |
| ChunkKeys.ParseInvertsKey | internal/streaming/window.go:150-173 | parsing inverts key making for every stream key and every int64 |
| ChunkKeys.KeyLayout | internal/streaming/window.go:150-152 | a key is "stream/", the stream key, "/seq_" and the number in ten characters or more |
| ChunkKeys.KeysAreDistinct | internal/streaming/window.go:150-152 | different chunks have different keys |
| StreamWindows.SlidingWindow.CacheChunk | internal/streaming/window.go:50-88 | new cache and windows, also for an empty chunk and a failed Put |
| StreamWindows.SlidingWindow.Slide | internal/streaming/window.go:68-85 | appends, and evicts exactly the overflow from window and cache |
| StreamWindows.SlidingWindow.EvictStream | internal/streaming/window.go:118-131 | removes the window and exactly its chunks |
| StreamWindows.WindowsCount | internal/streaming/window.go:50-131 | in every run, window plus evictions is every completed call since the window was created, and the window is the last WindowSize of them; the head number is that of the last one |
| StreamWindows.OtherStreamsUntouched | internal/streaming/window.go:50-131 | a call on one stream leaves every chunk of every other as it was |
| StreamWindows.CacheHoldsRecentChunks | internal/streaming/window.go:50-131 | in every run whose completed calls do not reuse a number still in its window, the cache holds exactly the non-empty ones of each stream's last chunks, with their bytes |
| StreamWindows.ReuseLosesChunk | internal/streaming/window.go:68-85 | a call keeps the whole window cached if and only if no number it evicts stays in the window |
| StreamWindows.ReusedNumberIsLost | internal/streaming/window.go:68-85 | caching again the oldest number of a full window removes it from the cache and keeps it listed |
| RangeHeaders.SplitIsExact | cmd/origin/main.go:187-200 | the header splits at its first dash, exactly |
| RangeHeaders.ParsersAgree | internal/edgeagent/server.go:892-944 | for every string and every int64 size the parsers agree if and only if the suffix does not overflow on a non-empty object |
| RangeHeaders.NegativeSuffixSplitsParsers | internal/edgeagent/server.go:892-944 | on the header that asks for the last -n bytes they disagree exactly when size + n exceeds int64, so for every non-empty object on the largest n |
| RangeHeaders.OriginAcceptsWhatIsSelected | cmd/origin/main.go:187-232 | accepted if and only if the header selects a range in the sense of section 14.1.2 of RFC 9110, with that range, inside the object |
| GoText.ParseInvertsFormat | internal/streaming/window.go:150-173 | ParseInt inverts the ten-digit format on every int64 |
| GoText.ParseReadsExactly | internal/streaming/window.go:168 | ParseInt answers n exactly when the text is an optional sign and digits whose value is n and n is an int64; so it fails on all else |
| GoText.ParseReadsDigits | internal/streaming/window.go:168 | it reads the decimal digits of every number up to 2^63 - 1 |
| GoText.FormatIsWide | internal/streaming/window.go:150-152 | the format has ten characters or more and begins with a minus exactly for negative numbers |

## Left out

- HTTP handlers, the admin user interface, SQL storage, DNS, QUIC, peer-to-peer fetching, policy sync, metrics, heartbeats and token signing: they pass requests on to libraries and outside systems and keep no state of their own that a property here is about.
- Dispatch.Scheduler.Resolve: what the signer answers is a parameter; the request identifier, the expiry time and the pooled slices and heap that calls share are not modelled; scores are reals, so rounding and NaN are not captured.
- Dispatch: the stream that a chunk's key belongs to (`InferStreamFromChunkKey`) is a parameter, empty when there is none; `sanitizeResourceKey`, `HasStream` and `FindNodesWithKeySlice` are not modelled.
- BloomFilters.BloomFilter.constructor: takes the number of bits and probes; the sizing formulas in floating point are not modelled.
- BloomFilters: the hash is a parameter; words and bytes are their bits, so the OR of a shifted one is setting a bit and little-endian conversion is regrouping.
- TopK.ScoredHeap.Up: container/heap itself is not part of the repository; its sifting is modelled as the Go library documents it.
- EdgeCache.Cache.Put: does not model int64 overflow of byte counts, or the pooled meta struct, whose old fields a meta file without them would inherit.
- EdgeCache.Cache.Delete: a removal either succeeds or changes nothing; a directory removed in part is not modelled, nor files in the cache directory written by others.
- EdgeCache.SortByAccess: stands for sort.Slice; which order it picks among equal access times is left open by every contract that uses it.
- EdgeCache.Cache.constructor: the directory is read in one piece; failing to create it is not modelled. HotKeys, AllKeys and DeleteKeys, which list the access times or call Delete in a loop, and the hit counters are not modelled.
- CircuitBreaker.InvHolds: for traces in which the failures since the last reset never exceed 2^31 - 1, what the int32 counter holds; TrialEndsExactly says what the next one does. Calls are atomic; in the code a state change may fall between two atomics.
- TokenBucket.RateLimiter.Allow: calls one after another, so the compare-and-swap succeeds at once; the last-time store of a concurrent call is not modelled.
- TenantBucket.RedisHash.Allow: numbers are reals instead of Lua doubles, limits do not change during a run, and a Redis error (which admits) is not modelled.
- AdminNonces.AdminAuth.Admit: the address list, the signature and the header parsing around the two checks are not modelled. NoReplayExactly is for skews of half a second and more; the half that says nothing is replayed, LongMemoryNeverReplays, is for all.
- LeaderLease.LeaderElection.TryAcquire: the ticker appears as bounds on when the owner's steps happen, in TickerKeepsLease; clocks of Redis and instances are one clock. The object's calls are uninterrupted; what a request does after its caller gave up is in the step system only.
- TunnelWriters.PeerReadsTheLogExactly: a torn Data message whose payload begins with the version byte can go unnoticed, so the condition is exact for the other payloads only; a write to the connection takes effect whole or not at all, and a connection that fails in the middle is covered by TunnelFrames.TruncatedStream.
- TunnelBodies.DeliversPrefix: only a prefix, because ForwardRequest removes the stream, and so closes Done, before the body is read; that the whole body arrives is not promised by the code.
- TunnelObjects.TunnelManager.Register: one call at a time, with the interleavings in TunnelSessions and TunnelHandlers; a session that shares a stream with a registered one is excluded, since no code creates one.
- StreamWindows.SlidingWindow.CacheChunk: calls are serial and the cache is a map whose Put may fail; an evicted chunk is always deleted.
- RangeHeaders.ParsersAgree: compares outcomes, not the wording of errors.
