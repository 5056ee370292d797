/**
 The edge node's disk cache (internal/edgeagent/cache.go). What it holds is recorded four times:
 in the maps of sizes and access times, in two counters, and in a meta file per entry on disk.
 Put, Delete and Evict run one at a time; a Get records its access time later, from a goroutine
 of its own, under a lock of its own, so such touches fall anywhere, also inside the others.
 */
module EdgeCache {
  import opened GoText

  type Name = string   // an entry's directory: the hash of its key

  // A meta file may be missing or not parse.
  datatype Meta = NoMeta | Corrupt | Meta(size: int, lastAccess: int)
  datatype Dir = Dir(meta: Meta, content: bool)

  datatype State = State(size: int, count: int, accessTimes: map<Name, int>, sizes: map<Name, int>, disk: map<Name, Dir>)

  // ---------- Sums over a map ----------

  ghost function Total(m: map<Name, int>): int
    decreases |m|
  {
    if m == map[] then 0 else var k :| k in m; m[k] + Total(m - {k})
  }

  lemma {:induction false} TotalWithout(m: map<Name, int>, k: Name)
    requires k in m
    ensures Total(m) == m[k] + Total(m - {k})
    decreases |m|
  {
    var j :| j in m && Total(m) == m[j] + Total(m - {j});
    if j != k {
      TotalWithout(m - {j}, k);
      TotalWithout(m - {k}, j);
      assert m - {j} - {k} == m - {k} - {j};
    }
  }

  lemma TotalWith(m: map<Name, int>, k: Name, v: int)
    ensures Total(m[k := v]) == v + Total(m - {k})
  {
    TotalWithout(m[k := v], k);
    assert m[k := v] - {k} == m - {k};
  }

  lemma TotalUpdate(m: map<Name, int>, k: Name, v: int)
    ensures Total(m[k := v]) == Total(m) + v - if k in m then m[k] else 0
  {
    TotalWith(m, k, v);
    if k in m {
      TotalWithout(m, k);
    } else {
      assert m - {k} == m;
    }
  }

  // The number of keys, counted in the same way.
  ghost function Number(m: map<Name, int>): int
    decreases |m|
  {
    if m == map[] then 0 else var k :| k in m; 1 + Number(m - {k})
  }

  lemma {:induction false} NumberIsSize(m: map<Name, int>)
    ensures Number(m) == |m|
    decreases |m|
  {
    if m != map[] {
      var k :| k in m && Number(m) == 1 + Number(m - {k});
      NumberIsSize(m - {k});
      assert m.Keys == (m - {k}).Keys + {k};
    }
  }

  lemma NumberWithout(m: map<Name, int>, k: Name)
    requires k in m
    ensures Number(m) == 1 + Number(m - {k})
  {
    NumberIsSize(m);
    NumberIsSize(m - {k});
    assert m.Keys == (m - {k}).Keys + {k};
  }

  lemma NumberUpdate(m: map<Name, int>, k: Name, v: int)
    ensures Number(m[k := v]) == Number(m) + if k in m then 0 else 1
  {
    NumberIsSize(m);
    NumberIsSize(m[k := v]);
    assert m[k := v].Keys == m.Keys + {k};
  }

  // ---------- The invariant ----------

  predicate MetaOk(disk: map<Name, Dir>, n: Name) {
    n in disk && disk[n].meta.Meta?
  }

  predicate MetaCorrupt(disk: map<Name, Dir>, n: Name) {
    n in disk && disk[n].meta.Corrupt?
  }

  // The maps name exactly the entries whose meta file parses, with the sizes it gives.
  ghost predicate Agrees(sizes: map<Name, int>, disk: map<Name, Dir>) {
    forall n :: (n in sizes <==> MetaOk(disk, n)) && (n in sizes && MetaOk(disk, n) ==> sizes[n] == disk[n].meta.size)
  }

  ghost predicate Counts(size: int, count: int, sizes: map<Name, int>) {
    size == Total(sizes) && count == Number(sizes)
  }

  ghost predicate Inv(s: State) {
    && Counts(s.size, s.count, s.sizes)
    && s.sizes.Keys <= s.accessTimes.Keys
    && Agrees(s.sizes, s.disk)
  }

  lemma CountIsSize(s: State)
    requires Inv(s)
    ensures s.count == |s.sizes|
  {
    NumberIsSize(s.sizes);
  }

  // ---------- Single changes ----------

  // A completed write: meta file, maps, counters.
  function Stored(s: State, n: Name, written: int, now: int): State {
    var existed := MetaOk(s.disk, n);
    State(if existed then s.size + (written - s.disk[n].meta.size) else s.size + written,
          if existed then s.count else s.count + 1,
          s.accessTimes[n := now], s.sizes[n := written], s.disk[n := Dir(Meta(written, now), true)])
  }

  lemma StoredAgrees(sizes: map<Name, int>, disk: map<Name, Dir>, n: Name, written: int, now: int)
    requires Agrees(sizes, disk)
    ensures Agrees(sizes[n := written], disk[n := Dir(Meta(written, now), true)])
  {
    var disk' := disk[n := Dir(Meta(written, now), true)];
    assert forall m | m != n :: MetaOk(disk', m) <==> MetaOk(disk, m);
  }

  lemma StoredCounts(size: int, count: int, sizes: map<Name, int>, n: Name, written: int)
    requires Counts(size, count, sizes)
    ensures if n in sizes then Counts(size + (written - sizes[n]), count, sizes[n := written])
            else Counts(size + written, count + 1, sizes[n := written])
  {
    TotalUpdate(sizes, n, written);
    NumberUpdate(sizes, n, written);
  }

  lemma StoredKeepsInv(s: State, n: Name, written: int, now: int)
    requires Inv(s)
    ensures Inv(Stored(s, n, written, now))
  {
    StoredAgrees(s.sizes, s.disk, n, written, now);
    StoredCounts(s.size, s.count, s.sizes, n, written);
    assert n in s.sizes <==> MetaOk(s.disk, n);
  }

  // What a restart makes of the disk.
  ghost predicate Reloads(sizes: map<Name, int>, times: map<Name, int>, disk: map<Name, Dir>) {
    && (forall n | n in disk && disk[n].meta.Meta? ::
          n in sizes && sizes[n] == disk[n].meta.size && n in times && times[n] == disk[n].meta.lastAccess)
    && (forall n | n in sizes || n in times :: MetaOk(disk, n))
  }

  /** A restart keeps every tracked entry with its size, no other, and gives the entry written last
      its size and the time of that write. */
  lemma RestartKeepsEntries(s: State, n: Name, written: int, now: int, sizes: map<Name, int>, times: map<Name, int>)
    requires Inv(s) && Reloads(sizes, times, Stored(s, n, written, now).disk)
    ensures sizes == Stored(s, n, written, now).sizes && sizes[n] == written && times[n] == now
  {
    StoredAgrees(s.sizes, s.disk, n, written, now);
    var disk := Stored(s, n, written, now).disk;
    assert MetaOk(disk, n);
    assert forall m :: m in sizes <==> MetaOk(disk, m);
  }

  // One entry evicted.
  function Dropped(s: State, n: Name, size: int): State {
    State(s.size - size, s.count - 1, s.accessTimes - {n}, s.sizes - {n}, s.disk - {n})
  }

  lemma DroppedKeepsInv(s: State, n: Name)
    requires Inv(s) && n in s.sizes
    ensures Inv(Dropped(s, n, s.sizes[n]))
  {
    TotalWithout(s.sizes, n);
    NumberWithout(s.sizes, n);
  }

  // Delete, when removing the directory succeeds. A meta file that is there but does not parse
  // counts as an entry of size zero.
  function Deleted(s: State, n: Name): State {
    var existed := n in s.disk && !s.disk[n].meta.NoMeta?;
    var metaSize := if MetaOk(s.disk, n) then s.disk[n].meta.size else 0;
    State(if existed then s.size - metaSize else s.size, if existed then s.count - 1 else s.count,
          s.accessTimes - {n}, s.sizes - {n}, s.disk - {n})
  }

  /** A deleted entry is nowhere any more, and no other is affected. */
  lemma DeletedIsGone(s: State, n: Name, m: Name)
    ensures
      var s' := Deleted(s, n);
      && n !in s'.accessTimes && n !in s'.sizes && n !in s'.disk
      && (m != n ==>
            && (m in s'.accessTimes <==> m in s.accessTimes) && (m in s.accessTimes ==> s'.accessTimes[m] == s.accessTimes[m])
            && (m in s'.sizes <==> m in s.sizes) && (m in s.sizes ==> s'.sizes[m] == s.sizes[m])
            && (m in s'.disk <==> m in s.disk) && (m in s.disk ==> s'.disk[m] == s.disk[m]))
  {
  }

  /** A written entry has its content, size and time on disk and in the maps, and no other is affected. */
  lemma StoredIsThere(s: State, n: Name, written: int, now: int)
    ensures
      var s' := Stored(s, n, written, now);
      && n in s'.disk && s'.disk[n].content && s'.disk[n].meta == Meta(written, now)
      && n in s'.sizes && s'.sizes[n] == written && n in s'.accessTimes && s'.accessTimes[n] == now
      && s'.disk - {n} == s.disk - {n} && s'.sizes - {n} == s.sizes - {n} && s'.accessTimes - {n} == s.accessTimes - {n}
  {
  }

  /** Delete keeps the books if and only if the entry's meta file is not a corrupt one: such an
      entry was never counted, but is subtracted from the count. */
  lemma DeleteKeepsInvExactly(s: State, n: Name)
    requires Inv(s)
    ensures Inv(Deleted(s, n)) <==> !MetaCorrupt(s.disk, n)
  {
    if n in s.sizes {
      DroppedKeepsInv(s, n);
      assert Deleted(s, n) == Dropped(s, n, s.sizes[n]);
    } else {
      assert s.sizes - {n} == s.sizes;
    }
  }

  /** A meta write that fails half way keeps the books if and only if the entry was not tracked. */
  lemma TornMetaKeepsInvExactly(s: State, n: Name)
    requires Inv(s)
    ensures Inv(s.(disk := s.disk[n := Dir(Corrupt, true)])) <==> n !in s.sizes
  {
    var s' := s.(disk := s.disk[n := Dir(Corrupt, true)]);
    assert !MetaOk(s'.disk, n);
    assert forall m | m != n :: MetaOk(s'.disk, m) <==> MetaOk(s.disk, m);
  }

  // ---------- Eviction order ----------

  datatype Entry = Entry(key: Name, lastAccess: int, size: int)

  predicate ByAccess(order: seq<Entry>) {
    forall i, j | 0 <= i < j < |order| :: order[i].lastAccess <= order[j].lastAccess
  }

  predicate DistinctKeys(order: seq<Entry>) {
    forall i, j | 0 <= i < j < |order| :: order[i].key != order[j].key
  }

  // The entries are the tracked names that have an access time, with what the maps say of them.
  ghost predicate Lists(order: seq<Entry>, times: map<Name, int>, sizes: map<Name, int>) {
    && DistinctKeys(order)
    && (forall i | 0 <= i < |order| :: InMaps(order[i], times, sizes))
    && (forall n | n in sizes && n in times :: exists i :: 0 <= i < |order| && order[i].key == n)
  }

  predicate InMaps(e: Entry, times: map<Name, int>, sizes: map<Name, int>) {
    e.key in times && e.key in sizes && e.lastAccess == times[e.key] && e.size == sizes[e.key]
  }

  predicate Tracked(order: seq<Entry>, sizes: map<Name, int>) {
    forall i | 0 <= i < |order| :: order[i].key in sizes && sizes[order[i].key] == order[i].size
  }

  function Bytes(order: seq<Entry>): int {
    if order == [] then 0 else Bytes(order[..|order| - 1]) + order[|order| - 1].size
  }

  function KeysOf(order: seq<Entry>): set<Name> {
    set i | 0 <= i < |order| :: order[i].key
  }

  // The entries that eviction removes: in order, skipping those whose removal fails, until
  // enough bytes are freed.
  function Victims(order: seq<Entry>, target: int, fails: set<Name>, freed: int): seq<Entry>
    decreases |order|
  {
    if order == [] || freed >= target then []
    else if order[0].key in fails then Victims(order[1..], target, fails, freed)
    else [order[0]] + Victims(order[1..], target, fails, freed + order[0].size)
  }

  function Removable(order: seq<Entry>, fails: set<Name>): seq<Entry> {
    if order == [] then []
    else (if order[0].key in fails then [] else [order[0]]) + Removable(order[1..], fails)
  }

  /** Failed removals only take entries out of the order. */
  lemma {:induction false} FailuresAreSkipped(order: seq<Entry>, target: int, fails: set<Name>, freed: int)
    ensures Victims(order, target, fails, freed) == Victims(Removable(order, fails), target, {}, freed)
    decreases |order|
  {
    if order != [] && freed < target {
      var rest := Removable(order[1..], fails);
      if order[0].key in fails {
        assert Removable(order, fails) == rest;
        FailuresAreSkipped(order[1..], target, fails, freed);
      } else {
        FailuresAreSkipped(order[1..], target, fails, freed + order[0].size);
        assert Removable(order, fails) == [order[0]] + rest;
        FirstVictim(order[0], rest, target, freed);
      }
    }
  }

  lemma FirstVictim(e: Entry, rest: seq<Entry>, target: int, freed: int)
    requires freed < target
    ensures Victims([e] + rest, target, {}, freed) == [e] + Victims(rest, target, {}, freed + e.size)
  {
    assert ([e] + rest)[1..] == rest;
  }

  lemma {:induction false} BytesCons(e: Entry, rest: seq<Entry>)
    ensures Bytes([e] + rest) == e.size + Bytes(rest)
  {
    if rest != [] {
      BytesCons(e, rest[..|rest| - 1]);
      assert ([e] + rest)[..|rest|] == [e] + rest[..|rest| - 1];
    } else {
      assert ([e] + rest)[..0] == [];
    }
  }

  lemma {:induction false} PrefixReaches(order: seq<Entry>, target: int, freed: int)
    ensures
      var v := Victims(order, target, {}, freed);
      v <= order && (freed + Bytes(v) >= target || v == order)
    decreases |order|
  {
    if order != [] && freed < target {
      PrefixReaches(order[1..], target, freed + order[0].size);
      BytesCons(order[0], Victims(order[1..], target, {}, freed + order[0].size));
      assert order == [order[0]] + order[1..];
    }
  }

  lemma {:induction false} ShorterFallsShort(order: seq<Entry>, target: int, freed: int, k: nat)
    requires k < |Victims(order, target, {}, freed)|
    ensures k < |order| && freed + Bytes(order[..k]) < target
    decreases |order|
  {
    if k > 0 {
      ShorterFallsShort(order[1..], target, freed + order[0].size, k - 1);
      BytesOfPrefix(order, k);
    }
  }

  /** When removals succeed the victims are the shortest prefix of the order that frees the target,
      or everything when not even that frees enough. */
  lemma ShortestPrefix(order: seq<Entry>, target: int, freed: int)
    ensures
      var v := Victims(order, target, {}, freed);
      && v <= order
      && (freed + Bytes(v) >= target || v == order)
      && (forall k | 0 <= k < |v| :: freed + Bytes(order[..k]) < target)
  {
    PrefixReaches(order, target, freed);
    forall k | 0 <= k < |Victims(order, target, {}, freed)|
      ensures freed + Bytes(order[..k]) < target
    {
      ShorterFallsShort(order, target, freed, k);
    }
  }

  lemma BytesOfPrefix(order: seq<Entry>, k: nat)
    requires 0 < k <= |order|
    ensures Bytes(order[..k]) == order[0].size + Bytes(order[1..][..k - 1])
  {
    assert order[..k] == [order[0]] + order[1..][..k - 1];
    BytesCons(order[0], order[1..][..k - 1]);
  }

  // A removable entry that comes before a victim is a victim.
  lemma {:induction false} EarlierGoesToo(order: seq<Entry>, target: int, fails: set<Name>, freed: int, i: nat, j: nat)
    requires DistinctKeys(order) && i < j < |order| && order[i].key !in fails
    requires order[j].key in KeysOf(Victims(order, target, fails, freed))
    ensures order[i].key in KeysOf(Victims(order, target, fails, freed))
    decreases |order|
  {
    var e, rest := order[0], order[1..];
    if e.key in fails {
      EarlierGoesToo(rest, target, fails, freed, i - 1, j - 1);
    } else {
      KeysOfCons(e, Victims(rest, target, fails, freed + e.size));
      if i > 0 {
        EarlierGoesToo(rest, target, fails, freed + e.size, i - 1, j - 1);
      }
    }
  }

  /** Least recently used: a tracked entry that can be removed and was accessed strictly before a
      victim is a victim too. */
  lemma OlderGoesToo(order: seq<Entry>, times: map<Name, int>, sizes: map<Name, int>, target: int, fails: set<Name>, a: Name, b: Name)
    requires Lists(order, times, sizes) && ByAccess(order)
    requires a in times && a in sizes && a !in fails && b in times && times[a] < times[b]
    requires b in KeysOf(Victims(order, target, fails, 0))
    ensures a in KeysOf(Victims(order, target, fails, 0))
  {
    var i :| 0 <= i < |order| && order[i].key == a;
    VictimsAreListed(order, target, fails, 0);
    var j :| 0 <= j < |order| && order[j].key == b;
    assert InMaps(order[i], times, sizes) && InMaps(order[j], times, sizes);
    EarlierGoesToo(order, target, fails, 0, i, j);
  }

  lemma {:induction false} VictimsAreListed(order: seq<Entry>, target: int, fails: set<Name>, freed: int)
    ensures KeysOf(Victims(order, target, fails, freed)) <= KeysOf(order)
    decreases |order|
  {
    if order != [] && freed < target {
      var rest := order[1..];
      assert order == [order[0]] + rest;
      KeysOfCons(order[0], rest);
      if order[0].key in fails {
        VictimsAreListed(rest, target, fails, freed);
      } else {
        VictimsAreListed(rest, target, fails, freed + order[0].size);
        KeysOfCons(order[0], Victims(rest, target, fails, freed + order[0].size));
      }
    }
  }

  // ---------- What eviction achieves ----------

  lemma {:induction false} BytesIsTotal(order: seq<Entry>, times: map<Name, int>, sizes: map<Name, int>)
    requires Lists(order, times, sizes) && sizes.Keys <= times.Keys
    ensures Bytes(order) == Total(sizes)
    decreases |order|
  {
    if order == [] {
      assert sizes == map[];
    } else {
      var e, init := order[|order| - 1], order[..|order| - 1];
      var less := sizes - {e.key};
      forall n | n in less && n in times ensures exists i :: 0 <= i < |init| && init[i].key == n {
        var i :| 0 <= i < |order| && order[i].key == n;
        assert init[i] == order[i];
      }
      forall i | 0 <= i < |init| ensures InMaps(init[i], times, less) {
        assert InMaps(order[i], times, sizes) && InMaps(e, times, sizes);
      }
      BytesIsTotal(init, times, less);
      TotalWithout(sizes, e.key);
    }
  }

  lemma VictimsMeetLimit(order: seq<Entry>, limit: int)
    requires 0 <= limit
    ensures Bytes(order) - Bytes(Victims(order, Bytes(order) - limit, {}, 0)) <= limit
  {
    ShortestPrefix(order, Bytes(order) - limit, 0);
  }

  /** Evicting what exceeds the limit brings the total to the limit or to nothing; so it never
      exceeds a limit that is not negative. */
  lemma EvictionMeetsLimit(order: seq<Entry>, times: map<Name, int>, sizes: map<Name, int>, limit: int)
    requires Lists(order, times, sizes) && sizes.Keys <= times.Keys && 0 <= limit
    ensures Total(sizes) - Bytes(Victims(order, Total(sizes) - limit, {}, 0)) <= limit
  {
    BytesIsTotal(order, times, sizes);
    VictimsMeetLimit(order, limit);
  }

  predicate NoNegative(order: seq<Entry>) {
    forall i | 0 <= i < |order| :: 0 <= order[i].size
  }

  lemma {:induction false} BytesGrow(order: seq<Entry>, k: nat)
    requires NoNegative(order) && k <= |order|
    ensures Bytes(order[..k]) <= Bytes(order)
    decreases |order|
  {
    if k < |order| {
      BytesGrow(order[..|order| - 1], k);
      assert order[..|order| - 1][..k] == order[..k];
    } else {
      assert order[..k] == order;
    }
  }

  // The last entry goes exactly when all before it do not free enough.
  lemma LastGoesExactly(order: seq<Entry>, target: int)
    requires order != [] && NoNegative(order)
    ensures Victims(order, target, {}, 0) <= order
    ensures Victims(order, target, {}, 0) == order <==> Bytes(order[..|order| - 1]) < target
  {
    var v, last := Victims(order, target, {}, 0), |order| - 1;
    ShortestPrefix(order, target, 0);
    if |v| <= last {
      BytesGrow(order[..last], |v|);
      assert order[..last][..|v|] == order[..|v|] == v;
    }
  }

  lemma NewestIsLast(order: seq<Entry>, times: map<Name, int>, sizes: map<Name, int>, n: Name)
    requires Lists(order, times, sizes) && ByAccess(order) && n in sizes && n in times
    requires forall m | m in sizes && m in times && m != n :: times[m] < times[n]
    ensures order != [] && order[|order| - 1].key == n && order[|order| - 1].size == sizes[n]
  {
    var p :| 0 <= p < |order| && order[p].key == n;
    assert InMaps(order[p], times, sizes) && InMaps(order[|order| - 1], times, sizes);
  }

  lemma KeysOfPrefix(order: seq<Entry>, v: seq<Entry>)
    requires DistinctKeys(order) && order != [] && v <= order
    ensures order[|order| - 1].key in KeysOf(v) <==> v == order
  {
    forall i | 0 <= i < |v| && v[i].key == order[|order| - 1].key ensures v == order {
      assert v[i] == order[i];
    }
    if v == order {
      assert v[|v| - 1].key in KeysOf(v);
    }
  }

  /** An object whose access time is strictly the newest is evicted by its own Put if and only if
      it is larger than the whole limit. */
  lemma NewestIsEvictedExactly(order: seq<Entry>, times: map<Name, int>, sizes: map<Name, int>, limit: int, n: Name)
    requires Lists(order, times, sizes) && ByAccess(order) && NoNegative(order) && sizes.Keys <= times.Keys && n in sizes
    requires forall m | m in sizes && m != n :: times[m] < times[n]
    ensures n in KeysOf(Victims(order, Total(sizes) - limit, {}, 0)) <==> sizes[n] > limit
  {
    NewestIsLast(order, times, sizes, n);
    BytesIsTotal(order, times, sizes);
    LastIsEvictedExactly(order, limit);
  }

  lemma LastIsEvictedExactly(order: seq<Entry>, limit: int)
    requires order != [] && NoNegative(order) && DistinctKeys(order)
    ensures
      var last := order[|order| - 1];
      last.key in KeysOf(Victims(order, Bytes(order) - limit, {}, 0)) <==> last.size > limit
  {
    LastGoesExactly(order, Bytes(order) - limit);
    KeysOfPrefix(order, Victims(order, Bytes(order) - limit, {}, 0));
  }

  // ---------- The cache as an object ----------

  // A Get's deferred access-time update. A schedule says which of them run at the points of an
  // operation where the lock on the maps is free.
  datatype Touch = Touch(name: Name, time: int)
  type Schedule = nat -> seq<Touch>

  function Later(sched: Schedule): Schedule {
    (i: nat) => sched(i + 1)
  }

  function Touched(times: map<Name, int>, ts: seq<Touch>): map<Name, int> {
    if ts == [] then times else Touched(times, ts[..|ts| - 1])[ts[|ts| - 1].name := ts[|ts| - 1].time]
  }

  lemma {:induction false} TouchesOnlyAdd(times: map<Name, int>, ts: seq<Touch>)
    ensures times.Keys <= Touched(times, ts).Keys
  {
    if ts != [] {
      TouchesOnlyAdd(times, ts[..|ts| - 1]);
    }
  }

  // The access times after an eviction, whose rounds are counted from r: the touches of a round
  // come before its removal.
  function TimesAfter(times: map<Name, int>, order: seq<Entry>, target: int, fails: set<Name>, freed: int,
                      sched: Schedule, r: nat): map<Name, int>
    decreases |order|
  {
    if order == [] || freed >= target then times
    else if order[0].key in fails then TimesAfter(Touched(times, sched(r)), order[1..], target, fails, freed, sched, r + 1)
    else TimesAfter(Touched(times, sched(r)) - {order[0].key}, order[1..], target, fails, freed + order[0].size, sched, r + 1)
  }

  ghost predicate NeverTouches(sched: Schedule, n: Name) {
    forall r: nat, i | 0 <= i < |sched(r)| :: sched(r)[i].name != n
  }

  lemma {:induction false} TouchesOthers(times: map<Name, int>, ts: seq<Touch>, n: Name)
    requires forall i | 0 <= i < |ts| :: ts[i].name != n
    ensures n in Touched(times, ts) <==> n in times
    ensures n in times ==> Touched(times, ts)[n] == times[n]
  {
    if ts != [] {
      TouchesOthers(times, ts[..|ts| - 1], n);
    }
  }

  /** An entry that is not touched meanwhile has an access time after the eviction, and the one it
      had, if and only if it had one and is not a victim. */
  lemma {:induction false} VictimsLoseTimes(times: map<Name, int>, order: seq<Entry>, target: int, fails: set<Name>, freed: int,
                                            sched: Schedule, r: nat, n: Name)
    requires NeverTouches(sched, n)
    ensures
      var times' := TimesAfter(times, order, target, fails, freed, sched, r);
      && (n in times' <==> n in times && n !in KeysOf(Victims(order, target, fails, freed)))
      && (n in times' && n in times ==> times'[n] == times[n])
    decreases |order|
  {
    if order != [] && freed < target {
      var t, rest := Touched(times, sched(r)), order[1..];
      TouchesOthers(times, sched(r), n);
      if order[0].key in fails {
        VictimsLoseTimes(t, rest, target, fails, freed, sched, r + 1, n);
      } else {
        VictimsLoseTimes(t - {order[0].key}, rest, target, fails, freed + order[0].size, sched, r + 1, n);
        KeysOfCons(order[0], Victims(rest, target, fails, freed + order[0].size));
      }
    }
  }

  lemma KeysOfCons(e: Entry, rest: seq<Entry>)
    ensures KeysOf([e] + rest) == {e.key} + KeysOf(rest)
  {
    assert forall i | 0 <= i < |rest| :: ([e] + rest)[i + 1] == rest[i];
    assert ([e] + rest)[0] == e;
  }

  /** A name's access time is that of its last touch. */
  lemma {:induction false} LastTouchCounts(times: map<Name, int>, ts: seq<Touch>, i: nat)
    requires i < |ts| && forall j | i < j < |ts| :: ts[j].name != ts[i].name
    ensures ts[i].name in Touched(times, ts) && Touched(times, ts)[ts[i].name] == ts[i].time
  {
    if i < |ts| - 1 {
      LastTouchCounts(times, ts[..|ts| - 1], i);
    }
  }

  // How far a Put gets.
  datatype PutFault = NoFault | MkdirFails | CreateFails | CopyFails | MetaFails(torn: bool)

  function DirOf(disk: map<Name, Dir>, n: Name): Dir {
    if n in disk then disk[n] else Dir(NoMeta, false)
  }

  // What a failed Put leaves on disk; the maps and counters are not reached.
  function FailedPut(disk: map<Name, Dir>, n: Name, fault: PutFault): map<Name, Dir>
    requires fault != NoFault
  {
    match fault
    case MkdirFails => disk
    case CreateFails => disk[n := DirOf(disk, n)]
    case CopyFails => disk[n := DirOf(disk, n).(content := false)]
    case MetaFails(torn) => disk[n := Dir(if torn then Corrupt else DirOf(disk, n).meta, true)]
  }

  /** Whatever fails, no other entry is affected, and unless the write of the meta file was torn the
      entry's own meta file stays; a failed copy leaves no content. */
  lemma FailedPutLeaves(disk: map<Name, Dir>, n: Name, fault: PutFault)
    requires fault != NoFault
    ensures
      var disk' := FailedPut(disk, n, fault);
      && disk' - {n} == disk - {n}
      && (fault != MetaFails(true) ==> DirOf(disk', n).meta == DirOf(disk, n).meta)
      && (fault == MetaFails(true) ==> n in disk' && disk'[n].meta == Corrupt)
      && (fault == CopyFails ==> n in disk' && !disk'[n].content)
      && (fault == MkdirFails ==> disk' == disk)
      && (fault == CreateFails ==> DirOf(disk', n) == DirOf(disk, n))
      && (fault.MetaFails? ==> n in disk' && disk'[n].content)
  {
  }

  lemma FailedPutAgrees(sizes: map<Name, int>, disk: map<Name, Dir>, n: Name, fault: PutFault)
    requires Agrees(sizes, disk) && fault != NoFault && fault != MetaFails(true)
    ensures Agrees(sizes, FailedPut(disk, n, fault))
  {
    var disk' := FailedPut(disk, n, fault);
    assert forall m :: MetaOk(disk', m) <==> MetaOk(disk, m);
  }

  class Cache {
    const nameOf: string -> Name
    const maxBytes: int
    var size: int
    var count: int
    var accessTimes: map<Name, int>
    var sizes: map<Name, int>
    var disk: map<Name, Dir>

    ghost function View(): State
      reads this
    {
      State(size, count, accessTimes, sizes, disk)
    }

    /** Whatever is on disk, the books start out right; entries without a readable meta file are
        not tracked. */
    constructor (nameOf: string -> Name, maxGB: int, disk: map<Name, Dir>)
      ensures this.nameOf == nameOf && maxBytes == maxGB * 1024 * 1024 * 1024 && this.disk == disk
      ensures Inv(View())
      ensures Reloads(sizes, accessTimes, disk)
    {
      var total, number := 0, 0;
      var times: map<Name, int>, known: map<Name, int> := map[], map[];
      var rest := disk.Keys;
      while rest != {}
        invariant rest <= disk.Keys && known.Keys == times.Keys
        invariant Counts(total, number, known)
        invariant forall n :: n in known <==> MetaOk(disk, n) && n !in rest
        invariant forall n | n in known :: known[n] == disk[n].meta.size && times[n] == disk[n].meta.lastAccess
        decreases |rest|
      {
        var n :| n in rest;
        rest := rest - {n};
        if disk[n].meta.Meta? {
          StoredCounts(total, number, known, n, disk[n].meta.size);
          total, number := total + disk[n].meta.size, number + 1;
          times, known := times[n := disk[n].meta.lastAccess], known[n := disk[n].meta.size];
        }
      }
      this.nameOf, this.maxBytes, this.disk := nameOf, maxGB * 1024 * 1024 * 1024, disk;
      size, count, accessTimes, sizes := total, number, times, known;
    }

    method RunTouches(ts: seq<Touch>)
      modifies this`accessTimes
      ensures accessTimes == Touched(old(accessTimes), ts) && old(accessTimes).Keys <= accessTimes.Keys
    {
      for i := 0 to |ts|
        invariant accessTimes == Touched(old(accessTimes), ts[..i])
      {
        assert ts[..i + 1][..i] == ts[..i];
        accessTimes := accessTimes[ts[i].name := ts[i].time];
      }
      assert ts[..|ts|] == ts;
      TouchesOnlyAdd(old(accessTimes), ts);
    }

    // The entries that have both a size and an access time, in the order of a map range.
    method Snapshot() returns (entries: seq<Entry>)
      ensures Lists(entries, accessTimes, sizes)
    {
      entries := [];
      var rest := accessTimes.Keys;
      while rest != {}
        invariant rest <= accessTimes.Keys && DistinctKeys(entries)
        invariant forall i | 0 <= i < |entries| :: InMaps(entries[i], accessTimes, sizes) && entries[i].key !in rest
        invariant forall n | n in sizes && n in accessTimes && n !in rest :: exists i :: 0 <= i < |entries| && entries[i].key == n
        decreases |rest|
      {
        var n :| n in rest;
        rest := rest - {n};
        if n in sizes {
          ghost var before := entries;
          entries := entries + [Entry(n, accessTimes[n], sizes[n])];
          assert entries[|before|].key == n;
          assert forall i | 0 <= i < |before| :: entries[i] == before[i];
        }
      }
    }

    /** Removes, oldest access first, until `target` bytes are freed; an entry whose directory cannot
        be removed is skipped and keeps its place in the books. */
    method Evict(target: int, fails: set<Name>, sched: Schedule) returns (ghost order: seq<Entry>)
      requires Inv(View())
      modifies this
      ensures Inv(View())
      ensures EvictedBy(old(View()), View(), order, target, fails, sched)
    {
      var entries := Snapshot();
      var sorted := SortByAccess(entries);
      PermutedLists(entries, sorted, accessTimes, sizes);
      order := sorted;
      ghost var s0 := View();
      VictimsAreTracked(order, target, fails, 0, sizes);
      EvictLoop(sorted, target, fails, sched);
      WithoutKeepsInv(s0, View(), Victims(order, target, fails, 0));
    }

    method EvictLoop(order: seq<Entry>, target: int, fails: set<Name>, sched: Schedule)
      requires sizes.Keys <= accessTimes.Keys
      modifies this
      ensures sizes.Keys <= accessTimes.Keys
      ensures Without(old(View()), View(), Victims(order, target, fails, 0))
      ensures accessTimes == TimesAfter(old(accessTimes), order, target, fails, 0, sched, 0)
    {
      var freed, rest, r := 0, order, 0;
      ghost var d, s0, v := 0, View(), Victims(order, target, fails, 0);
      ghost var end := TimesAfter(accessTimes, order, target, fails, 0, sched, 0);
      while rest != [] && freed < target
        invariant sizes.Keys <= accessTimes.Keys
        invariant Evicting(s0, View(), v, d, rest, target, fails, freed)
        invariant Timing(accessTimes, rest, target, fails, freed, sched, r, end)
        decreases |rest|
      {
        ghost var s1 := View();
        var removed := EvictRound(rest[0], fails, sched(r));
        RoundKeeps(s0, s1, v, d, rest, target, fails, freed, sched, r, end);
        if removed {
          freed, d := freed + rest[0].size, d + 1;
        }
        rest, r := rest[1..], r + 1;
      }
      assert v[..d] == v;
    }

    // One round: the touches that come before it, and the removal if it succeeds.
    method EvictRound(e: Entry, fails: set<Name>, ts: seq<Touch>) returns (removed: bool)
      requires sizes.Keys <= accessTimes.Keys
      modifies this
      ensures View() == RoundOf(old(View()), e, fails, ts) && sizes.Keys <= accessTimes.Keys
      ensures removed <==> e.key !in fails
    {
      RunTouches(ts);
      if e.key in fails {
        return false;
      }
      RemoveEntry(e);
      return true;
    }

    method RemoveEntry(e: Entry)
      requires sizes.Keys <= accessTimes.Keys
      modifies this
      ensures View() == Dropped(old(View()), e.key, e.size) && sizes.Keys <= accessTimes.Keys
    {
      disk := disk - {e.key};
      accessTimes := accessTimes - {e.key};
      sizes := sizes - {e.key};
      count := count - 1;
      size := size - e.size;
    }

    /** Writes an object and evicts what then exceeds the limit. The books are right afterwards
        unless the write of the meta file of a tracked entry was torn; the limit holds whenever
        removals succeed; and an object that is strictly the newest stays if and only if it fits. */
    method Put(key: string, written: nat, now: int, fault: PutFault, fails: set<Name>, sched: Schedule)
      returns (ok: bool, ghost order: seq<Entry>)
      requires Inv(View())
      modifies this
      ensures ok <==> fault == NoFault
      ensures !ok ==> View() == old(View()).(disk := FailedPut(old(disk), nameOf(key), fault))
      ensures Inv(View()) <==> fault != MetaFails(true) || nameOf(key) !in old(sizes)
      ensures ok ==> PutTo(old(View()), View(), nameOf(key), written, now, maxBytes, fails, sched, order)
      ensures ok && fails == {} && 0 <= maxBytes ==> size <= maxBytes
      ensures ok && fails == {} && sched(0) == [] && NewestAt(old(View()), nameOf(key), now)
              ==> (nameOf(key) in sizes <==> written <= maxBytes)
    {
      var n := nameOf(key);
      ghost var s0 := View();
      if fault != NoFault {
        disk := FailedPut(disk, n, fault);
        FailedPutKeepsInvExactly(s0, n, fault);
        return false, [];
      }
      order := StoreAndEvict(n, written, now, fails, sched);
      ok := true;
      PutAchieves(s0, View(), n, written, now, maxBytes, fails, sched, order);
    }

    method StoreAndEvict(n: Name, written: nat, now: int, fails: set<Name>, sched: Schedule)
      returns (ghost order: seq<Entry>)
      requires Inv(View())
      modifies this
      ensures PutTo(old(View()), View(), n, written, now, maxBytes, fails, sched, order)
    {
      order := [];
      ghost var s0 := View();
      Store(n, written, now, sched(0));
      ghost var s1 := View();
      if size > maxBytes {
        var excess := size - maxBytes;
        order := Evict(excess, fails, Later(sched));
        PutEvicts(s0, s1, View(), n, written, now, maxBytes, fails, sched, order, excess);
      }
    }

    // The writes of a Put that succeeds: meta file, maps, counters. Touches run once the lock on
    // the maps is free again.
    method Store(n: Name, written: nat, now: int, ts: seq<Touch>)
      requires Inv(View())
      modifies this
      ensures View() == Written(old(View()), n, written, now, ts) && Inv(View())
    {
      ghost var s0 := View();
      var existed := MetaOk(disk, n);
      var oldSize := if existed then disk[n].meta.size else 0;
      disk := disk[n := Dir(Meta(written, now), true)];
      accessTimes := accessTimes[n := now];
      sizes := sizes[n := written];
      RunTouches(ts);
      if existed {
        size := size + (written - oldSize);
      } else {
        count := count + 1;
        size := size + written;
      }
      WrittenKeepsInv(s0, n, written, now, ts);
    }

    /** Removes an object. The books are right afterwards if and only if the call fails or the
        entry's meta file was not a corrupt one. */
    method Delete(key: string, removeFails: bool, sched: Schedule) returns (ok: bool)
      requires Inv(View())
      modifies this
      ensures ok <==> !removeFails
      ensures !ok ==> View() == old(View())
      ensures ok ==> View() == DeletedThen(old(View()), nameOf(key), sched(0))
      ensures Inv(View()) <==> !ok || !MetaCorrupt(old(disk), nameOf(key))
    {
      var n := nameOf(key);
      ghost var s0 := View();
      var existed := n in disk && !disk[n].meta.NoMeta?;
      var metaSize := if MetaOk(disk, n) then disk[n].meta.size else 0;
      if removeFails {
        return false;
      }
      disk := disk - {n};
      accessTimes := accessTimes - {n};
      sizes := sizes - {n};
      RunTouches(sched(0));
      if existed {
        count := count - 1;
        size := size - metaSize;
      }
      ok := true;
      DeletedThenKeepsInvExactly(s0, n, sched(0));
    }
  }

  // ---------- What the operations do to the state ----------

  // The victims of an order by access time are gone from maps, counters and disk.
  ghost predicate EvictedBy(s: State, s': State, order: seq<Entry>, target: int, fails: set<Name>, sched: Schedule) {
    && Lists(order, s.accessTimes, s.sizes) && ByAccess(order)
    && Without(s, s', Victims(order, target, fails, 0))
    && s'.accessTimes == TimesAfter(s.accessTimes, order, target, fails, 0, sched, 0)
    && s'.sizes.Keys <= s'.accessTimes.Keys
  }

  // A completed write, and the touches that ran right after the maps were updated.
  function Written(s: State, n: Name, written: int, now: int, ts: seq<Touch>): State {
    var s1 := Stored(s, n, written, now);
    s1.(accessTimes := Touched(s1.accessTimes, ts))
  }

  ghost predicate PutTo(s: State, s': State, n: Name, written: int, now: int, limit: int,
                        fails: set<Name>, sched: Schedule, order: seq<Entry>)
  {
    var s1 := Written(s, n, written, now, sched(0));
    if s1.size > limit then EvictedBy(s1, s', order, s1.size - limit, fails, Later(sched)) else s' == s1
  }

  lemma PutEvicts(s: State, s1: State, s': State, n: Name, written: int, now: int, limit: int,
                  fails: set<Name>, sched: Schedule, order: seq<Entry>, excess: int)
    requires s1 == Written(s, n, written, now, sched(0)) && s1.size > limit && excess == s1.size - limit
    requires EvictedBy(s1, s', order, excess, fails, Later(sched))
    ensures PutTo(s, s', n, written, now, limit, fails, sched, order)
  {
  }

  function DeletedThen(s: State, n: Name, ts: seq<Touch>): State {
    var s1 := Deleted(s, n);
    s1.(accessTimes := Touched(s1.accessTimes, ts))
  }

  // At time `now`, a write of n is strictly the newest access, and no tracked size is negative.
  ghost predicate NewestAt(s: State, n: Name, now: int) {
    && (forall m | m in s.sizes && m in s.accessTimes && m != n :: s.accessTimes[m] < now)
    && (forall m | m in s.sizes :: 0 <= s.sizes[m])
  }

  lemma FailedPutKeepsInvExactly(s: State, n: Name, fault: PutFault)
    requires Inv(s) && fault != NoFault
    ensures Inv(s.(disk := FailedPut(s.disk, n, fault))) <==> fault != MetaFails(true) || n !in s.sizes
  {
    if fault == MetaFails(true) {
      TornMetaKeepsInvExactly(s, n);
    } else {
      FailedPutAgrees(s.sizes, s.disk, n, fault);
    }
  }

  lemma WrittenKeepsInv(s: State, n: Name, written: int, now: int, ts: seq<Touch>)
    requires Inv(s)
    ensures Inv(Written(s, n, written, now, ts))
  {
    StoredKeepsInv(s, n, written, now);
    TouchesOnlyAdd(s.accessTimes[n := now], ts);
    SameBooks(Stored(s, n, written, now), Written(s, n, written, now, ts));
  }

  lemma DeletedThenKeepsInvExactly(s: State, n: Name, ts: seq<Touch>)
    requires Inv(s)
    ensures Inv(DeletedThen(s, n, ts)) <==> !MetaCorrupt(s.disk, n)
  {
    DeleteKeepsInvExactly(s, n);
    TouchesOnlyAdd(s.accessTimes - {n}, ts);
  }

  // The access times' values do not matter.
  lemma SameBooks(a: State, b: State)
    requires Inv(a) && b == a.(accessTimes := b.accessTimes) && b.sizes.Keys <= b.accessTimes.Keys
    ensures Inv(b)
  {
  }

  lemma EvictedKeepsInv(s: State, s': State, order: seq<Entry>, target: int, fails: set<Name>, sched: Schedule)
    requires Inv(s) && EvictedBy(s, s', order, target, fails, sched)
    ensures Inv(s')
  {
    forall i | 0 <= i < |order| ensures order[i].key in s.sizes && s.sizes[order[i].key] == order[i].size {
      assert InMaps(order[i], s.accessTimes, s.sizes);
    }
    VictimsAreTracked(order, target, fails, 0, s.sizes);
    WithoutKeepsInv(s, s', Victims(order, target, fails, 0));
  }

  /** What a completed Put promises, whatever the order among entries accessed at the same time. */
  lemma PutAchieves(s: State, s': State, n: Name, written: nat, now: int, limit: int,
                    fails: set<Name>, sched: Schedule, order: seq<Entry>)
    requires Inv(s) && PutTo(s, s', n, written, now, limit, fails, sched, order)
    ensures Inv(s')
    ensures fails == {} && 0 <= limit ==> s'.size <= limit
    ensures fails == {} && sched(0) == [] && NewestAt(s, n, now) ==> (n in s'.sizes <==> written <= limit)
  {
    var s1 := Written(s, n, written, now, sched(0));
    WrittenKeepsInv(s, n, written, now, sched(0));
    if sched(0) == [] && NewestAt(s, n, now) {
      NewestAfterWrite(s, n, written, now);
      SmallerThanTotal(s1.sizes, n);
    }
    if s1.size > limit {
      EvictedAchieves(s1, s', order, limit, fails, Later(sched), n);
    }
  }

  lemma EvictedAchieves(s: State, s': State, order: seq<Entry>, limit: int, fails: set<Name>, sched: Schedule, n: Name)
    requires Inv(s) && EvictedBy(s, s', order, s.size - limit, fails, sched)
    ensures Inv(s')
    ensures fails == {} && 0 <= limit ==> s'.size <= limit
    ensures fails == {} && Newest(s, n) ==> (n in s'.sizes <==> s.sizes[n] <= limit)
  {
    EvictedKeepsInv(s, s', order, s.size - limit, fails, sched);
    if fails == {} {
      if 0 <= limit {
        EvictedMeetsLimit(s, s', order, limit, sched);
      }
      if Newest(s, n) {
        EvictedKeepsNewest(s, s', order, limit, sched, n);
      }
    }
  }

  lemma EvictedMeetsLimit(s: State, s': State, order: seq<Entry>, limit: int, sched: Schedule)
    requires Inv(s) && EvictedBy(s, s', order, s.size - limit, {}, sched) && 0 <= limit
    ensures s'.size <= limit
  {
    EvictionMeetsLimit(order, s.accessTimes, s.sizes, limit);
  }

  // n is tracked, was accessed strictly last, and no tracked size is negative.
  ghost predicate Newest(s: State, n: Name) {
    && n in s.sizes && n in s.accessTimes
    && (forall m | m in s.sizes && m in s.accessTimes && m != n :: s.accessTimes[m] < s.accessTimes[n])
    && (forall m | m in s.sizes :: 0 <= s.sizes[m])
  }

  lemma NewestAfterWrite(s: State, n: Name, written: nat, now: int)
    requires NewestAt(s, n, now)
    ensures
      var s1 := Written(s, n, written, now, []);
      Newest(s1, n) && s1.sizes[n] == written
  {
  }

  lemma EvictedKeepsNewest(s: State, s': State, order: seq<Entry>, limit: int, sched: Schedule, n: Name)
    requires Inv(s) && EvictedBy(s, s', order, s.size - limit, {}, sched) && Newest(s, n)
    ensures n in s'.sizes <==> s.sizes[n] <= limit
  {
    forall i | 0 <= i < |order| ensures 0 <= order[i].size {
      assert InMaps(order[i], s.accessTimes, s.sizes);
    }
    NewestIsEvictedExactly(order, s.accessTimes, s.sizes, limit, n);
  }

  lemma {:induction false} TotalNotNegative(m: map<Name, int>)
    requires forall k | k in m :: 0 <= m[k]
    ensures 0 <= Total(m)
    decreases |m|
  {
    if m != map[] {
      var k :| k in m && Total(m) == m[k] + Total(m - {k});
      TotalNotNegative(m - {k});
    }
  }

  lemma SmallerThanTotal(m: map<Name, int>, n: Name)
    requires n in m && forall k | k in m :: 0 <= m[k]
    ensures m[n] <= Total(m)
  {
    TotalWithout(m, n);
    TotalNotNegative(m - {n});
  }

  // ---------- Runs ----------

  datatype Op =
    | Put(name: Name, written: nat, now: int, fault: PutFault, fails: set<Name>, sched: Schedule)
    | Delete(name: Name, removeFails: bool, touches: seq<Touch>)
    | Evict(target: int, fails: set<Name>, sched: Schedule)
    | Access(touch: Touch)

  // Put, Delete and Evict are what the methods of Cache promise; Access is a touch in between.
  ghost predicate Step(s: State, op: Op, s': State, limit: int) {
    match op
    case Put(n, written, now, fault, fails, sched) =>
      if fault != NoFault then s' == s.(disk := FailedPut(s.disk, n, fault))
      else exists order :: PutTo(s, s', n, written, now, limit, fails, sched, order)
    case Delete(n, removeFails, ts) => s' == if removeFails then s else DeletedThen(s, n, ts)
    case Evict(target, fails, sched) => exists order :: EvictedBy(s, s', order, target, fails, sched)
    case Access(t) => s' == s.(accessTimes := s.accessTimes[t.name := t.time])
  }

  predicate NothingCorrupt(disk: map<Name, Dir>) {
    forall n | n in disk :: !disk[n].meta.Corrupt?
  }

  ghost predicate IsRun(states: seq<State>, ops: seq<Op>, limit: int) {
    && |states| == |ops| + 1
    && (forall i | 0 <= i < |ops| :: Step(states[i], ops[i], states[i + 1], limit))
  }

  predicate TornWrite(op: Op) {
    op.Put? && op.fault == MetaFails(true)
  }

  // A torn write of a tracked entry's meta file, or the removal of an entry whose meta file is corrupt.
  predicate Breaks(s: State, op: Op) {
    (TornWrite(op) && op.name in s.sizes) || (op.Delete? && !op.removeFails && MetaCorrupt(s.disk, op.name))
  }

  lemma PutStepKeepsExactly(s: State, op: Op, s': State, limit: int)
    requires Inv(s) && op.Put? && Step(s, op, s', limit)
    ensures Inv(s') <==> !Breaks(s, op)
    ensures op.fault == NoFault && op.fails == {} && 0 <= limit ==> s'.size <= limit
  {
    if op.fault != NoFault {
      FailedPutKeepsInvExactly(s, op.name, op.fault);
    } else {
      var order :| PutTo(s, s', op.name, op.written, op.now, limit, op.fails, op.sched, order);
      PutAchieves(s, s', op.name, op.written, op.now, limit, op.fails, op.sched, order);
    }
  }

  /** Every operation keeps the four records in agreement, if and only if it is not one of these two. */
  lemma StepKeepsInvExactly(s: State, op: Op, s': State, limit: int)
    requires Inv(s) && Step(s, op, s', limit)
    ensures Inv(s') <==> !Breaks(s, op)
    ensures op.Put? && op.fault == NoFault && op.fails == {} && 0 <= limit ==> s'.size <= limit
  {
    match op
    case Put(_, _, _, _, _, _) => PutStepKeepsExactly(s, op, s', limit);
    case Delete(n, _, ts) => DeletedThenKeepsInvExactly(s, n, ts);
    case Evict(target, fails, sched) =>
      var order :| EvictedBy(s, s', order, target, fails, sched);
      EvictedKeepsInv(s, s', order, target, fails, sched);
    case Access(_) => SameBooks(s, s');
  }

  /** In every run, from any disk, the four records agree after every operation as long as none of
      the two was among them, and every completed Put whose removals succeed leaves the cache within
      its limit. */
  lemma {:induction false} RunKeepsInv(states: seq<State>, ops: seq<Op>, limit: int, i: nat)
    requires IsRun(states, ops, limit) && i <= |ops| && Inv(states[0])
    requires forall j | 0 <= j < i :: !Breaks(states[j], ops[j])
    ensures Inv(states[i])
    ensures i > 0 && ops[i - 1].Put? && ops[i - 1].fault == NoFault && ops[i - 1].fails == {} && 0 <= limit
            ==> states[i].size <= limit
  {
    if i > 0 {
      RunKeepsInv(states, ops, limit, i - 1);
      StepKeepsInvExactly(states[i - 1], ops[i - 1], states[i], limit);
    }
  }

  lemma StepKeepsDiskSound(s: State, op: Op, s': State, limit: int)
    requires NothingCorrupt(s.disk) && Step(s, op, s', limit) && !TornWrite(op)
    ensures NothingCorrupt(s'.disk)
  {
  }

  /** From a disk without corrupt meta files, a run without torn meta writes has neither of the two. */
  lemma {:induction false} SoundDiskNeverBreaks(states: seq<State>, ops: seq<Op>, limit: int, i: nat)
    requires IsRun(states, ops, limit) && i <= |ops| && NothingCorrupt(states[0].disk)
    requires forall j | 0 <= j < i :: !TornWrite(ops[j])
    ensures NothingCorrupt(states[i].disk) && forall j | 0 <= j < i :: !Breaks(states[j], ops[j])
  {
    if i > 0 {
      SoundDiskNeverBreaks(states, ops, limit, i - 1);
      StepKeepsDiskSound(states[i - 1], ops[i - 1], states[i], limit);
    }
  }

  /** The two do occur, and then the count goes wrong: from any state in agreement, a torn Put of a new
      entry and its Delete leave it one too low. */
  lemma TornPutThenDeleteMiscounts(s: State, n: Name, written: nat, now: int, limit: int, sched: Schedule)
    requires Inv(s) && n !in s.disk
    ensures
      var s1 := s.(disk := FailedPut(s.disk, n, MetaFails(true)));
      var s2 := DeletedThen(s1, n, []);
      && IsRun([s, s1, s2], [Op.Put(n, written, now, MetaFails(true), {}, sched), Op.Delete(n, false, [])], limit)
      && Inv(s1) && s2.sizes == s.sizes && s2.count == |s2.sizes| - 1
  {
    var s1 := s.(disk := FailedPut(s.disk, n, MetaFails(true)));
    var s2 := DeletedThen(s1, n, []);
    TornMetaKeepsInvExactly(s, n);
    assert s1.disk == s.disk[n := Dir(Corrupt, true)];
    assert n !in s.sizes && s.sizes - {n} == s.sizes;
    CountIsSize(s);
    var states, ops := [s, s1, s2], [Op.Put(n, written, now, MetaFails(true), {}, sched), Op.Delete(n, false, [])];
    assert Step(states[0], ops[0], states[1], limit) && Step(states[1], ops[1], states[2], limit);
  }

  // ---------- Inside the eviction loop ----------

  // s is s0 after the entries of v were removed, access times aside.
  ghost predicate Without(s0: State, s: State, v: seq<Entry>) {
    && s.sizes == s0.sizes - KeysOf(v) && s.disk == s0.disk - KeysOf(v)
    && s.size == s0.size - Bytes(v) && s.count == s0.count - |v|
  }

  // Between two rounds of the loop: the first d of the victims v are removed, and what is left of
  // the order yields the others.
  ghost predicate Evicting(s0: State, s: State, v: seq<Entry>, d: nat, rest: seq<Entry>,
                           target: int, fails: set<Name>, freed: int)
  {
    && d <= |v| && Without(s0, s, v[..d]) && freed == Bytes(v[..d])
    && v[d..] == Victims(rest, target, fails, freed)
  }

  lemma EvictingSkips(s0: State, s: State, s': State, v: seq<Entry>, d: nat, rest: seq<Entry>,
                      target: int, fails: set<Name>, freed: int)
    requires Evicting(s0, s, v, d, rest, target, fails, freed) && rest != [] && freed < target
    requires rest[0].key in fails && s' == s.(accessTimes := s'.accessTimes)
    ensures Evicting(s0, s', v, d, rest[1..], target, fails, freed)
  {
  }

  lemma EvictingTakes(s0: State, s: State, s': State, v: seq<Entry>, d: nat, rest: seq<Entry>,
                      target: int, fails: set<Name>, freed: int)
    requires Evicting(s0, s, v, d, rest, target, fails, freed) && rest != [] && freed < target
    requires rest[0].key !in fails
    requires s' == Dropped(s, rest[0].key, rest[0].size).(accessTimes := s'.accessTimes)
    ensures Evicting(s0, s', v, d + 1, rest[1..], target, fails, freed + rest[0].size)
  {
    assert v[d] == v[d..][0] == rest[0] && v[d + 1..] == v[d..][1..];
    assert v[..d + 1] == v[..d] + [v[d]];
    WithoutSnoc(s0, s, s', v[..d], v[d]);
  }

  // What is left of the eviction leads to the access times `end`.
  predicate Timing(times: map<Name, int>, rest: seq<Entry>, target: int, fails: set<Name>, freed: int,
                   sched: Schedule, r: nat, end: map<Name, int>)
  {
    TimesAfter(times, rest, target, fails, freed, sched, r) == end
  }

  function RoundOf(s: State, e: Entry, fails: set<Name>, ts: seq<Touch>): State {
    var s1 := s.(accessTimes := Touched(s.accessTimes, ts));
    if e.key in fails then s1 else Dropped(s1, e.key, e.size)
  }

  lemma RoundKeeps(s0: State, s: State, v: seq<Entry>, d: nat, rest: seq<Entry>, target: int, fails: set<Name>, freed: int,
                   sched: Schedule, r: nat, end: map<Name, int>)
    requires Evicting(s0, s, v, d, rest, target, fails, freed) && rest != [] && freed < target
    requires Timing(s.accessTimes, rest, target, fails, freed, sched, r, end)
    ensures
      var s', n, size := RoundOf(s, rest[0], fails, sched(r)), if rest[0].key in fails then 0 else 1, if rest[0].key in fails then 0 else rest[0].size;
      && Evicting(s0, s', v, d + n, rest[1..], target, fails, freed + size)
      && Timing(s'.accessTimes, rest[1..], target, fails, freed + size, sched, r + 1, end)
  {
    if rest[0].key in fails {
      EvictingSkips(s0, s, RoundOf(s, rest[0], fails, sched(r)), v, d, rest, target, fails, freed);
    } else {
      EvictingTakes(s0, s, RoundOf(s, rest[0], fails, sched(r)), v, d, rest, target, fails, freed);
    }
  }

  lemma {:induction false} VictimsAreTracked(order: seq<Entry>, target: int, fails: set<Name>, freed: int, sizes: map<Name, int>)
    requires DistinctKeys(order) && Tracked(order, sizes)
    ensures
      var v := Victims(order, target, fails, freed);
      DistinctKeys(v) && Tracked(v, sizes) && KeysOf(v) <= KeysOf(order)
    decreases |order|
  {
    if order != [] && freed < target {
      TailIsTracked(order, sizes);
      if order[0].key in fails {
        VictimsAreTracked(order[1..], target, fails, freed, sizes);
      } else {
        VictimsAreTracked(order[1..], target, fails, freed + order[0].size, sizes);
        FirstIsTracked(order[0], Victims(order[1..], target, fails, freed + order[0].size), sizes, KeysOf(order[1..]));
      }
    }
  }

  lemma TailIsTracked(order: seq<Entry>, sizes: map<Name, int>)
    requires order != [] && DistinctKeys(order) && Tracked(order, sizes)
    ensures DistinctKeys(order[1..]) && Tracked(order[1..], sizes)
    ensures KeysOf(order) == {order[0].key} + KeysOf(order[1..]) && order[0].key !in KeysOf(order[1..])
  {
    assert forall i | 0 <= i < |order| - 1 :: order[1..][i] == order[i + 1];
    assert forall i | 0 < i < |order| :: order[i] == order[1..][i - 1];
  }

  lemma FirstIsTracked(e: Entry, rest: seq<Entry>, sizes: map<Name, int>, keys: set<Name>)
    requires DistinctKeys(rest) && Tracked(rest, sizes) && KeysOf(rest) <= keys && e.key !in keys
    requires e.key in sizes && sizes[e.key] == e.size
    ensures DistinctKeys([e] + rest) && Tracked([e] + rest, sizes) && KeysOf([e] + rest) <= {e.key} + keys
  {
    assert forall i | 0 <= i < |rest| :: rest[i].key in KeysOf(rest);
  }

  // Removing tracked entries one after another keeps the books.
  lemma WithoutKeepsInv(s0: State, s: State, v: seq<Entry>)
    requires Inv(s0) && Without(s0, s, v) && DistinctKeys(v) && Tracked(v, s0.sizes)
    requires s.sizes.Keys <= s.accessTimes.Keys
    ensures Inv(s)
  {
    WithoutCounts(s0.size, s0.count, s0.sizes, v);
    WithoutAgrees(s0.sizes, s0.disk, KeysOf(v));
  }

  lemma {:induction false} WithoutCounts(size: int, count: int, sizes: map<Name, int>, v: seq<Entry>)
    requires Counts(size, count, sizes) && DistinctKeys(v) && Tracked(v, sizes)
    ensures Counts(size - Bytes(v), count - |v|, sizes - KeysOf(v))
    decreases |v|
  {
    if v == [] {
      assert sizes - KeysOf(v) == sizes;
    } else {
      var e, init := v[|v| - 1], v[..|v| - 1];
      WithoutCounts(size, count, sizes, init);
      LastStaysTracked(sizes, v);
      TotalWithout(sizes - KeysOf(init), e.key);
      NumberWithout(sizes - KeysOf(init), e.key);
      WithoutLast(sizes, v);
    }
  }

  lemma WithoutLast(sizes: map<Name, int>, v: seq<Entry>)
    requires v != []
    ensures sizes - KeysOf(v[..|v| - 1]) - {v[|v| - 1].key} == sizes - KeysOf(v)
  {
    var init := v[..|v| - 1];
    assert forall i | 0 <= i < |init| :: init[i] == v[i];
    assert KeysOf(v) == KeysOf(init) + {v[|v| - 1].key};
  }

  lemma WithoutAgrees(sizes: map<Name, int>, disk: map<Name, Dir>, gone: set<Name>)
    requires Agrees(sizes, disk)
    ensures Agrees(sizes - gone, disk - gone)
  {
    assert forall n :: MetaOk(disk - gone, n) <==> MetaOk(disk, n) && n !in gone;
  }

  lemma LastStaysTracked(sizes: map<Name, int>, v: seq<Entry>)
    requires v != [] && DistinctKeys(v) && Tracked(v, sizes)
    ensures
      var e, left := v[|v| - 1], sizes - KeysOf(v[..|v| - 1]);
      e.key in left && left[e.key] == e.size
  {
  }

  lemma WithoutSnoc(s0: State, s: State, s': State, done: seq<Entry>, e: Entry)
    requires Without(s0, s, done) && s' == Dropped(s, e.key, e.size).(accessTimes := s'.accessTimes)
    ensures Without(s0, s', done + [e]) && Bytes(done + [e]) == Bytes(done) + e.size
  {
    var more := done + [e];
    assert more[..|done|] == done && more[|done|] == e;
    assert KeysOf(more) == KeysOf(done) + {e.key} by {
      assert forall i | 0 <= i < |done| :: more[i] == done[i];
    }
    assert s0.sizes - KeysOf(done) - {e.key} == s0.sizes - KeysOf(more);
    assert s0.disk - KeysOf(done) - {e.key} == s0.disk - KeysOf(more);
  }

  // sort.Slice by access time; an order among equal times is not promised.
  method SortByAccess(entries: seq<Entry>) returns (order: seq<Entry>)
    ensures multiset(order) == multiset(entries) && ByAccess(order)
  {
    order := entries;
    for i := 0 to |order|
      invariant |order| == |entries| && multiset(order) == multiset(entries) && ByAccess(order[..i])
    {
      order := SinkLast(order, i);
    }
    assert order[..|order|] == order;
  }

  // Moves entry i down to its place among the sorted ones before it.
  method SinkLast(entries: seq<Entry>, i: nat) returns (order: seq<Entry>)
    requires i < |entries| && ByAccess(entries[..i])
    ensures |order| == |entries| && multiset(order) == multiset(entries) && ByAccess(order[..i + 1])
  {
    order := entries;
    assert forall a | 0 <= a < i :: order[a] == entries[..i][a];
    var j := i;
    while j > 0 && order[j - 1].lastAccess > order[j].lastAccess
      invariant 0 <= j <= i && |order| == |entries| && multiset(order) == multiset(entries)
      invariant SortedBut(order, i, j)
    {
      SinkStep(order, i, j);
      order := order[j - 1 := order[j]][j := order[j - 1]];
      j := j - 1;
    }
  }

  // The first i + 1 are in order, except that j may belong further down.
  predicate SortedBut(order: seq<Entry>, i: int, j: int) {
    i < |order| && forall a, b | 0 <= a < b <= i && b != j :: order[a].lastAccess <= order[b].lastAccess
  }

  lemma SinkStep(order: seq<Entry>, i: int, j: int)
    requires SortedBut(order, i, j) && 0 < j <= i && order[j - 1].lastAccess > order[j].lastAccess
    ensures
      var order' := order[j - 1 := order[j]][j := order[j - 1]];
      SortedBut(order', i, j - 1) && multiset(order') == multiset(order)
  {
  }

  lemma PermutedLists(a: seq<Entry>, b: seq<Entry>, times: map<Name, int>, sizes: map<Name, int>)
    requires Lists(a, times, sizes) && multiset(a) == multiset(b)
    ensures Lists(b, times, sizes)
  {
    forall k | 0 <= k < |b| ensures b[k] in a {
      assert b[k] in multiset(b);
    }
    forall n | n in sizes && n in times ensures exists k :: 0 <= k < |b| && b[k].key == n {
      var k :| 0 <= k < |a| && a[k].key == n;
      assert a[k] in multiset(a);
    }
    forall i, j | 0 <= i < j < |b| ensures b[i].key != b[j].key {
      if b[i].key == b[j].key {
        var p :| 0 <= p < |a| && a[p] == b[i];
        var q :| 0 <= q < |a| && a[q] == b[j];
        TwiceCounted(b, i, j);
        OnceCounted(a, p);
      }
    }
  }
}
