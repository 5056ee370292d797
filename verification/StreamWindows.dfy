/**
 Per-stream sliding windows over a chunk cache (internal/streaming/window.go). Calls are
 serial; the cache is a map whose Put may fail. The window logic is stated for any function
 that makes cache keys, and used with ChunkCacheKey.
 */
module StreamWindows {
  import opened GoText
  import opened ChunkKeys

  type Data = seq<bv8>
  type KeyFn = (string, int) -> string

  datatype Window = Window(seqs: seq<int>, headSeq: int, maxSize: nat, evictions: nat)
  datatype State = State(cache: map<string, Data>, windows: map<string, Window>)

  const Empty: State := State(map[], map[])

  // ---------- What one call does to the cache and the windows ----------

  function WindowOf(windows: map<string, Window>, size: nat, stream: string): Window {
    if stream in windows then windows[stream] else Window([], 0, size, 0)
  }

  function KeysOf(key: KeyFn, stream: string, seqs: seq<int>): set<string> {
    set i | 0 <= i < |seqs| :: key(stream, seqs[i])
  }

  function Overflow(win: Window): nat {
    if |win.seqs| + 1 > win.maxSize then |win.seqs| + 1 - win.maxSize else 0
  }

  function Stored(key: KeyFn, cache: map<string, Data>, stream: string, seqNum: int, data: Data): map<string, Data> {
    if data == [] then cache else cache[key(stream, seqNum) := data]
  }

  function Slid(win: Window, seqNum: int): Window {
    Window((win.seqs + [seqNum])[Overflow(win)..], seqNum, win.maxSize, win.evictions + Overflow(win))
  }

  function Evicted(win: Window, seqNum: int): seq<int> {
    (win.seqs + [seqNum])[..Overflow(win)]
  }

  function AfterCache(key: KeyFn, st: State, size: nat, stream: string, seqNum: int, data: Data, putFails: bool): State {
    var win := WindowOf(st.windows, size, stream);
    if data != [] && putFails then st.(windows := st.windows[stream := win])
    else State(Stored(key, st.cache, stream, seqNum, data) - KeysOf(key, stream, Evicted(win, seqNum)),
               st.windows[stream := Slid(win, seqNum)])
  }

  function AfterEvictStream(key: KeyFn, st: State, stream: string): State {
    if stream !in st.windows then st
    else State(st.cache - KeysOf(key, stream, st.windows[stream].seqs), st.windows - {stream})
  }

  class ChunkCache {
    var entries: map<string, Data>

    method Delete(k: string)
      modifies this
      ensures entries == old(entries) - {k}
    {
      entries := entries - {k};
    }
  }

  class SlidingWindow {
    const cache: ChunkCache
    const windowSize: nat
    var windows: map<string, Window>

    constructor (cache: ChunkCache, windowSize: nat)
      ensures this.cache == cache && this.windowSize == windowSize && windows == map[]
    {
      this.cache := cache;
      this.windowSize := windowSize;
      windows := map[];
    }

    function View(): State
      reads this, cache
    {
      State(cache.entries, windows)
    }

    // The eviction loop that CacheChunk and EvictStream share.
    method DeleteAll(stream: string, seqs: seq<int>)
      modifies cache
      ensures cache.entries == old(cache.entries) - KeysOf(ChunkCacheKey, stream, seqs)
    {
      for i := 0 to |seqs|
        invariant cache.entries == old(cache.entries) - KeysOf(ChunkCacheKey, stream, seqs[..i])
      {
        KeysOfSnoc(ChunkCacheKey, stream, seqs, i);
        cache.Delete(ChunkCacheKey(stream, seqs[i]));
      }
      assert seqs[..|seqs|] == seqs;
    }

    method CacheChunk(stream: string, seqNum: int, data: Data, putFails: bool) returns (ok: bool)
      modifies this`windows, cache
      ensures View() == AfterCache(ChunkCacheKey, old(View()), windowSize, stream, seqNum, data, putFails)
      ensures ok <==> data == [] || !putFails
    {
      var win := WindowOf(windows, windowSize, stream);
      windows := windows[stream := win];
      if data != [] {
        if putFails {
          return false;
        }
        cache.entries := cache.entries[ChunkCacheKey(stream, seqNum) := data];
      }
      Slide(stream, win, seqNum);
      return true;
    }

    // Appends to the window and drops what no longer fits, from the cache too.
    method Slide(stream: string, win: Window, seqNum: int)
      modifies this`windows, cache
      ensures windows == old(windows)[stream := Slid(win, seqNum)]
      ensures cache.entries == old(cache.entries) - KeysOf(ChunkCacheKey, stream, Evicted(win, seqNum))
    {
      var seqs, evictions := win.seqs + [seqNum], win.evictions;
      if |seqs| > win.maxSize {
        var toEvict := |seqs| - win.maxSize;
        DeleteAll(stream, seqs[..toEvict]);
        seqs := seqs[toEvict..];
        evictions := evictions + toEvict;
      } else {
        assert seqs[0..] == seqs && KeysOf(ChunkCacheKey, stream, seqs[..0]) == {};
      }
      windows := windows[stream := Window(seqs, seqNum, win.maxSize, evictions)];
    }

    method EvictStream(stream: string)
      modifies this`windows, cache
      ensures View() == AfterEvictStream(ChunkCacheKey, old(View()), stream)
    {
      if stream !in windows {
        return;
      }
      DeleteAll(stream, windows[stream].seqs);
      windows := windows - {stream};
    }
  }

  lemma KeysOfSnoc(key: KeyFn, stream: string, seqs: seq<int>, i: nat)
    requires i < |seqs|
    ensures KeysOf(key, stream, seqs[..i + 1]) == KeysOf(key, stream, seqs[..i]) + {key(stream, seqs[i])}
  {
    var a, b := seqs[..i + 1], seqs[..i];
    forall k | k in KeysOf(key, stream, b) ensures k in KeysOf(key, stream, a) {
      var j :| 0 <= j < |b| && k == key(stream, b[j]);
      assert a[j] == b[j];
    }
    assert a[i] == seqs[i];
    forall k | k in KeysOf(key, stream, a) && k != key(stream, seqs[i]) ensures k in KeysOf(key, stream, b) {
      var j :| 0 <= j < |a| && k == key(stream, a[j]);
      assert a[j] == b[j];
    }
  }

  // ---------- Runs ----------

  datatype Op =
    | Cache(stream: string, seqNum: int, data: Data, putFails: bool)
    | Evict(stream: string)
  {
    predicate Completes() {
      Cache? && (data == [] || !putFails)
    }
  }

  datatype Chunk = Chunk(seqNum: int, data: Data)

  function After(key: KeyFn, st: State, size: nat, op: Op): State {
    match op
    case Cache(stream, seqNum, data, putFails) => AfterCache(key, st, size, stream, seqNum, data, putFails)
    case Evict(stream) => AfterEvictStream(key, st, stream)
  }

  function Run(key: KeyFn, size: nat, ops: seq<Op>): State {
    if ops == [] then Empty else After(key, Run(key, size, ops[..|ops| - 1]), size, ops[|ops| - 1])
  }

  // The chunks whose CacheChunk completed since the stream's window was created.
  function History(ops: seq<Op>, stream: string): seq<Chunk> {
    if ops == [] then []
    else
      var h := History(ops[..|ops| - 1], stream);
      var op := ops[|ops| - 1];
      if op.stream != stream then h
      else if op.Evict? then []
      else if op.Completes() then h + [Chunk(op.seqNum, op.data)]
      else h
  }

  function LastN<T>(h: seq<T>, n: nat): seq<T> {
    if |h| <= n then h else h[|h| - n..]
  }

  function Nums(h: seq<Chunk>): seq<int> {
    seq(|h|, i requires 0 <= i < |h| => h[i].seqNum)
  }

  function Recent(size: nat, ops: seq<Op>, stream: string): seq<Chunk> {
    LastN(History(ops, stream), size)
  }

  // The window agrees with the calls completed since it was created.
  ghost predicate Tracks(win: Window, size: nat, h: seq<Chunk>) {
    && win.maxSize == size && |win.seqs| <= size
    && win.seqs == Nums(LastN(h, size))
    && win.evictions + |win.seqs| == |h|
    && win.headSeq == if h == [] then 0 else h[|h| - 1].seqNum
  }

  lemma SlideTracks(win: Window, size: nat, h: seq<Chunk>, c: Chunk)
    requires Tracks(win, size, h)
    ensures Tracks(Slid(win, c.seqNum), size, h + [c])
    ensures LastN(h + [c], size) == (LastN(h, size) + [c])[Overflow(win)..]
    ensures Nums(LastN(h, size) + [c]) == win.seqs + [c.seqNum]
  {
    var w := LastN(h, size);
    assert |win.seqs| == |w|;
    assert LastN(h + [c], size) == (w + [c])[Overflow(win)..];
    NumsSlide(w + [c], Overflow(win));
    assert Nums(w + [c]) == win.seqs + [c.seqNum];
  }

  lemma NumsSlide(h: seq<Chunk>, n: nat)
    requires n <= |h|
    ensures Nums(h[n..]) == Nums(h)[n..]
  {
  }

  /** In every run: a window holds the sequence numbers of the last `size` completed calls, and
      what it holds plus what it evicted is every completed call since it was created. */
  lemma {:induction false} WindowsCount(key: KeyFn, size: nat, ops: seq<Op>, stream: string)
    ensures Tracks(WindowOf(Run(key, size, ops).windows, size, stream), size, History(ops, stream))
  {
    if ops != [] {
      var before, op := ops[..|ops| - 1], ops[|ops| - 1];
      WindowsCount(key, size, before, stream);
      if op.stream == stream && op.Completes() {
        var win := WindowOf(Run(key, size, before).windows, size, stream);
        SlideTracks(win, size, History(before, stream), Chunk(op.seqNum, op.data));
      }
    }
  }

  // ---------- Streams do not disturb each other ----------

  // Different chunks have different keys.
  ghost predicate Injective(key: KeyFn) {
    forall s, m, t, n | InInt64(m) && InInt64(n) && key(s, m) == key(t, n) :: s == t && m == n
  }

  lemma ChunkKeysAreInjective()
    ensures Injective(ChunkCacheKey)
  {
    forall s, m, t, n | InInt64(m) && InInt64(n) && ChunkCacheKey(s, m) == ChunkCacheKey(t, n)
      ensures s == t && m == n
    {
      KeysAreDistinct(ChunkId(s, m), ChunkId(t, n));
    }
  }

  predicate AllInInt64(seqs: seq<int>) {
    forall i | 0 <= i < |seqs| :: InInt64(seqs[i])
  }

  predicate SameAt(a: map<string, Data>, b: map<string, Data>, k: string) {
    (k in a <==> k in b) && (k in a && k in b ==> a[k] == b[k])
  }

  /** A call on one stream leaves every chunk of every other stream as it was. */
  lemma OtherStreamsUntouched(key: KeyFn, st: State, size: nat, op: Op, stream: string, seqNum: int)
    requires Injective(key) && InInt64(seqNum) && op.stream != stream
    requires AllInInt64(WindowOf(st.windows, size, op.stream).seqs) && (op.Cache? ==> InInt64(op.seqNum))
    ensures SameAt(After(key, st, size, op).cache, st.cache, key(stream, seqNum))
  {
    var win := WindowOf(st.windows, size, op.stream);
    assert key(stream, seqNum) !in KeysOf(key, op.stream, win.seqs);
    if op.Cache? {
      assert AllInInt64(Evicted(win, op.seqNum));
      assert key(stream, seqNum) !in KeysOf(key, op.stream, Evicted(win, op.seqNum));
    }
  }

  // ---------- What stays cached ----------

  // Sequence numbers are int64, and no completed call uses one that is still in its stream's window.
  predicate Fresh(size: nat, ops: seq<Op>) {
    ops == [] ||
    var before, op := ops[..|ops| - 1], ops[|ops| - 1];
    && Fresh(size, before)
    && (op.Cache? ==> InInt64(op.seqNum))
    && (op.Completes() ==> op.seqNum !in Nums(Recent(size, before, op.stream)))
  }

  // Chunks of one stream with pairwise different int64 numbers.
  predicate Distinct(w: seq<Chunk>) {
    && (forall i, j | 0 <= i < j < |w| :: w[i].seqNum != w[j].seqNum)
    && (forall i | 0 <= i < |w| :: InInt64(w[i].seqNum))
  }

  ghost predicate Has(w: seq<Chunk>, n: int) {
    exists i :: 0 <= i < |w| && w[i].seqNum == n && w[i].data != []
  }

  // The stream's part of the cache is exactly the non-empty chunks of w.
  ghost predicate Caches(key: KeyFn, cache: map<string, Data>, stream: string, w: seq<Chunk>) {
    && (forall i | 0 <= i < |w| && w[i].data != [] ::
          key(stream, w[i].seqNum) in cache && cache[key(stream, w[i].seqNum)] == w[i].data)
    && (forall n | InInt64(n) && key(stream, n) in cache :: Has(w, n))
  }

  lemma SnocDistinct(w: seq<Chunk>, c: Chunk)
    requires Distinct(w) && InInt64(c.seqNum) && c.seqNum !in Nums(w)
    ensures Distinct(w + [c])
  {
    assert forall i | 0 <= i < |w| :: Nums(w)[i] == w[i].seqNum;
  }

  lemma LastNSnoc(h: seq<Chunk>, size: nat, c: Chunk)
    ensures
      var w := LastN(h, size) + [c];
      LastN(h + [c], size) == w[if |w| > size then |w| - size else 0..]
  {
  }

  lemma {:induction false} RecentAreDistinct(size: nat, ops: seq<Op>, stream: string)
    requires Fresh(size, ops)
    ensures Distinct(Recent(size, ops, stream))
  {
    if ops != [] {
      var before, op := ops[..|ops| - 1], ops[|ops| - 1];
      RecentAreDistinct(size, before, stream);
      if op.stream == stream && op.Completes() {
        var w, c := Recent(size, before, stream), Chunk(op.seqNum, op.data);
        SnocDistinct(w, c);
        assert History(ops, stream) == History(before, stream) + [c];
        LastNSnoc(History(before, stream), size, c);
      }
    }
  }

  lemma StoredCaches(key: KeyFn, cache: map<string, Data>, stream: string, w: seq<Chunk>, c: Chunk)
    requires Injective(key) && Caches(key, cache, stream, w) && Distinct(w + [c])
    ensures Caches(key, Stored(key, cache, stream, c.seqNum, c.data), stream, w + [c])
  {
    var all, stored := w + [c], Stored(key, cache, stream, c.seqNum, c.data);
    assert all[|w|] == c && forall i | 0 <= i < |w| :: all[i] == w[i];
    forall n | InInt64(n) && key(stream, n) in stored ensures Has(all, n) {
      if Has(w, n) {
        var i :| 0 <= i < |w| && w[i].seqNum == n && w[i].data != [];
        assert all[i] == w[i];
      }
    }
  }

  lemma DroppedCaches(key: KeyFn, cache: map<string, Data>, stream: string, all: seq<Chunk>, out: nat)
    requires Injective(key) && Caches(key, cache, stream, all) && Distinct(all) && out <= |all|
    ensures Caches(key, cache - KeysOf(key, stream, Nums(all)[..out]), stream, all[out..])
  {
    var gone := KeysOf(key, stream, Nums(all)[..out]);
    forall i | 0 <= i < |all| ensures key(stream, all[i].seqNum) in gone <==> i < out {
      assert i < out ==> Nums(all)[..out][i] == all[i].seqNum;
    }
    forall n | InInt64(n) && key(stream, n) in cache - gone ensures Has(all[out..], n) {
      var i :| 0 <= i < |all| && all[i].seqNum == n && all[i].data != [];
      assert all[out..][i - out] == all[i];
    }
  }

  lemma EvictedStreamIsGone(key: KeyFn, cache: map<string, Data>, stream: string, w: seq<Chunk>)
    requires Caches(key, cache, stream, w)
    ensures Caches(key, cache - KeysOf(key, stream, Nums(w)), stream, [])
  {
    forall n | InInt64(n) && key(stream, n) in cache ensures key(stream, n) in KeysOf(key, stream, Nums(w)) {
      var i :| 0 <= i < |w| && w[i].seqNum == n && w[i].data != [];
      assert Nums(w)[i] == n;
    }
  }

  lemma OtherStepCaches(key: KeyFn, size: nat, before: seq<Op>, op: Op, stream: string)
    requires Injective(key) && Fresh(size, before + [op]) && op.stream != stream
    requires Caches(key, Run(key, size, before).cache, stream, Recent(size, before, stream))
    ensures Caches(key, After(key, Run(key, size, before), size, op).cache, stream, Recent(size, before, stream))
  {
    var st := Run(key, size, before);
    assert (before + [op])[..|before|] == before;
    WindowsCount(key, size, before, op.stream);
    RecentAreDistinct(size, before, op.stream);
    RecentAreDistinct(size, before, stream);
    forall n | InInt64(n) ensures SameAt(After(key, st, size, op).cache, st.cache, key(stream, n)) {
      OtherStreamsUntouched(key, st, size, op, stream, n);
    }
  }

  lemma CompletedStepCaches(key: KeyFn, st: State, size: nat, op: Op, h: seq<Chunk>)
    requires Injective(key) && op.Completes() && InInt64(op.seqNum) && op.seqNum !in Nums(LastN(h, size)) && Distinct(LastN(h, size))
    requires Tracks(WindowOf(st.windows, size, op.stream), size, h) && Caches(key, st.cache, op.stream, LastN(h, size))
    ensures Caches(key, After(key, st, size, op).cache, op.stream, LastN(h + [Chunk(op.seqNum, op.data)], size))
  {
    var c, win := Chunk(op.seqNum, op.data), WindowOf(st.windows, size, op.stream);
    SnocDistinct(LastN(h, size), c);
    SlideTracks(win, size, h, c);
    StoredCaches(key, st.cache, op.stream, LastN(h, size), c);
    DroppedCaches(key, Stored(key, st.cache, op.stream, op.seqNum, op.data), op.stream, LastN(h, size) + [c], Overflow(win));
  }

  lemma StepCaches(key: KeyFn, size: nat, before: seq<Op>, op: Op, stream: string)
    requires Injective(key) && Fresh(size, before + [op])
    requires Caches(key, Run(key, size, before).cache, stream, Recent(size, before, stream))
    ensures Caches(key, Run(key, size, before + [op]).cache, stream, Recent(size, before + [op], stream))
  {
    var st, h := Run(key, size, before), History(before, stream);
    assert (before + [op])[..|before|] == before;
    WindowsCount(key, size, before, stream);
    if op.stream != stream {
      OtherStepCaches(key, size, before, op, stream);
    } else if op.Evict? {
      EvictedStreamIsGone(key, st.cache, stream, LastN(h, size));
    } else if op.Completes() {
      RecentAreDistinct(size, before, stream);
      CompletedStepCaches(key, st, size, op, h);
    }
  }

  /** In every run that does not reuse a number still in its window, the cache holds, for each
      stream, exactly the non-empty ones among its last `size` chunks, with their bytes. */
  lemma {:induction false} CacheHoldsRecentChunks(size: nat, ops: seq<Op>, stream: string)
    requires Fresh(size, ops)
    ensures Caches(ChunkCacheKey, Run(ChunkCacheKey, size, ops).cache, stream, Recent(size, ops, stream))
  {
    if ops != [] {
      var before := ops[..|ops| - 1];
      assert ops == before + [ops[|ops| - 1]];
      CacheHoldsRecentChunks(size, before, stream);
      ChunkKeysAreInjective();
      StepCaches(ChunkCacheKey, size, before, ops[|ops| - 1], stream);
    }
  }

  // ---------- Reusing a number ----------

  predicate WindowIsCached(key: KeyFn, st: State, stream: string) {
    stream in st.windows &&
    forall i | 0 <= i < |st.windows[stream].seqs| :: key(stream, st.windows[stream].seqs[i]) in st.cache
  }

  /** A completed call keeps the whole window cached if and only if no number it evicts is in the
      window it leaves behind: a number cached again before its first copy has left takes the
      new copy with it. */
  lemma ReuseLosesChunk(key: KeyFn, st: State, size: nat, stream: string, seqNum: int, data: Data)
    requires Injective(key) && WindowIsCached(key, st, stream) && data != []
    requires AllInInt64(st.windows[stream].seqs) && InInt64(seqNum)
    ensures
      var win := st.windows[stream];
      WindowIsCached(key, AfterCache(key, st, size, stream, seqNum, data, false), stream)
      <==> forall n | n in Evicted(win, seqNum) :: n !in Slid(win, seqNum).seqs
  {
    var win := st.windows[stream];
    var out, kept := Evicted(win, seqNum), Slid(win, seqNum).seqs;
    assert AllInInt64(win.seqs + [seqNum]);
    forall j | 0 <= j < |kept|
      ensures key(stream, kept[j]) in KeysOf(key, stream, out) <==> kept[j] in out
      ensures key(stream, kept[j]) in Stored(key, st.cache, stream, seqNum, data)
    {
      assert kept[j] == (win.seqs + [seqNum])[j + |out|];
      if key(stream, kept[j]) in KeysOf(key, stream, out) {
        var i :| 0 <= i < |out| && key(stream, kept[j]) == key(stream, out[i]);
        assert out[i] == (win.seqs + [seqNum])[i];
      }
    }
  }

  /** So caching again the oldest number of a full window removes it from the cache, and keeps it listed. */
  lemma ReusedNumberIsLost(key: KeyFn, st: State, size: nat, stream: string, data: Data)
    requires stream in st.windows && data != []
    requires |st.windows[stream].seqs| == st.windows[stream].maxSize >= 1
    ensures
      var seqNum := st.windows[stream].seqs[0];
      var st' := AfterCache(key, st, size, stream, seqNum, data, false);
      && seqNum in st'.windows[stream].seqs && key(stream, seqNum) !in st'.cache
  {
    var win := st.windows[stream];
    var seqNum := win.seqs[0];
    assert Overflow(win) == 1 && Evicted(win, seqNum) == [seqNum];
    assert Evicted(win, seqNum)[0] == seqNum;
    var kept := Slid(win, seqNum).seqs;
    assert kept[|kept| - 1] == seqNum;
  }
}
