/**
 Replay protection of the admin API (internal/controlplane/admin_internal.go): a request carries
 a timestamp in seconds and a nonce; it must be within `maxSkew` of the clock and its nonce must
 not be remembered. Times are in nanoseconds.
 */
module AdminNonces {
  import opened GoText

  datatype Config = Config(maxSkew: int, nonceTTL: int, cleanupEvery: int)

  const DEPLOYED: Config := Config(5 * 60 * SECOND, 10 * 60 * SECOND, 60 * SECOND)

  // lastCleanup is None for Go's zero time.
  datatype Memory = Memory(seen: map<string, int>, lastCleanup: Option<int>)

  datatype Request = Request(ts: int, nonce: string, now: int)

  predicate CleanupDue(m: Memory, cfg: Config, now: int) {
    now - (if m.lastCleanup.None? then now else m.lastCleanup.value) >= cfg.cleanupEvery
  }

  function Cleaned(m: Memory, cfg: Config, now: int): Memory {
    if CleanupDue(m, cfg, now) then
      Memory(map k | k in m.seen && m.seen[k] >= now - cfg.nonceTTL :: m.seen[k], Some(now))
    else if m.lastCleanup.None? then m.(lastCleanup := Some(now))
    else m
  }

  predicate InWindow(cfg: Config, r: Request) {
    r.now - cfg.maxSkew <= r.ts * SECOND <= r.now + cfg.maxSkew
  }

  predicate Passes(m: Memory, cfg: Config, r: Request) {
    InWindow(cfg, r) && r.nonce !in Cleaned(m, cfg, r.now).seen
  }

  function Next(m: Memory, cfg: Config, r: Request): Memory {
    if !InWindow(cfg, r) then m
    else
      var c := Cleaned(m, cfg, r.now);
      if r.nonce in c.seen then c else c.(seen := c.seen[r.nonce := r.now])
  }

  class AdminAuth {
    const cfg: Config
    var seenNonces: map<string, int>
    var lastCleanup: Option<int>

    constructor (cfg: Config)
      ensures this.cfg == cfg && View() == Memory(map[], None)
    {
      this.cfg := cfg;
      seenNonces, lastCleanup := map[], None;
    }

    function View(): Memory
      reads this
    {
      Memory(seenNonces, lastCleanup)
    }

    method CheckAndRememberNonce(nonce: string, now: int) returns (ok: bool)
      modifies this
      ensures
        var c := Cleaned(old(View()), cfg, now);
        && (ok <==> nonce !in c.seen)
        && View() == if ok then c.(seen := c.seen[nonce := now]) else c
    {
      if lastCleanup.None? {
        lastCleanup := Some(now);
      }
      if now - lastCleanup.value >= cfg.cleanupEvery {
        var cutoff := now - cfg.nonceTTL;
        var rest := seenNonces.Keys;
        while rest != {}
          invariant rest <= old(seenNonces).Keys && lastCleanup.Some?
          invariant seenNonces == map k | k in old(seenNonces) && (k in rest || old(seenNonces)[k] >= cutoff) :: old(seenNonces)[k]
          decreases |rest|
        {
          var k :| k in rest;
          if seenNonces[k] < cutoff {
            seenNonces := seenNonces - {k};
          }
          rest := rest - {k};
        }
        lastCleanup := Some(now);
      }
      if nonce in seenNonces {
        return false;
      }
      seenNonces := seenNonces[nonce := now];
      return true;
    }

    /** The two checks in the order the middleware makes them. */
    method Admit(r: Request) returns (ok: bool)
      modifies this
      ensures ok <==> Passes(old(View()), cfg, r)
      ensures View() == Next(old(View()), cfg, r)
    {
      if r.ts * SECOND > r.now + cfg.maxSkew || r.ts * SECOND < r.now - cfg.maxSkew {
        return false;
      }
      ok := CheckAndRememberNonce(r.nonce, r.now);
    }
  }

  // ---------- Runs ----------

  function After(cfg: Config, rs: seq<Request>): Memory {
    if rs == [] then Memory(map[], None) else Next(After(cfg, rs[..|rs| - 1]), cfg, rs[|rs| - 1])
  }

  predicate Passed(cfg: Config, rs: seq<Request>, i: nat)
    requires i < |rs|
  {
    Passes(After(cfg, rs[..i]), cfg, rs[i])
  }

  // The clock is read before the lock is taken, so a reading may be older than an earlier one, but
  // by no more than d.
  predicate ClockWithin(rs: seq<Request>, d: nat) {
    forall i, j | 0 <= i < j < |rs| :: rs[i].now <= rs[j].now + d
  }

  // The same signed pair is let in at two places of the run.
  ghost predicate Replayed(cfg: Config, rs: seq<Request>) {
    exists i, j | 0 <= i < j < |rs| ::
      && rs[i].ts == rs[j].ts && rs[i].nonce == rs[j].nonce
      && Passed(cfg, rs, i) && Passed(cfg, rs, j)
  }

  /** A cleanup removes exactly what is older than a TTL, and the next one is due no sooner than
      `cleanupEvery` later. */
  lemma CleanupExactly(m: Memory, cfg: Config, now: int, later: int, nonce: string)
    ensures
      var c := Cleaned(m, cfg, now);
      && (nonce in c.seen <==> nonce in m.seen && !(CleanupDue(m, cfg, now) && m.seen[nonce] < now - cfg.nonceTTL))
      && (nonce in c.seen ==> c.seen[nonce] == m.seen[nonce])
      && (CleanupDue(m, cfg, now) || m.lastCleanup == None ==> (CleanupDue(c, cfg, later) <==> later - now >= cfg.cleanupEvery))
      && (!CleanupDue(m, cfg, now) && m.lastCleanup.Some? ==> c == m)
  {
  }

  // What is remembered passed before.
  lemma {:induction false} RememberedPassed(cfg: Config, rs: seq<Request>, n: nat, nonce: string)
    requires n <= |rs| && nonce in After(cfg, rs[..n]).seen
    ensures exists j | 0 <= j < n :: rs[j].nonce == nonce && Passed(cfg, rs, j)
  {
    assert rs[..n][..n - 1] == rs[..n - 1];
    if nonce in After(cfg, rs[..n - 1]).seen {
      RememberedPassed(cfg, rs, n - 1, nonce);
    } else {
      assert rs[n - 1].nonce == nonce && Passed(cfg, rs, n - 1);
    }
  }

  /** No request is refused without reason: one within the skew passes if its nonce never did. */
  lemma FreshRequestPasses(cfg: Config, rs: seq<Request>, i: nat)
    requires i < |rs| && InWindow(cfg, rs[i])
    requires forall j | 0 <= j < i && rs[j].nonce == rs[i].nonce :: !Passed(cfg, rs, j)
    ensures Passed(cfg, rs, i)
  {
    if rs[i].nonce in After(cfg, rs[..i]).seen {
      RememberedPassed(cfg, rs, i, rs[i].nonce);
    }
  }

  // A nonce that passed is remembered with the time of its passing for as long as no request comes
  // more than a TTL later.
  lemma {:induction false} RememberedForTTL(cfg: Config, rs: seq<Request>, i: nat, n: nat)
    requires i < n <= |rs| && Passed(cfg, rs, i)
    requires forall m | i < m < n :: rs[m].now <= rs[i].now + cfg.nonceTTL
    ensures
      var m := After(cfg, rs[..n]);
      rs[i].nonce in m.seen && m.seen[rs[i].nonce] == rs[i].now
  {
    assert rs[..n][..n - 1] == rs[..n - 1];
    if i < n - 1 {
      RememberedForTTL(cfg, rs, i, n - 1);
    }
  }

  /** Between two passes of one nonce, some request, or the second pass itself, comes more than a
      TTL after the first. */
  lemma PassesAreApart(cfg: Config, rs: seq<Request>, i: nat, j: nat)
    requires i < j < |rs| && rs[i].nonce == rs[j].nonce && Passed(cfg, rs, i) && Passed(cfg, rs, j)
    ensures exists m :: i < m <= j && rs[m].now > rs[i].now + cfg.nonceTTL
  {
    if forall m | i < m <= j :: rs[m].now <= rs[i].now + cfg.nonceTTL {
      RememberedForTTL(cfg, rs, i, j);
    }
  }

  lemma LongMemoryNeverReplays(cfg: Config, rs: seq<Request>, d: nat)
    requires cfg.nonceTTL >= 2 * cfg.maxSkew + d && ClockWithin(rs, d)
    ensures !Replayed(cfg, rs)
  {
    forall i, j | 0 <= i < j < |rs| && rs[i].ts == rs[j].ts && rs[i].nonce == rs[j].nonce
        && Passed(cfg, rs, i) && Passed(cfg, rs, j)
      ensures false
    {
      PassesAreApart(cfg, rs, i, j);
    }
  }

  // With a shorter memory: the nonce passes at the start of its window, a reading that is early by
  // d cleans it away, and it passes again at the end of its window.
  lemma ShortMemoryReplays(cfg: Config, d: nat) returns (rs: seq<Request>)
    requires SECOND <= 2 * cfg.maxSkew && cfg.nonceTTL < 2 * cfg.maxSkew + d
    ensures ClockWithin(rs, d) && Replayed(cfg, rs)
  {
    var first, again, cleaner := Request(0, "n", -cfg.maxSkew), Request(0, "n", cfg.maxSkew), At("x", cfg.maxSkew + d);
    NearestIsInWindow(cfg, "x", cfg.maxSkew + d);
    if cfg.cleanupEvery <= 2 * cfg.maxSkew + d {
      rs := [] + [first, cleaner, again];
      ThreeRequests(cfg, Memory(map[], None), [], first, cleaner, again, rs);
      AlmostInOrder([], first, cleaner, again, d);
    } else {
      // An earlier request times the cleanups so that one falls on the cleaner.
      var now := cfg.maxSkew + d - cfg.cleanupEvery;
      var early := At("e", now);
      NearestIsInWindow(cfg, "e", now);
      FirstRequest(cfg, early);
      rs := [early] + [first, cleaner, again];
      ThreeRequests(cfg, Memory(map["e" := now], Some(now)), [early], first, cleaner, again, rs);
      AlmostInOrder([early], first, cleaner, again, d);
    }
  }

  lemma AlmostInOrder(before: seq<Request>, first: Request, cleaner: Request, again: Request, d: nat)
    requires |before| <= 1 && first.now <= again.now && first.now <= cleaner.now <= again.now + d
    requires before != [] ==> before[0].now <= first.now
    ensures ClockWithin(before + [first, cleaner, again], d)
  {
  }

  lemma FirstRequest(cfg: Config, r: Request)
    requires InWindow(cfg, r) && 0 < cfg.cleanupEvery
    ensures After(cfg, [r]) == Memory(map[r.nonce := r.now], Some(r.now))
  {
    assert [r][..0] == [];
    assert After(cfg, [r]) == Next(Memory(map[], None), cfg, r);
  }

  lemma NearestIsInWindow(cfg: Config, nonce: string, now: int)
    requires SECOND <= 2 * cfg.maxSkew
    ensures InWindow(cfg, At(nonce, now))
  {
  }

  // A request whose timestamp is the second nearest to the clock's reading.
  function At(nonce: string, now: int): Request {
    Request((now + SECOND / 2) / SECOND, nonce, now)
  }

  // A cleanup falls on the second of two requests, and not on the first unless it is the first ever.
  predicate CleansLater(m: Memory, cfg: Config, now: int, later: int) {
    if m.lastCleanup.None? then later - now >= cfg.cleanupEvery
    else now - m.lastCleanup.value < cfg.cleanupEvery <= later - m.lastCleanup.value
  }

  lemma ThreeRequests(cfg: Config, m: Memory, before: seq<Request>, first: Request, cleaner: Request, again: Request, rs: seq<Request>)
    requires m == After(cfg, before) && rs == before + [first, cleaner, again]
    requires first.nonce == again.nonce != cleaner.nonce && first.ts == again.ts && first.nonce !in m.seen
    requires InWindow(cfg, first) && InWindow(cfg, cleaner) && InWindow(cfg, again)
    requires first.now < cleaner.now - cfg.nonceTTL
    requires CleansLater(m, cfg, first.now, cleaner.now)
    ensures Replayed(cfg, rs)
  {
    var k := |before|;
    assert rs[..k] == before && rs[k] == first && rs[k + 1] == cleaner && rs[k + 2] == again;
    assert rs[..k + 1][..k] == before && rs[..k + 2][..k + 1] == rs[..k + 1];
    var m1 := After(cfg, rs[..k + 1]);
    assert m1 == Next(m, cfg, first) && m1.seen[first.nonce] == first.now;
    var m2 := After(cfg, rs[..k + 2]);
    assert m2 == Next(m1, cfg, cleaner) && first.nonce !in m2.seen;
    assert Passed(cfg, rs, k) && Passed(cfg, rs, k + 2);
  }

  /** For clock readings out of order by at most d: no run replays a (timestamp, nonce) pair, if and
      only if the memory lasts at least twice the allowed skew plus d, however often it is cleaned.
      (A skew of half a second and more leaves some timestamp for every clock reading.) */
  lemma NoReplayExactly(cfg: Config, d: nat)
    requires SECOND <= 2 * cfg.maxSkew
    ensures (forall rs | ClockWithin(rs, d) :: !Replayed(cfg, rs)) <==> cfg.nonceTTL >= 2 * cfg.maxSkew + d
  {
    if cfg.nonceTTL >= 2 * cfg.maxSkew + d {
      forall rs: seq<Request> | ClockWithin(rs, d) ensures !Replayed(cfg, rs) {
        LongMemoryNeverReplays(cfg, rs, d);
      }
    } else {
      var rs := ShortMemoryReplays(cfg, d);
    }
  }

  /** The deployed values prevent replays if and only if the readings arrive in order: one
      nanosecond of disorder is too much. */
  lemma DeployedNeedsOrder(d: nat)
    ensures (forall rs | ClockWithin(rs, d) :: !Replayed(DEPLOYED, rs)) <==> d == 0
  {
    NoReplayExactly(DEPLOYED, d);
  }
}
