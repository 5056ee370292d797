/**
 The per-tenant token bucket that runs as a Lua script inside Redis
 (internal/controlplane/tenant_ratelimit.go). Each request rewrites the hash and renews a
 10-second expiry on it. Limits are fixed over a run and the millisecond clock never goes back.
 */
module TenantBucket {
  import opened GoText

  const DEFAULT_REQ_PER_SEC := 100
  const DEFAULT_BURST := 200
  const EXPIRE_MS := 10_000

  datatype Limits = Limits(rate: int, burst: int)

  // The hash: its two fields, and when it was written, from which the expiry counts.
  datatype Hash = Hash(tokens: real, lastRefill: int, written: int)

  function MinReal(a: real, b: real): real { if a <= b then a else b }

  // What the script finds: an expired hash is as good as none. A ttl of None never expires.
  function Found(stored: Option<Hash>, ttl: Option<int>, now: int): Option<Hash> {
    if stored.Some? && ttl.Some? && now - stored.value.written >= ttl.value then None else stored
  }

  function Refilled(found: Option<Hash>, lim: Limits, now: int): Hash {
    var tokens := if found.None? then lim.burst as real else found.value.tokens;
    var last := if found.None? then now else found.value.lastRefill;
    var elapsed := now - last;
    if elapsed > 0 then
      Hash(MinReal(lim.burst as real, tokens + (elapsed * lim.rate) as real / 1000.0), now, now)
    else Hash(tokens, last, now)
  }

  predicate Admits(stored: Option<Hash>, ttl: Option<int>, lim: Limits, now: int) {
    Refilled(Found(stored, ttl, now), lim, now).tokens >= 1.0
  }

  function Next(stored: Option<Hash>, ttl: Option<int>, lim: Limits, now: int): Hash {
    var h := Refilled(Found(stored, ttl, now), lim, now);
    if h.tokens >= 1.0 then h.(tokens := h.tokens - 1.0) else h
  }

  class RedisHash {
    var stored: Option<Hash>

    /** One run of the script. */
    method Allow(lim: Limits, now: int) returns (allowed: bool)
      modifies this
      ensures allowed <==> Admits(old(stored), Some(EXPIRE_MS), lim, now)
      ensures stored == Some(Next(old(stored), Some(EXPIRE_MS), lim, now))
    {
      if stored.Some? && now - stored.value.written >= EXPIRE_MS {
        stored := None;
      }
      var tokens: real, lastRefill: int := lim.burst as real, now;
      if stored.Some? {
        tokens, lastRefill := stored.value.tokens, stored.value.lastRefill;
      }
      var elapsed := now - lastRefill;
      if elapsed > 0 {
        var refill := (elapsed * lim.rate) as real / 1000.0;
        tokens := MinReal(lim.burst as real, tokens + refill);
        lastRefill := now;
      }
      allowed := tokens >= 1.0;
      if allowed {
        tokens := tokens - 1.0;
      }
      stored := Some(Hash(tokens, lastRefill, now));
    }
  }

  // ---------- Runs: one request at each time ----------

  function After(times: seq<int>, ttl: Option<int>, lim: Limits): Option<Hash> {
    if times == [] then None
    else Some(Next(After(times[..|times| - 1], ttl, lim), ttl, lim, times[|times| - 1]))
  }

  // The decision on the last request.
  predicate Decision(times: seq<int>, ttl: Option<int>, lim: Limits)
    requires times != []
  {
    Admits(After(times[..|times| - 1], ttl, lim), ttl, lim, times[|times| - 1])
  }

  // How many of the requests from index `from` on are admitted.
  function Admitted(times: seq<int>, ttl: Option<int>, lim: Limits, from: nat): nat {
    if |times| <= from then 0
    else Admitted(times[..|times| - 1], ttl, lim, from) + Spent(Decision(times, ttl, lim))
  }

  lemma {:induction false} AfterRun(times: seq<int>, ttl: Option<int>, lim: Limits)
    requires Nondecreasing(times) && times != []
    ensures
      var h := After(times, ttl, lim).value;
      && h.lastRefill == h.written == times[|times| - 1]
      && h.tokens <= lim.burst as real
  {
    if |times| > 1 {
      AfterRun(times[..|times| - 1], ttl, lim);
    }
  }

  // ---------- How much a window admits ----------

  function Positive(n: int): real { if n > 0 then n as real else 0.0 }

  function PositiveReal(x: real): real { if x > 0.0 then x else 0.0 }

  // The most that `elapsed` milliseconds can refill.
  function Accrued(rate: int, elapsed: int): real {
    Positive(rate) * elapsed as real / 1000.0
  }

  lemma AccruedAdds(rate: int, a: int, b: int)
    ensures Accrued(rate, a) + Accrued(rate, b) == Accrued(rate, a + b)
  {
    var r := Positive(rate);
    assert r * a as real + r * b as real == r * (a + b) as real by {
      assert a as real + b as real == (a + b) as real;
    }
  }

  lemma RefillBound(rate: int, elapsed: int)
    requires 0 <= elapsed
    ensures (elapsed * rate) as real / 1000.0 <= Accrued(rate, elapsed)
  {
    if rate > 0 {
      assert (elapsed * rate) as real == rate as real * elapsed as real;
    } else {
      assert elapsed * rate <= 0;
    }
  }

  function Spent(admits: bool): nat { if admits then 1 else 0 }

  // What one more request can add to admissions plus tokens in hand.
  lemma RequestSpends(h: Hash, lim: Limits, now: int)
    requires h.lastRefill <= now
    ensures
      Spent(Admits(Some(h), None, lim, now)) as real + PositiveReal(Next(Some(h), None, lim, now).tokens)
      <= PositiveReal(h.tokens) + Accrued(lim.rate, now - h.lastRefill)
  {
    RefillBound(lim.rate, now - h.lastRefill);
  }

  lemma FirstRequestSpends(stored: Option<Hash>, lim: Limits, now: int)
    requires stored.Some? ==> stored.value.tokens <= lim.burst as real
    ensures
      Spent(Admits(stored, None, lim, now)) as real + PositiveReal(Next(stored, None, lim, now).tokens)
      <= Positive(lim.burst)
  {
  }

  /** While nothing expires, the requests from any index on are admitted at most burst times plus
      rate times the seconds since the first of them. */
  lemma {:induction false} WindowBound(times: seq<int>, lim: Limits, from: nat)
    requires Nondecreasing(times) && from < |times|
    ensures
      Admitted(times, None, lim, from) as real + PositiveReal(After(times, None, lim).value.tokens)
      <= Positive(lim.burst) + Accrued(lim.rate, times[|times| - 1] - times[from])
  {
    var before, now := times[..|times| - 1], times[|times| - 1];
    var stored := After(before, None, lim);
    if before != [] {
      AfterRun(before, None, lim);
    }
    if from == |times| - 1 {
      assert Admitted(before, None, lim, from) == 0;
      FirstRequestSpends(stored, lim, now);
    } else {
      WindowBound(before, lim, from);
      RequestSpends(stored.value, lim, now);
      AccruedAdds(lim.rate, stored.value.lastRefill - times[from], now - stored.value.lastRefill);
    }
  }

  // The level that the last request left, with what accrued since.
  function Level(h: Hash, lim: Limits, now: int): real {
    h.tokens + ((now - h.lastRefill) * lim.rate) as real / 1000.0
  }

  lemma LevelFound(h: Hash, lim: Limits, now: int)
    requires h.lastRefill <= now && h.tokens <= lim.burst as real
    ensures Admits(Some(h), None, lim, now) <==> Level(h, lim, now) >= 1.0 && 1 <= lim.burst
    ensures Next(Some(h), None, lim, now).tokens
            == MinReal(lim.burst as real, Level(h, lim, now)) - Spent(Admits(Some(h), None, lim, now)) as real
  {
    if now == h.lastRefill {
      assert (now - h.lastRefill) * lim.rate == 0;
    }
  }

  lemma OneMoreRequest(times: seq<int>, lim: Limits, now: int)
    ensures After(times + [now], None, lim) == Some(Next(After(times, None, lim), None, lim, now))
    ensures Decision(times + [now], None, lim) <==> Admits(After(times, None, lim), None, lim, now)
  {
    assert (times + [now])[..|times|] == times;
  }

  lemma BeforeLast(times: seq<int>, now: int)
    requires Nondecreasing(times + [now]) && times != []
    ensures Nondecreasing(times) && times[|times| - 1] <= now
  {
    var all := times + [now];
    assert all[|times|] == now && forall i | 0 <= i < |times| :: times[i] == all[i];
  }

  /** Nothing is forgotten: after any run, a request is admitted exactly when the level that the last
      one left, with what accrued since, makes a whole token, and the burst allows one; and it leaves
      that level, cut to the burst, less the token it took. */
  lemma AdmittedExactly(times: seq<int>, lim: Limits, now: int)
    requires Nondecreasing(times + [now]) && times != []
    ensures
      var h := After(times, None, lim).value;
      && h.lastRefill == times[|times| - 1]
      && (Decision(times + [now], None, lim) <==> Level(h, lim, now) >= 1.0 && 1 <= lim.burst)
      && After(times + [now], None, lim).value.tokens
         == MinReal(lim.burst as real, Level(h, lim, now)) - Spent(Decision(times + [now], None, lim)) as real
  {
    BeforeLast(times, now);
    AfterRun(times, None, lim);
    OneMoreRequest(times, lim, now);
    LevelFound(After(times, None, lim).value, lim, now);
  }

  /** The first request meets a full bucket. */
  lemma FirstIsAdmittedExactly(lim: Limits, now: int, ttl: Option<int>)
    ensures Decision([now], ttl, lim) <==> 1 <= lim.burst
  {
    assert [now][..0] == [];
  }

  // ---------- When the expiry is invisible ----------

  // A full period refills the whole burst, or there is never a whole token.
  predicate RefillsWithin(ttl: int, lim: Limits) {
    lim.burst < 1 || lim.burst * 1000 <= ttl * lim.rate
  }

  lemma {:induction false} TokensNeverNegative(times: seq<int>, lim: Limits)
    requires Nondecreasing(times) && times != [] && 0 <= lim.rate && 0 <= lim.burst
    ensures After(times, None, lim).value.tokens >= 0.0
  {
    if |times| > 1 {
      TokensNeverNegative(times[..|times| - 1], lim);
      AfterRun(times[..|times| - 1], None, lim);
      RequestLeavesNoDebt(After(times[..|times| - 1], None, lim).value, lim, times[|times| - 1]);
    }
  }

  lemma RequestLeavesNoDebt(h: Hash, lim: Limits, now: int)
    requires h.tokens >= 0.0 && h.lastRefill <= now && 0 <= lim.rate && 0 <= lim.burst
    ensures Next(Some(h), None, lim, now).tokens >= 0.0
  {
    assert (now - h.lastRefill) * lim.rate >= 0;
  }

  lemma LateRefillIsFull(h: Hash, ttl: int, lim: Limits, now: int)
    requires 0 < ttl && h.tokens >= 0.0 && now - h.lastRefill >= ttl
    requires 0 <= lim.rate && lim.burst * 1000 <= ttl * lim.rate
    ensures Refilled(Some(h), lim, now) == Hash(lim.burst as real, now, now)
  {
    assert (now - h.lastRefill) * lim.rate >= ttl * lim.rate;
  }

  lemma {:induction false} ExpiryChangesNothing(times: seq<int>, ttl: int, lim: Limits)
    requires Nondecreasing(times) && 0 < ttl && 1 <= lim.burst && lim.burst * 1000 <= ttl * lim.rate
    ensures After(times, Some(ttl), lim) == After(times, None, lim)
    ensures times != [] ==> (Decision(times, Some(ttl), lim) <==> Decision(times, None, lim))
  {
    if times != [] {
      var before, now := times[..|times| - 1], times[|times| - 1];
      ExpiryChangesNothing(before, ttl, lim);
      if before != [] {
        assert 0 < lim.rate by { assert 0 < ttl * lim.rate; }
        AfterRun(before, None, lim);
        TokensNeverNegative(before, lim);
        var h := After(before, None, lim).value;
        if now - h.written >= ttl {
          LateRefillIsFull(h, ttl, lim, now);
        }
      }
    }
  }

  lemma {:induction false} NoWholeToken(times: seq<int>, ttl: Option<int>, lim: Limits)
    requires Nondecreasing(times) && times != [] && lim.burst < 1
    ensures !Decision(times, ttl, lim)
  {
    if |times| > 1 {
      AfterRun(times[..|times| - 1], ttl, lim);
    }
  }

  // `burst` requests at time zero, then n at time `late`.
  function TwoBursts(burst: nat, late: int, n: nat): (times: seq<int>)
    ensures |times| == burst + n
  {
    seq(burst + n, i => if i < burst then 0 else late)
  }

  lemma {:induction false} FirstBurstDrains(burst: nat, late: int, n: nat, ttl: Option<int>, rate: int)
    requires n <= burst && (ttl.Some? ==> 0 < ttl.value)
    ensures n == 0 ==> After(TwoBursts(burst, late, 0)[..n], ttl, Limits(rate, burst)) == None
    ensures n > 0 ==> After(TwoBursts(burst, late, 0)[..n], ttl, Limits(rate, burst))
                      == Some(Hash((burst - n) as real, 0, 0))
  {
    if n > 0 {
      FirstBurstDrains(burst, late, n - 1, ttl, rate);
      var times := TwoBursts(burst, late, 0)[..n];
      assert times[..n - 1] == TwoBursts(burst, late, 0)[..n - 1];
      assert times[n - 1] == 0;
    }
  }

  // The second burst meets a full bucket when the key has expired, else what was refilled.
  function LateLevel(burst: nat, late: int, ttl: Option<int>, rate: int): real {
    if ttl.Some? then burst as real else (late * rate) as real / 1000.0
  }

  lemma {:induction false} SecondBurst(burst: nat, late: int, n: nat, ttl: Option<int>, rate: int)
    requires 1 <= burst && 0 < late && (ttl.Some? ==> ttl.value == late)
    requires LateLevel(burst, late, ttl, rate) <= burst as real
    requires n == 0 || n as real <= LateLevel(burst, late, ttl, rate)
    ensures Refilled(Found(After(TwoBursts(burst, late, n), ttl, Limits(rate, burst)), ttl, late), Limits(rate, burst), late)
            == Hash(LateLevel(burst, late, ttl, rate) - n as real, late, late)
  {
    var lim, times := Limits(rate, burst), TwoBursts(burst, late, n);
    if n == 0 {
      FirstBurstDrains(burst, late, burst, ttl, rate);
      assert times[..burst] == times;
      DrainedThenLate(burst, late, ttl, rate);
    } else {
      SecondBurst(burst, late, n - 1, ttl, rate);
      assert times[..|times| - 1] == TwoBursts(burst, late, n - 1) && times[|times| - 1] == late;
    }
  }

  lemma DrainedThenLate(burst: nat, late: int, ttl: Option<int>, rate: int)
    requires 0 < late && (ttl.Some? ==> ttl.value == late)
    requires LateLevel(burst, late, ttl, rate) <= burst as real
    ensures Refilled(Found(Some(Hash(0.0, 0, 0)), ttl, late), Limits(rate, burst), late)
            == Hash(LateLevel(burst, late, ttl, rate), late, late)
  {
  }

  lemma LateDecision(burst: nat, late: int, n: nat, ttl: Option<int>, rate: int)
    requires 1 <= burst && 0 < late && (ttl.Some? ==> ttl.value == late)
    requires LateLevel(burst, late, ttl, rate) <= burst as real
    requires n == 0 || n as real <= LateLevel(burst, late, ttl, rate)
    ensures Decision(TwoBursts(burst, late, n + 1), ttl, Limits(rate, burst))
            <==> LateLevel(burst, late, ttl, rate) - n as real >= 1.0
  {
    SecondBurst(burst, late, n, ttl, rate);
    var next := TwoBursts(burst, late, n + 1);
    assert next[..|next| - 1] == TwoBursts(burst, late, n) && next[|next| - 1] == late;
  }

  lemma ExpiryShows(ttl: int, lim: Limits) returns (times: seq<int>)
    requires 0 < ttl && !RefillsWithin(ttl, lim)
    ensures Nondecreasing(times) && times != []
    ensures Decision(times, Some(ttl), lim) && !Decision(times, None, lim)
  {
    var n := WholeTokens(lim.burst, ttl, lim.rate);
    times := TwoBursts(lim.burst, ttl, n + 1);
    LateDecision(lim.burst, ttl, n, Some(ttl), lim.rate);
    LateDecision(lim.burst, ttl, n, None, lim.rate);
  }

  // The whole tokens a period refills, when that is less than the burst.
  lemma WholeTokens(burst: nat, ttl: int, rate: int) returns (n: nat)
    requires 1 <= burst && burst * 1000 > ttl * rate
    ensures
      var level := LateLevel(burst, ttl, None, rate);
      && level <= burst as real && (n == 0 || n as real <= level)
      && level - n as real < 1.0 <= burst as real - n as real
  {
    var level := LateLevel(burst, ttl, None, rate);
    n := if level < 0.0 then 0 else level.Floor;
    assert level < burst as real;
  }

  /** The bucket with the expiry makes the same decision on every request of every run as one
      that never expires, if and only if the burst is refilled within the period (or is empty). */
  lemma ExpiryInvisibleExactly(ttl: int, lim: Limits)
    requires 0 < ttl
    ensures (forall times | Nondecreasing(times) && times != [] ::
               Decision(times, Some(ttl), lim) <==> Decision(times, None, lim))
            <==> RefillsWithin(ttl, lim)
  {
    if RefillsWithin(ttl, lim) {
      forall times | Nondecreasing(times) && times != []
        ensures Decision(times, Some(ttl), lim) <==> Decision(times, None, lim)
      {
        if lim.burst < 1 {
          NoWholeToken(times, Some(ttl), lim);
          NoWholeToken(times, None, lim);
        } else {
          ExpiryChangesNothing(times, ttl, lim);
        }
      }
    } else {
      var times := ExpiryShows(ttl, lim);
    }
  }

  lemma {:induction false} AdmitsAlike(times: seq<int>, ttl: int, lim: Limits, from: nat)
    requires Nondecreasing(times) && 0 < ttl && RefillsWithin(ttl, lim)
    ensures Admitted(times, Some(ttl), lim, from) == Admitted(times, None, lim, from)
  {
    if |times| > from {
      AdmitsAlike(times[..|times| - 1], ttl, lim, from);
      ExpiryInvisibleExactly(ttl, lim);
    }
  }

  /** So the bound on a window holds of the script as it is, expiry included; the default limits
      meet the condition. */
  lemma DefaultWindowBound(times: seq<int>, from: nat)
    requires Nondecreasing(times) && from < |times|
    ensures
      var lim := Limits(DEFAULT_REQ_PER_SEC, DEFAULT_BURST);
      Admitted(times, Some(EXPIRE_MS), lim, from) as real
      <= 200.0 + 100.0 * (times[|times| - 1] - times[from]) as real / 1000.0
  {
    var lim := Limits(DEFAULT_REQ_PER_SEC, DEFAULT_BURST);
    WindowBound(times, lim, from);
    AdmitsAlike(times, EXPIRE_MS, lim, from);
  }
}
