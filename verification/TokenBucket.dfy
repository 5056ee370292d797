/**
 The integer token bucket of the API (rateLimiter.Allow in internal/controlplane/api.go), with
 calls one after another, so that its compare-and-swap succeeds at once. Arithmetic is int64
 and wraps.
 */
module TokenBucket {
  import opened GoText
  import opened Ledgers

  datatype Limiter = Limiter(rate: int, burst: int, tokens: int, lastTime: int)

  // With a negative burst the tokens stay what they were at the start.
  predicate Valid(l: Limiter) {
    && InInt64(l.rate) && InInt64(l.burst) && InInt64(l.lastTime)
    && if l.burst < 0 then l.tokens == l.burst else 0 <= l.tokens <= l.burst
  }

  // elapsed * rl.rate, in token-nanoseconds, as int64 arithmetic yields it.
  function Credit(l: Limiter, now: int): int {
    Wrap64(Wrap64(now - l.lastTime) * l.rate)
  }

  function Refill(l: Limiter, now: int): int {
    QuoTrunc(Credit(l, now), SECOND)
  }

  function Capped(l: Limiter, now: int): int {
    Min(Wrap64(l.tokens + Refill(l, now)), l.burst)
  }

  predicate Admits(l: Limiter, now: int) {
    if Refill(l, now) <= 0 then l.tokens > 0 else Capped(l, now) > 0
  }

  function Next(l: Limiter, now: int): (n: Limiter)
    requires Valid(l) && InInt64(now)
    ensures Valid(n) && n.rate == l.rate && n.burst == l.burst
  {
    if !Admits(l, now) then l
    else if Refill(l, now) <= 0 then l.(tokens := l.tokens - 1)
    else l.(tokens := Capped(l, now) - 1, lastTime := now)
  }

  class RateLimiter {
    const rate: int
    const burst: int
    var tokens: int
    var lastTime: int

    constructor (rate: int, burst: int, now: int)
      requires InInt64(rate) && InInt64(burst) && InInt64(now)
      ensures View() == Limiter(rate, burst, burst, now) && Valid(View())
    {
      this.rate := rate;
      this.burst := burst;
      tokens := burst;
      lastTime := now;
    }

    function View(): Limiter
      reads this
    {
      Limiter(rate, burst, tokens, lastTime)
    }

    method Allow(now: int) returns (allowed: bool)
      requires Valid(View()) && InInt64(now)
      modifies this
      ensures View() == Next(old(View()), now) && Valid(View())
      ensures allowed <==> Admits(old(View()), now)
    {
      var elapsed := Wrap64(now - lastTime);
      var newTokens := QuoTrunc(Wrap64(elapsed * rate), SECOND);
      if newTokens <= 0 {
        if tokens <= 0 {
          return false;
        }
        tokens := tokens - 1;
        return true;
      }
      var nv := Wrap64(tokens + newTokens);
      if nv > burst {
        nv := burst;
      }
      if nv <= 0 {
        return false;
      }
      tokens := nv - 1;
      lastTime := now;
      return true;
    }
  }

  // ---------- Wrap-around ----------

  lemma WrapShift(n: int, k: int)
    ensures Wrap64(n + k * 0x1_0000_0000_0000_0000) == Wrap64(n)
  {
  }

  lemma WrapQuotient(n: int) returns (k: int)
    ensures Wrap64(n) == n + k * 0x1_0000_0000_0000_0000
  {
    k := -((n - INT64_MIN) / 0x1_0000_0000_0000_0000);
  }

  lemma CreditUnwrapped(l: Limiter, now: int)
    ensures Credit(l, now) == Wrap64((now - l.lastTime) * l.rate)
  {
    var k := WrapQuotient(now - l.lastTime);
    WrapShift((now - l.lastTime) * l.rate, k * l.rate);
    assert (now - l.lastTime + k * 0x1_0000_0000_0000_0000) * l.rate
        == (now - l.lastTime) * l.rate + (k * l.rate) * 0x1_0000_0000_0000_0000;
  }

  // Wrapping only ever loses credit.
  lemma WrapGrowth(n: int, d: nat)
    ensures Wrap64(n + d) <= Wrap64(n) + d
  {
    var k := WrapQuotient(n);
    WrapShift(n + d, k);
  }

  lemma Distribute(rate: int, a: int, b: int)
    ensures rate * a + rate * b == rate * (a + b) && (0 <= rate && 0 <= b ==> 0 <= rate * b)
  {
  }

  // The rate as the wrapping multiplication sees it: a negative one acts as a huge one.
  function Speed(l: Limiter): int {
    if l.rate < 0 then l.rate + 0x1_0000_0000_0000_0000 else l.rate
  }

  lemma CreditAtSpeed(l: Limiter, now: int)
    ensures Credit(l, now) == Wrap64(Speed(l) * (now - l.lastTime))
  {
    CreditUnwrapped(l, now);
    SameModulo(l.rate, now - l.lastTime);
  }

  lemma SameModulo(rate: int, x: int)
    ensures Wrap64((rate + 0x1_0000_0000_0000_0000) * x) == Wrap64(x * rate) && rate * x == x * rate
  {
    WrapShift(x * rate, x);
    Expand(rate, 0x1_0000_0000_0000_0000, x);
  }

  lemma Expand(a: int, b: int, x: int)
    ensures (a + b) * x == x * a + x * b
  {
  }

  lemma CreditGrowth(l: Limiter, now: int, later: int)
    requires InInt64(l.rate) && now <= later
    ensures Credit(l, later) <= Credit(l, now) + Speed(l) * (later - now)
  {
    CreditAtSpeed(l, now);
    CreditAtSpeed(l, later);
    Distribute(Speed(l), now - l.lastTime, later - now);
    WrapGrowth(Speed(l) * (now - l.lastTime), Speed(l) * (later - now));
  }

  // ---------- How much a window admits ----------

  // A call as a step of a run; only valid limiters and clock readings matter.
  function Step(l: Limiter, now: int): Limiter {
    if Valid(l) && InInt64(now) then Next(l, now) else l
  }

  function CallOf(l: Limiter, now: int): Call {
    Call(now, Admits(l, now), Purse(Step(l, now), now))
  }

  function After(l: Limiter, times: seq<int>): Limiter {
    StateAfter(Step, l, times)
  }

  function Admitted(l: Limiter, times: seq<int>): nat {
    Count(Calls(CallOf, Step, l, times))
  }

  // Tokens in hand plus usable credit, in token-nanoseconds.
  function Purse(l: Limiter, now: int): int {
    l.tokens * SECOND + Max(Credit(l, now), 0)
  }

  lemma CallSpends(l: Limiter, now: int)
    requires Valid(l) && InInt64(now)
    ensures Admits(l, now) ==> Purse(Next(l, now), now) <= Purse(l, now) - SECOND
    ensures !Admits(l, now) ==> Next(l, now) == l
  {
  }

  lemma PurseGrowth(l: Limiter, now: int, later: int)
    requires InInt64(l.rate) && now <= later
    ensures Purse(l, later) <= Purse(l, now) + Speed(l) * (later - now)
  {
    CreditGrowth(l, now, later);
    Distribute(Speed(l), 0, later - now);
  }

  lemma PurseLater(l: Limiter, now: int, later: int)
    requires Valid(l) && InInt64(later) && now <= later
    ensures (if Admits(l, later) then SECOND else 0) + Purse(Next(l, later), later) <= Purse(l, now) + Speed(l) * (later - now)
  {
    PurseGrowth(l, now, later);
    CallSpends(l, later);
  }

  // An admitted call leaves at most burst - 1 tokens and less than one token of credit.
  lemma AdmittedCallSettles(l: Limiter, now: int)
    requires Valid(l) && InInt64(now)
    ensures Admits(l, now) ==> Purse(Next(l, now), now) < l.burst * SECOND
  {
  }

  /** Short of an overflow of the tokens, a call is admitted exactly when there is a token in hand or
      the credit makes one, and the burst allows one. */
  lemma AdmittedExactly(l: Limiter, now: int)
    requires Valid(l) && InInt64(now) && l.tokens + Refill(l, now) <= INT64_MAX
    ensures Admits(l, now) <==> 1 <= l.burst && (1 <= l.tokens || SECOND <= Credit(l, now))
  {
  }

  /** And it leaves the purse it found less the token it took and less than one token of credit that
      the floor division drops, or all that the burst allows. */
  lemma AdmittedCallKeepsRest(l: Limiter, now: int)
    requires Valid(l) && InInt64(now) && l.tokens + Refill(l, now) <= INT64_MAX && 1 <= l.burst
    ensures Admits(l, now) ==>
              Purse(Next(l, now), now) > Purse(l, now) - 2 * SECOND || Next(l, now).tokens == l.burst - 1
  {
  }

  // The limiters of one run.
  predicate Like(l: Limiter, s: Limiter) {
    Valid(s) && s.rate == l.rate && s.burst == l.burst
  }

  function LikeOf(l: Limiter): Limiter -> bool {
    s => Like(l, s)
  }

  function Accrued(l: Limiter): int -> int {
    now => Speed(l) * now
  }

  lemma CallSettles(l: Limiter, s: Limiter, now: int)
    requires Like(l, s) && InInt64(now)
    ensures Settles(CallOf, Step, Purse, LikeOf(l), l.burst * SECOND, s, now)
  {
    AdmittedCallSettles(s, now);
  }

  lemma CallPays(l: Limiter, s: Limiter, now: int, c: Call)
    requires Like(l, s) && InInt64(now) && c.now <= now && c.purse == Purse(s, c.now)
    ensures Pays(c, CallOf(s, now), SECOND, Accrued(l))
  {
    PurseLater(s, c.now, now);
    Distribute(Speed(l), c.now, now - c.now);
  }

  lemma CallsSettle(l: Limiter)
    ensures AllSettle(CallOf, Step, Purse, LikeOf(l), InInt64, l.burst * SECOND)
  {
    forall s, now | Like(l, s) && InInt64(now)
      ensures Settles(CallOf, Step, Purse, LikeOf(l), l.burst * SECOND, s, now)
    {
      CallSettles(l, s, now);
    }
  }

  lemma CallsPay(l: Limiter)
    ensures AllPay(CallOf, Purse, LikeOf(l), InInt64, SECOND, Accrued(l))
  {
    forall s, now, c: Call | LikeOf(l)(s) && InInt64(now) && c.now <= now && c.purse == Purse(s, c.now)
      ensures Pays(c, CallOf(s, now), SECOND, Accrued(l))
    {
      CallPays(l, s, now, c);
    }
  }

  /** For any clock that does not go back, from any reachable state and whatever overflows, the
      calls admitted stay under burst + 1 plus the rate times the seconds they span, where a negative
      rate counts as what it is modulo 2^64; the purse shows what the floor division can leave over. */
  lemma WindowBound(l: Limiter, times: seq<int>)
    requires Valid(l) && times != [] && Nondecreasing(times)
    requires forall i | 0 <= i < |times| :: InInt64(times[i])
    ensures
      var last := times[|times| - 1];
      Admitted(l, times) > 0 ==>
        Admitted(l, times) * SECOND + Purse(After(l, times), last)
        < (l.burst + 1) * SECOND + Speed(l) * (last - times[0])
  {
    CallsSettle(l);
    CallsPay(l);
    RunIsLedger(CallOf, Step, Purse, LikeOf(l), InInt64, SECOND, l.burst * SECOND, Accrued(l), l, times);
    LedgerBound(Calls(CallOf, Step, l, times), SECOND, l.burst * SECOND, Accrued(l));
    Distribute(Speed(l), times[0], times[|times| - 1] - times[0]);
  }

  // ---------- The bound is reached ----------

  lemma Floor(a: int, b: int)
    requires b > 0
    ensures b * (a / b) <= a < b * (a / b) + b
  {
  }

  lemma Product(a: int, b: int)
    requires 1 <= b
    ensures a <= -1 ==> b * a <= -b
    ensures 1 <= a ==> b <= b * a && a <= b * a
  {
  }

  // The first nanosecond at which a whole token has accrued.
  function FirstToken(rate: int): (t: int)
    requires 1 <= rate <= INT64_MAX
    ensures 1 <= t <= SECOND && rate * (t - 1) < SECOND <= rate * t <= INT64_MAX
  {
    var q := (SECOND - 1) / rate;
    Floor(SECOND - 1, rate);
    Product(q, rate);
    Distribute(rate, q, 1);
    q + 1
  }

  // `burst` calls just before a token has accrued, and one just after.
  function Squeeze(rate: int, burst: nat, n: nat): (times: seq<int>)
    requires 1 <= rate <= INT64_MAX
    ensures |times| == n && forall t | t in times :: InInt64(t)
  {
    var t := FirstToken(rate);
    var times := seq(n, i => if i < burst then t - 1 else t);
    assert forall i | 0 <= i < n :: times[i] == t - 1 || times[i] == t;
    times
  }

  lemma CreditOfNew(rate: int, burst: int, tokens: int, now: int)
    requires 0 <= now <= INT64_MAX && 0 <= rate * now <= INT64_MAX
    ensures Credit(Limiter(rate, burst, tokens, 0), now) == rate * now
  {
    assert now * rate == rate * now;
  }

  // A call before a token has accrued takes one that is there.
  lemma CallBeforeToken(l: Limiter, now: int)
    requires Valid(l) && l.lastTime == 0 && l.tokens > 0 && 0 <= now <= INT64_MAX && 0 <= l.rate * now < SECOND
    ensures Admits(l, now) && Next(l, now) == l.(tokens := l.tokens - 1)
  {
    CreditOfNew(l.rate, l.burst, l.tokens, now);
  }

  // A call after one has accrued is admitted without any.
  lemma CallAfterToken(l: Limiter, now: int)
    requires Valid(l) && l.lastTime == 0 && l.tokens == 0 < l.burst && 0 <= now <= INT64_MAX && SECOND <= l.rate * now <= INT64_MAX
    ensures Admits(l, now)
  {
    CreditOfNew(l.rate, l.burst, l.tokens, now);
  }

  lemma {:induction false} SqueezeDrains(rate: int, burst: nat, n: nat)
    requires 1 <= rate <= INT64_MAX && burst <= INT64_MAX && n <= burst
    ensures
      var l, times := Limiter(rate, burst, burst, 0), Squeeze(rate, burst, n);
      After(l, times) == Limiter(rate, burst, burst - n, 0) && Admitted(l, times) == n
  {
    if n > 0 {
      SqueezeDrains(rate, burst, n - 1);
      var now, l := FirstToken(rate) - 1, Limiter(rate, burst, burst - (n - 1), 0);
      assert Squeeze(rate, burst, n)[..n - 1] == Squeeze(rate, burst, n - 1) && Squeeze(rate, burst, n)[n - 1] == now;
      Distribute(rate, 0, now);
      CallBeforeToken(l, now);
    }
  }

  /** The extra token is real under every positive rate and burst: a new limiter admits burst + 1
      calls within one nanosecond. */
  lemma ExtraTokenIsReached(rate: int, burst: nat)
    requires 1 <= rate <= INT64_MAX && 1 <= burst <= INT64_MAX
    ensures
      var times := Squeeze(rate, burst, burst + 1);
      && Nondecreasing(times) && times[burst] - times[0] == 1
      && Admitted(Limiter(rate, burst, burst, 0), times) == burst + 1
  {
    var times, drained := Squeeze(rate, burst, burst + 1), Limiter(rate, burst, 0, 0);
    SqueezeDrains(rate, burst, burst);
    assert times[..burst] == Squeeze(rate, burst, burst) && times[burst] == FirstToken(rate);
    CallAfterToken(drained, FirstToken(rate));
  }
}
