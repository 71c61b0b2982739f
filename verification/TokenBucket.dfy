/** The per-key token bucket limiter of ingestor/rate_limiting_advanced.py.

    The limiter keeps one pair (tokens, last refill) per key and refills it lazily. The
    specification below keeps every call ever made instead, and knows nothing of pairs:
    a request is admitted when no suffix of the history, taken together with it, would
    spend more than the capacity plus what was refilled since that suffix began. */
module TokenBucket {

  datatype Config = Config(capacity: int, refillPerSecond: real)

  /** The stored pair: tokens held at the instant of the last refill. */
  datatype Bucket = Bucket(tokens: real, lastRefill: real)

  /** One call of Consume on a key, as it happened. */
  datatype Call = Call(time: real, tokens: int, granted: bool)

  datatype Wait = Seconds(value: real) | DivisionByZero

  function Min(x: real, y: real): real {
    if x <= y then x else y
  }

  function Max(x: real, y: real): real {
    if x <= y then y else x
  }

  function Spent(c: Call): real {
    if c.granted then c.tokens as real else 0.0
  }

  /** Tokens refilled between two instants, ignoring the cap. */
  function Refill(cfg: Config, since: real, now: real): real {
    cfg.refillPerSecond * (now - since)
  }

  /** Nothing in no time, and the rate for every further second. */
  lemma RefillIsSteady(cfg: Config, since: real, now: real, seconds: nat)
    ensures Refill(cfg, since, since) == 0.0
    ensures Refill(cfg, since, now + seconds as real) == Refill(cfg, since, now) + cfg.refillPerSecond * seconds as real
  {
    var d, n := now - since, seconds as real;
    assert now + n - since == d + n;
    assert cfg.refillPerSecond * (d + n) == cfg.refillPerSecond * d + cfg.refillPerSecond * n;
  }

  lemma RefillAdds(cfg: Config, since: real, mid: real, now: real)
    ensures Refill(cfg, since, mid) + Refill(cfg, mid, now) == Refill(cfg, since, now)
  {
  }

  lemma RefillGrows(cfg: Config, since: real, mid: real, now: real)
    requires cfg.refillPerSecond >= 0.0 && mid <= now
    ensures Refill(cfg, since, mid) <= Refill(cfg, since, now)
  {
    assert cfg.refillPerSecond * (now - mid) >= 0.0;
    RefillAdds(cfg, since, mid, now);
  }

  /** Tokens granted by the calls h[i..]. */
  function GrantedFrom(h: seq<Call>, i: nat): real
    requires i <= |h|
    decreases |h|
  {
    if i == |h| then 0.0 else GrantedFrom(h[..|h| - 1], i) + Spent(h[|h| - 1])
  }

  /** What may still be spent at `now` without overspending the stretch that began with h[i]. */
  function Headroom(cfg: Config, h: seq<Call>, i: nat, now: real): real
    requires i < |h|
  {
    cfg.capacity as real + Refill(cfg, h[i].time, now) - GrantedFrom(h, i)
  }

  /** The full-history specification of admission. */
  ghost predicate Admits(cfg: Config, h: seq<Call>, now: real, tokens: int) {
    && tokens <= cfg.capacity
    && forall i | 0 <= i < |h| :: tokens as real <= Headroom(cfg, h, i, now)
  }

  /** Every recorded decision is the one the full-history specification makes. */
  ghost predicate Honest(cfg: Config, h: seq<Call>) {
    forall k | 0 <= k < |h| :: h[k].granted <==> Admits(cfg, h[..k], h[k].time, h[k].tokens)
  }

  ghost predicate Ordered(h: seq<Call>) {
    forall i, j | 0 <= i <= j < |h| :: h[i].time <= h[j].time
  }

  /** Lazy refill of a stored pair. */
  function Refilled(cfg: Config, b: Bucket, now: real): real {
    Min(cfg.capacity as real, b.tokens + Refill(cfg, b.lastRefill, now))
  }

  /** The pair stored after the calls h, and the level it shows at `now`. */
  function Stored(cfg: Config, h: seq<Call>): Bucket
    requires h != []
    decreases |h|, 0
  {
    var last := h[|h| - 1];
    Bucket(Level(cfg, h[..|h| - 1], last.time) - Spent(last), last.time)
  }

  function Level(cfg: Config, h: seq<Call>, now: real): real
    decreases |h|, 1
  {
    if h == [] then cfg.capacity as real else Refilled(cfg, Stored(cfg, h), now)
  }

  // ------------------------------------------------------------- the stored pair is exact

  lemma HeadroomOfLast(cfg: Config, h: seq<Call>, now: real)
    requires h != []
    ensures Headroom(cfg, h, |h| - 1, now)
         == cfg.capacity as real + Refill(cfg, h[|h| - 1].time, now) - Spent(h[|h| - 1])
  {
    assert GrantedFrom(h[..|h| - 1], |h| - 1) == 0.0;
  }

  lemma HeadroomStep(cfg: Config, h: seq<Call>, i: nat, now: real)
    requires i < |h| - 1
    ensures Headroom(cfg, h, i, now)
         == Headroom(cfg, h[..|h| - 1], i, h[|h| - 1].time) - Spent(h[|h| - 1])
            + Refill(cfg, h[|h| - 1].time, now)
  {
    RefillAdds(cfg, h[i].time, h[|h| - 1].time, now);
  }

  /** The lazily refilled level is the least headroom over all suffixes of the history, for
      any capacity, any refill rate and any clock. */
  lemma {:induction false} LevelIsLeastHeadroom(cfg: Config, h: seq<Call>, now: real)
    ensures Level(cfg, h, now) <= cfg.capacity as real
    ensures forall i | 0 <= i < |h| :: Level(cfg, h, now) <= Headroom(cfg, h, i, now)
    ensures || Level(cfg, h, now) == cfg.capacity as real
            || exists i :: 0 <= i < |h| && Level(cfg, h, now) == Headroom(cfg, h, i, now)
    decreases |h|
  {
    if h != [] {
      var n := |h| - 1;
      var pre, last := h[..n], h[n];
      LevelIsLeastHeadroom(cfg, pre, last.time);
      HeadroomOfLast(cfg, h, now);
      assert Level(cfg, h, now) <= Stored(cfg, h).tokens + Refill(cfg, last.time, now);
      forall i | 0 <= i < |h|
        ensures Level(cfg, h, now) <= Headroom(cfg, h, i, now)
      {
        if i < n {
          assert Level(cfg, pre, last.time) <= Headroom(cfg, pre, i, last.time);
          HeadroomStep(cfg, h, i, now);
        }
      }
      if Level(cfg, h, now) != cfg.capacity as real {
        if Level(cfg, pre, last.time) == cfg.capacity as real {
          assert Level(cfg, h, now) == Headroom(cfg, h, n, now);
        } else {
          var i :| 0 <= i < n && Level(cfg, pre, last.time) == Headroom(cfg, pre, i, last.time);
          HeadroomStep(cfg, h, i, now);
        }
      }
    }
  }

  /** Comparing with the stored pair decides exactly like the full-history specification. */
  lemma PairDecidesLikeHistory(cfg: Config, h: seq<Call>, now: real, tokens: int)
    ensures tokens as real <= Level(cfg, h, now) <==> Admits(cfg, h, now, tokens)
  {
    LevelIsLeastHeadroom(cfg, h, now);
  }

  // ------------------------------------------------------------- bound on every interval

  lemma GrantFits(cfg: Config, h: seq<Call>, c: Call, i: nat)
    requires Admits(cfg, h, c.time, c.tokens) && c.granted && i <= |h|
    ensures i < |h| ==> Spent(c) <= Headroom(cfg, h, i, c.time)
    ensures i == |h| ==> GrantedFrom(h, i) + Spent(c) <= cfg.capacity as real
  {
  }

  lemma {:induction false} GrantsBounded(cfg: Config, h: seq<Call>, i: nat, j: nat)
    requires cfg.refillPerSecond >= 0.0
    requires Honest(cfg, h) && Ordered(h)
    requires i <= j < |h|
    ensures GrantedFrom(h[..j + 1], i)
         <= Max(cfg.capacity as real, 0.0) + Refill(cfg, h[i].time, h[j].time)
    decreases j
  {
    var upTo, before := h[..j + 1], h[..j];
    assert upTo[..j] == before && upTo[j] == h[j];
    assert GrantedFrom(upTo, i) == GrantedFrom(before, i) + Spent(h[j]);
    RefillGrows(cfg, h[i].time, h[i].time, h[j].time);
    if h[j].granted {
      GrantFits(cfg, before, h[j], i);
    } else if i < j {
      GrantsBounded(cfg, h, i, j - 1);
      RefillGrows(cfg, h[i].time, h[j - 1].time, h[j].time);
    }
  }

  /** The sum of the tokens of the granted calls. */
  function TokensGranted(h: seq<Call>): int {
    if h == [] then 0 else (if h[0].granted then h[0].tokens else 0) + TokensGranted(h[1..])
  }

  lemma {:induction false} TokensGrantedTogether(h: seq<Call>, c: Call)
    ensures TokensGranted(h + [c]) == TokensGranted(h) + if c.granted then c.tokens else 0
    decreases |h|
  {
    if h == [] {
      assert [c][1..] == [] && h + [c] == [c];
    } else {
      assert (h + [c])[1..] == h[1..] + [c];
      TokensGrantedTogether(h[1..], c);
    }
  }

  lemma {:induction false} GrantedFromIsSum(h: seq<Call>, i: nat)
    requires i <= |h|
    ensures GrantedFrom(h, i) == TokensGranted(h[i..]) as real
    decreases |h|
  {
    if i < |h| {
      var n := |h| - 1;
      GrantedFromIsSum(h[..n], i);
      assert h[i..] == h[..n][i..] + [h[n]];
      TokensGrantedTogether(h[..n][i..], h[n]);
    }
  }

  /** From the call at position i through the call at position j the limiter grants at most
      the capacity plus the refill of the time between them. */
  lemma IntervalBound(cfg: Config, h: seq<Call>, i: nat, j: nat)
    requires cfg.refillPerSecond >= 0.0
    requires Honest(cfg, h) && Ordered(h)
    requires i <= j < |h|
    ensures TokensGranted(h[i..j + 1]) as real
         <= (if cfg.capacity >= 0 then cfg.capacity as real else 0.0) + Refill(cfg, h[i].time, h[j].time)
  {
    GrantsBounded(cfg, h, i, j);
    GrantedFromIsSum(h[..j + 1], i);
    assert h[..j + 1][i..] == h[i..j + 1];
  }

  // ------------------------------------------------------------- denied calls leave no trace

  function Grants(h: seq<Call>): seq<Call> {
    if h == [] then []
    else if h[|h| - 1].granted then Grants(h[..|h| - 1]) + [h[|h| - 1]]
    else Grants(h[..|h| - 1])
  }

  /** Refilling in two steps is refilling in one. */
  lemma RefillComposes(cfg: Config, h: seq<Call>, mid: real, now: real)
    requires cfg.refillPerSecond >= 0.0 && mid <= now
    requires h != [] ==> h[|h| - 1].time <= mid
    ensures Level(cfg, h, now) == Refilled(cfg, Bucket(Level(cfg, h, mid), mid), now)
  {
    RefillGrows(cfg, mid, mid, now);
    if h != [] {
      RefillAdds(cfg, h[|h| - 1].time, mid, now);
    }
  }

  /** A denied call rewrites the stored pair, yet no later level and so no later decision
      depends on it: the whole history may be replaced by its granted calls. */
  lemma {:induction false} DenialsLeaveNoTrace(cfg: Config, h: seq<Call>, now: real)
    requires cfg.refillPerSecond >= 0.0 && Ordered(h)
    requires h != [] ==> h[|h| - 1].time <= now
    ensures Level(cfg, h, now) == Level(cfg, Grants(h), now)
    ensures forall tokens :: Admits(cfg, h, now, tokens) <==> Admits(cfg, Grants(h), now, tokens)
    decreases |h|
  {
    if h != [] {
      var pre, last := h[..|h| - 1], h[|h| - 1];
      if last.granted {
        DenialsLeaveNoTrace(cfg, pre, last.time);
        var g := Grants(h);
        assert g[..|g| - 1] == Grants(pre) && g[|g| - 1] == last;
      } else {
        DenialsLeaveNoTrace(cfg, pre, now);
        RefillComposes(cfg, pre, last.time, now);
      }
    }
    forall tokens: int
      ensures Admits(cfg, h, now, tokens) <==> Admits(cfg, Grants(h), now, tokens)
    {
      PairDecidesLikeHistory(cfg, h, now, tokens);
      PairDecidesLikeHistory(cfg, Grants(h), now, tokens);
    }
  }

  // ------------------------------------------------------------- retry times

  /** base + offset clamped to zero; the offset drawn from [min, max] is an input. */
  function ApplyJitter(base: real, offset: real): real {
    Max(0.0, base + offset)
  }

  /** The wait before jitter: time until the level reaches one token. */
  function BaseWait(cfg: Config, level: real): real
    requires cfg.refillPerSecond != 0.0
  {
    if 1.0 - level <= 0.0 then 0.0 else (1.0 - level) / cfg.refillPerSecond
  }

  lemma QuotientOrder(rate: real, need: real, d: real)
    requires rate > 0.0
    ensures rate * d >= need <==> d >= need / rate
  {
    var q := need / rate;
    assert rate * q == need;
    assert rate * (d - q) == rate * d - need;
    SignOfProduct(rate, d - q);
  }

  lemma SignOfProduct(rate: real, x: real)
    requires rate > 0.0
    ensures rate * x >= 0.0 <==> x >= 0.0
  {
    if x < 0.0 { assert rate * -x > 0.0; }
  }

  lemma WaitReachesOne(cfg: Config, level: real, now: real, later: real)
    requires cfg.refillPerSecond > 0.0 && now <= later
    ensures level + Refill(cfg, now, later) >= 1.0 <==> later - now >= BaseWait(cfg, level)
  {
    SignOfProduct(cfg.refillPerSecond, later - now);
    QuotientOrder(cfg.refillPerSecond, 1.0 - level, later - now);
  }

  /** With nothing else using the key, one token is granted at `later` exactly when the
      wait since `now` is at least the base wait (and the bucket can hold a token at all). */
  lemma RetryExact(cfg: Config, h: seq<Call>, now: real, later: real)
    requires cfg.refillPerSecond > 0.0 && now <= later
    requires h != [] ==> h[|h| - 1].time <= now
    ensures Admits(cfg, h, later, 1)
       <==> cfg.capacity >= 1 && later - now >= BaseWait(cfg, Level(cfg, h, now))
  {
    PairDecidesLikeHistory(cfg, h, later, 1);
    LevelIsLeastHeadroom(cfg, h, now);
    RefillComposes(cfg, h, now, later);
    WaitReachesOne(cfg, Level(cfg, h, now), now, later);
  }

  /** After a denial, waiting for the jittered answer is enough exactly when the random
      offset was not negative. */
  lemma JitteredRetry(cfg: Config, h: seq<Call>, now: real, offset: real)
    requires cfg.refillPerSecond > 0.0 && cfg.capacity >= 1
    requires h != [] ==> h[|h| - 1].time <= now
    requires !Admits(cfg, h, now, 1)
    ensures Admits(cfg, h, now + ApplyJitter(BaseWait(cfg, Level(cfg, h, now)), offset), 1)
       <==> offset >= 0.0
  {
    var base := BaseWait(cfg, Level(cfg, h, now));
    RetryExact(cfg, h, now, now);
    RetryExact(cfg, h, now, now + ApplyJitter(base, offset));
  }

  /** The Retry-After header that the route sends for an answer of x seconds, x >= 0. */
  function Header(x: real): int {
    x.Floor + 1
  }

  /** The jittered header falls short of the wait it stands for exactly when the wait is longer
      than a second and the offset, being negative, takes it down to an earlier second; in
      particular whenever the offset is below -1. */
  lemma HeaderFallsShort(base: real, offset: real)
    requires base >= 0.0
    ensures Header(ApplyJitter(base, offset)) as real < base
       <==> base > 1.0 && offset < 0.0 && (base + offset).Floor + 1 < CeilingOf(base)
    ensures base > 1.0 && offset < -1.0 ==> Header(ApplyJitter(base, offset)) as real < base
    ensures base <= 1.0 || offset >= 0.0 ==> Header(ApplyJitter(base, offset)) as real >= base
  {
    var x := ApplyJitter(base, offset);
    assert x.Floor as real <= x < (x.Floor + 1) as real;
    assert (base + offset).Floor as real <= base + offset < ((base + offset).Floor + 1) as real;
    assert base + offset >= 0.0 ==> x == base + offset;
    assert base + offset < 0.0 ==> x == 0.0 && x.Floor == 0;
  }

  /** The least integer that is not below x. */
  function CeilingOf(x: real): (n: int)
    ensures x <= n as real < x + 1.0
  {
    -((-x).Floor)
  }

  /** A client that waits for its Retry-After and tries once more is granted a token exactly
      when the header reaches the wait before jitter. */
  lemma RetryAfterExact(cfg: Config, h: seq<Call>, now: real, offset: real)
    requires cfg.refillPerSecond > 0.0 && cfg.capacity >= 1
    requires h != [] ==> h[|h| - 1].time <= now
    ensures var base := BaseWait(cfg, Level(cfg, h, now));
            var header := Header(ApplyJitter(base, offset)) as real;
            && Admits(cfg, h, now + header, 1) == (header >= base)
            && Admits(cfg, h, now + header, 1)
               == !(base > 1.0 && offset < 0.0 && (base + offset).Floor + 1 < CeilingOf(base))
  {
    var base := BaseWait(cfg, Level(cfg, h, now));
    var header := Header(ApplyJitter(base, offset)) as real;
    RetryExact(cfg, h, now, now + header);
    HeaderFallsShort(base, offset);
  }

  /** So the header is always long enough when the offset is not negative or the wait is at
      most a second. */
  lemma RetryAfterSuffices(cfg: Config, h: seq<Call>, now: real, offset: real)
    requires cfg.refillPerSecond > 0.0 && cfg.capacity >= 1
    requires offset >= 0.0 || BaseWait(cfg, Level(cfg, h, now)) <= 1.0
    requires h != [] ==> h[|h| - 1].time <= now
    ensures Admits(cfg, h, now + Header(ApplyJitter(BaseWait(cfg, Level(cfg, h, now)), offset)) as real, 1)
  {
    RetryAfterExact(cfg, h, now, offset);
  }

  /** The configured 20 tokens at 10 per minute. */
  const CONFIGURED := Config(20, 10.0 / 60.0)

  const DRAIN := Call(0.0, 20, true)

  lemma Drained()
    ensures Honest(CONFIGURED, [DRAIN]) && Stored(CONFIGURED, [DRAIN]) == Bucket(0.0, 0.0)
  {
    PairDecidesLikeHistory(CONFIGURED, [], 0.0, 20);
    assert [DRAIN][..0] == [];
  }

  lemma ThenDenied()
    ensures var h := [DRAIN] + [Call(0.0, 1, false)];
            Honest(CONFIGURED, h) && Stored(CONFIGURED, h) == Bucket(0.0, 0.0)
  {
    Drained();
    var denied := Call(0.0, 1, false);
    var h := [DRAIN] + [denied];
    assert h[..1] == [DRAIN] && h[1] == denied;
    assert Refill(CONFIGURED, 0.0, 0.0) == 0.0;
    PairDecidesLikeHistory(CONFIGURED, [DRAIN], 0.0, 1);
    LogStaysHonest(CONFIGURED, [DRAIN], denied);
  }

  /** With the configured limiter and an offset of -5 seconds, which the route allows, a client
      that was just denied is told to wait for 2 seconds, does so, and is denied again. */
  lemma NegativeJitterFails()
    ensures var h := [DRAIN] + [Call(0.0, 1, false)];
            var header := Header(ApplyJitter(BaseWait(CONFIGURED, Level(CONFIGURED, h, 0.0)), -5.0));
            Honest(CONFIGURED, h) && header == 2 && !Admits(CONFIGURED, h, header as real, 1)
  {
    var h := [DRAIN] + [Call(0.0, 1, false)];
    ThenDenied();
    assert Refill(CONFIGURED, 0.0, 0.0) == 0.0;
    assert Level(CONFIGURED, h, 0.0) == 0.0;
    var base := BaseWait(CONFIGURED, 0.0);
    assert base == 6.0 && ApplyJitter(base, -5.0) == 1.0;
    RetryAfterExact(CONFIGURED, h, 0.0, -5.0);
  }

  // ------------------------------------------------------------- the limiter

  /** The pair b stands for the history h, which ended by `clock`. */
  ghost predicate Accounts(cfg: Config, h: seq<Call>, b: Bucket, clock: real) {
    && h != []
    && b == Stored(cfg, h)
    && Honest(cfg, h) && Ordered(h)
    && h[|h| - 1].time <= clock
  }

  lemma LogStaysHonest(cfg: Config, h: seq<Call>, c: Call)
    requires Honest(cfg, h) && Ordered(h)
    requires h != [] ==> h[|h| - 1].time <= c.time
    requires c.granted <==> Admits(cfg, h, c.time, c.tokens)
    ensures Accounts(cfg, h + [c], Bucket(Level(cfg, h, c.time) - Spent(c), c.time), c.time)
  {
    var h' := h + [c];
    assert h'[..|h|] == h;
    forall k | 0 <= k < |h'|
      ensures h'[k].granted <==> Admits(cfg, h'[..k], h'[k].time, h'[k].tokens)
    {
      if k < |h| { assert h'[..k] == h[..k]; }
    }
  }

  class TokenBucketLimiter {
    const config: Config
    var buckets: map<string, Bucket>
    ghost var log: map<string, seq<Call>>  // every call so far, per key
    ghost var clock: real                  // time of the latest call

    ghost function LogOf(key: string): seq<Call>
      reads this
    {
      if key in log then log[key] else []
    }

    ghost predicate Valid()
      reads this
    {
      && buckets.Keys == log.Keys
      && forall key | key in log :: Accounts(config, log[key], buckets[key], clock)
    }

    constructor (capacity: int, refillPerSecond: real, ghost now: real)
      ensures Valid() && config == Config(capacity, refillPerSecond)
      ensures buckets == map[] && log == map[] && clock == now
    {
      config := Config(capacity, refillPerSecond);
      buckets, log, clock := map[], map[], now;
    }

    /** One request for `tokens` at time `now`, which never runs backwards. */
    method Consume(key: string, now: real, tokens: int) returns (allowed: bool, remaining: real)
      requires Valid() && clock <= now
      modifies this
      ensures Valid() && clock == now
      ensures allowed <==> Admits(config, old(LogOf(key)), now, tokens)
      ensures remaining == Level(config, old(LogOf(key)), now) - Spent(Call(now, tokens, allowed))
      ensures log == old(log)[key := old(LogOf(key)) + [Call(now, tokens, allowed)]]
      ensures buckets == old(buckets)[key := Bucket(remaining, now)]
    {
      var bucket := if key in buckets then buckets[key] else Bucket(config.capacity as real, now);
      var elapsed := now - bucket.lastRefill;
      var current := Min(config.capacity as real, bucket.tokens + config.refillPerSecond * elapsed);
      ghost var before := LogOf(key);
      assert current == Level(config, before, now);
      PairDecidesLikeHistory(config, before, now, tokens);
      if current >= tokens as real {
        current := current - tokens as real;
        allowed := true;
      } else {
        allowed := false;
      }
      buckets := buckets[key := Bucket(current, now)];
      remaining := current;

      LogStaysHonest(config, before, Call(now, tokens, allowed));
      log := log[key := before + [Call(now, tokens, allowed)]];
      clock := now;
    }

    /** Seconds until a token is available, plus the drawn offset; a bucket that needs
        refilling but has refill rate zero makes the division fail. */
    method SecondsUntilToken(key: string, now: real, offset: real) returns (wait: Wait)
      requires Valid() && clock <= now
      ensures wait == DivisionByZero
         <==> config.refillPerSecond == 0.0 && !Admits(config, LogOf(key), now, 1)
      ensures wait.Seconds? ==>
                wait.value == if Admits(config, LogOf(key), now, 1) then 0.0
                              else ApplyJitter(BaseWait(config, Level(config, LogOf(key), now)), offset)
      ensures wait.Seconds? && !Admits(config, LogOf(key), now, 1) ==>
                var level := Level(config, LogOf(key), now);
                var jittered := (1.0 - level) / config.refillPerSecond + offset;
                level < 1.0 && wait.value == if jittered < 0.0 then 0.0 else jittered
      ensures config.refillPerSecond > 0.0 && offset == 0.0 ==>
                && wait.Seconds? && wait.value >= 0.0
                && forall later | later >= now :: Admits(config, LogOf(key), later, 1)
                     == (config.capacity >= 1 && later - now >= wait.value)
      ensures config.refillPerSecond > 0.0 && config.capacity >= 1 && !Admits(config, LogOf(key), now, 1) ==>
                && wait.Seconds?
                && Admits(config, LogOf(key), now + Header(wait.value) as real, 1)
                   == (Header(wait.value) as real >= BaseWait(config, Level(config, LogOf(key), now)))
    {
      var bucket := if key in buckets then buckets[key] else Bucket(config.capacity as real, now);
      var elapsed := now - bucket.lastRefill;
      var current := Min(config.capacity as real, bucket.tokens + config.refillPerSecond * elapsed);
      var deficit := 1.0 - current;
      ghost var h := LogOf(key);
      assert current == Level(config, h, now);
      PairDecidesLikeHistory(config, h, now, 1);
      if deficit <= 0.0 {
        wait := Seconds(0.0);
      } else if config.refillPerSecond == 0.0 {
        return DivisionByZero;
      } else {
        wait := Seconds(ApplyJitter(deficit / config.refillPerSecond, offset));
      }
      if config.refillPerSecond > 0.0 && config.capacity >= 1 {
        RetryAfterExact(config, h, now, offset);
      }
      if config.refillPerSecond > 0.0 && offset == 0.0 {
        forall later | later >= now
          ensures Admits(config, h, later, 1)
             <==> config.capacity >= 1 && later - now >= wait.value
        {
          RetryExact(config, h, now, later);
        }
      }
    }
  }
}
