/** The per-key sliding window limiter of ingestor/rate_limiting_advanced.py.

    The limiter keeps a deque of the allowed instants it has not yet evicted. The
    specification keeps every request ever made and counts the allowed ones in the closed
    window that ends now. */
module SlidingWindow {

  datatype Config = Config(limit: int, windowSeconds: int) {
    function Window(): real { windowSeconds as real }
  }

  datatype Request = Request(time: real, allowed: bool)

  function Max(x: real, y: real): real {
    if x <= y then y else x
  }

  /** Allowed requests of h in the closed interval [lo, hi]. */
  function CountIn(h: seq<Request>, lo: real, hi: real): nat {
    if h == [] then 0
    else CountIn(h[..|h| - 1], lo, hi)
         + if h[|h| - 1].allowed && lo <= h[|h| - 1].time <= hi then 1 else 0
  }

  /** The full-history specification: the window ending now has room. */
  predicate Admits(cfg: Config, h: seq<Request>, now: real) {
    CountIn(h, now - cfg.Window(), now) < cfg.limit
  }

  /** Every recorded decision is the one the specification makes. */
  ghost predicate Honest(cfg: Config, h: seq<Request>) {
    h != [] ==>
      var pre, last := h[..|h| - 1], h[|h| - 1];
      Honest(cfg, pre) && (last.allowed <==> Admits(cfg, pre, last.time))
  }

  /** Requests arrive in time order, none later than `clock`. */
  ghost predicate OrderedUpTo(h: seq<Request>, clock: real)
    decreases |h|
  {
    h != [] ==> h[|h| - 1].time <= clock && OrderedUpTo(h[..|h| - 1], h[|h| - 1].time)
  }

  lemma OrderedLater(h: seq<Request>, clock: real, now: real)
    requires OrderedUpTo(h, clock) && clock <= now
    ensures OrderedUpTo(h, now)
  {
  }

  // ------------------------------------------------------------- bound on every window

  lemma {:induction false} CountGrowsWithInterval(h: seq<Request>, lo: real, hi: real, lo': real, hi': real)
    requires OrderedUpTo(h, hi') && lo' <= lo
    ensures CountIn(h, lo, hi) <= CountIn(h, lo', hi')
    decreases |h|
  {
    if h != [] {
      OrderedLater(h[..|h| - 1], h[|h| - 1].time, hi');
      CountGrowsWithInterval(h[..|h| - 1], lo, hi, lo', hi');
    }
  }

  /** Wherever a closed interval of the window's length is placed, at most `limit` requests
      of the key were allowed in it. */
  lemma {:induction false} EveryWindowBounded(cfg: Config, h: seq<Request>, clock: real, start: real)
    requires Honest(cfg, h) && OrderedUpTo(h, clock)
    ensures CountIn(h, start, start + cfg.windowSeconds as real) <= if cfg.limit < 0 then 0 else cfg.limit
    decreases |h|
  {
    if h != [] {
      var n := |h| - 1;
      var pre, last := h[..n], h[n];
      if last.allowed && start <= last.time <= start + cfg.Window() {
        assert Admits(cfg, pre, last.time);
        CountGrowsWithInterval(pre, start, start + cfg.Window(), last.time - cfg.Window(), last.time);
      } else {
        EveryWindowBounded(cfg, pre, last.time, start);
      }
    }
  }

  // ------------------------------------------------------------- the deque

  /** All allowed instants of the history, oldest first. */
  function AllowedTimes(h: seq<Request>): seq<real> {
    if h == [] then []
    else if h[|h| - 1].allowed then AllowedTimes(h[..|h| - 1]) + [h[|h| - 1].time]
    else AllowedTimes(h[..|h| - 1])
  }

  ghost predicate Sorted(s: seq<real>) {
    forall i, j | 0 <= i <= j < |s| :: s[i] <= s[j]
  }

  lemma {:induction false} AllowedTimesSorted(h: seq<Request>, clock: real)
    requires OrderedUpTo(h, clock)
    ensures Sorted(AllowedTimes(h))
    ensures forall i | 0 <= i < |AllowedTimes(h)| :: AllowedTimes(h)[i] <= clock
    decreases |h|
  {
    if h != [] {
      var pre := h[..|h| - 1];
      AllowedTimesSorted(pre, h[|h| - 1].time);
      var p := AllowedTimes(pre);
      assert forall i | 0 <= i < |p| :: p[i] <= h[|h| - 1].time;
      assert AllowedTimes(h) == p || AllowedTimes(h) == p + [h[|h| - 1].time];
    }
  }

  ghost predicate Below(s: seq<real>, bound: real) {
    forall i | 0 <= i < |s| :: s[i] < bound
  }

  ghost predicate AtLeast(s: seq<real>, bound: real) {
    forall i | 0 <= i < |s| :: s[i] >= bound
  }

  lemma SortedTail(gone: seq<real>, rest: seq<real>, bound: real)
    requires Sorted(gone + rest) && (rest != [] ==> rest[0] >= bound)
    ensures AtLeast(rest, bound)
  {
    forall i | 0 <= i < |rest|
      ensures rest[i] >= bound
    {
      assert (gone + rest)[|gone|] == rest[0] && (gone + rest)[|gone| + i] == rest[i];
    }
  }

  /** Once the allowed instants are split at `lo`, the later part is what the specification
      counts. */
  lemma {:induction false} CountOfSplit(h: seq<Request>, clock: real, lo: real, gone: seq<real>, rest: seq<real>)
    requires OrderedUpTo(h, clock) && AllowedTimes(h) == gone + rest
    requires Below(gone, lo) && AtLeast(rest, lo)
    ensures CountIn(h, lo, clock) == |rest|
    decreases |h|
  {
    if h != [] {
      var pre, last := h[..|h| - 1], h[|h| - 1];
      OrderedLater(pre, last.time, clock);
      if !last.allowed {
        CountOfSplit(pre, clock, lo, gone, rest);
      } else {
        var p, all := AllowedTimes(pre), gone + rest;
        assert all == p + [last.time];
        assert all[|all| - 1] == last.time && all[..|all| - 1] == p;
        if rest == [] {
          assert p == gone[..|gone| - 1] + [];
          CountOfSplit(pre, clock, lo, gone[..|gone| - 1], []);
        } else {
          assert p == gone + rest[..|rest| - 1];
          CountOfSplit(pre, clock, lo, gone, rest[..|rest| - 1]);
        }
      }
    }
  }

  /** Evicting from the front everything older than the cutoff. */
  function DropOld(deque: seq<real>, cutoff: real): seq<real> {
    if deque != [] && deque[0] < cutoff then DropOld(deque[1..], cutoff) else deque
  }

  /** The deque after the requests h: each evicts, and an allowed one appends. */
  function DequeAfter(cfg: Config, h: seq<Request>): seq<real> {
    if h == [] then []
    else
      var last := h[|h| - 1];
      var rest := DropOld(DequeAfter(cfg, h[..|h| - 1]), last.time - cfg.Window());
      if last.allowed then rest + [last.time] else rest
  }

  function Dropped(deque: seq<real>, cutoff: real): seq<real> {
    if deque != [] && deque[0] < cutoff then [deque[0]] + Dropped(deque[1..], cutoff) else []
  }

  /** What evictions have removed so far. */
  ghost function Gone(cfg: Config, h: seq<Request>): seq<real> {
    if h == [] then []
    else
      var pre, last := h[..|h| - 1], h[|h| - 1];
      Gone(cfg, pre) + Dropped(DequeAfter(cfg, pre), last.time - cfg.Window())
  }

  lemma {:induction false} DropOldSplits(deque: seq<real>, cutoff: real)
    ensures deque == Dropped(deque, cutoff) + DropOld(deque, cutoff)
    ensures Below(Dropped(deque, cutoff), cutoff)
    ensures DropOld(deque, cutoff) != [] ==> DropOld(deque, cutoff)[0] >= cutoff
    decreases |deque|
  {
    if deque != [] && deque[0] < cutoff { DropOldSplits(deque[1..], cutoff); }
  }

  lemma Regroup(gone: seq<real>, dropped: seq<real>, rest: seq<real>, t: real)
    ensures gone + (dropped + rest) == (gone + dropped) + rest
    ensures gone + (dropped + rest) + [t] == (gone + dropped) + (rest + [t])
  {
  }

  lemma BelowTogether(gone: seq<real>, dropped: seq<real>, before: real, cutoff: real)
    requires Below(gone, before) && before <= cutoff && Below(dropped, before)
    ensures Below(gone + dropped, cutoff)
  {
  }

  /** Evicted and remaining timestamps together are all allowed ones, in order, and only
      timestamps older than the window were evicted. */
  lemma {:induction false} NothingLost(cfg: Config, h: seq<Request>, clock: real)
    requires OrderedUpTo(h, clock)
    ensures AllowedTimes(h) == Gone(cfg, h) + DequeAfter(cfg, h)
    ensures Below(Gone(cfg, h), clock - cfg.Window())
    decreases |h|
  {
    if h != [] {
      var pre, last := h[..|h| - 1], h[|h| - 1];
      var deque, cutoff := DequeAfter(cfg, pre), last.time - cfg.Window();
      NothingLost(cfg, pre, last.time);
      DropOldSplits(deque, cutoff);
      Regroup(Gone(cfg, pre), Dropped(deque, cutoff), DropOld(deque, cutoff), last.time);
      BelowTogether(Gone(cfg, pre), Dropped(deque, cutoff), cutoff, clock - cfg.Window());
    }
  }

  /** Evicting at `now` leaves as many timestamps as the specification counts. */
  lemma EvictionCounts(cfg: Config, h: seq<Request>, now: real)
    requires OrderedUpTo(h, now)
    ensures |DropOld(DequeAfter(cfg, h), now - cfg.Window())| == CountIn(h, now - cfg.Window(), now)
  {
    var deque, lo := DequeAfter(cfg, h), now - cfg.Window();
    NothingLost(cfg, h, now);
    DropOldSplits(deque, lo);
    var rest, gone := DropOld(deque, lo), Gone(cfg, h) + Dropped(deque, lo);
    Regroup(Gone(cfg, h), Dropped(deque, lo), rest, now);
    BelowTogether(Gone(cfg, h), Dropped(deque, lo), lo, lo);
    AllowedTimesSorted(h, now);
    SortedTail(gone, rest, lo);
    CountOfSplit(h, now, lo, gone, rest);
  }

  /** The deque never holds more than `limit` timestamps. */
  lemma {:induction false} DequeBounded(cfg: Config, h: seq<Request>, clock: real)
    requires Honest(cfg, h) && OrderedUpTo(h, clock)
    ensures |DequeAfter(cfg, h)| <= if cfg.limit < 0 then 0 else cfg.limit
    decreases |h|
  {
    if h != [] {
      var pre, last := h[..|h| - 1], h[|h| - 1];
      DequeBounded(cfg, pre, last.time);
      EvictionCounts(cfg, pre, last.time);
      DropOldSplits(DequeAfter(cfg, pre), last.time - cfg.Window());
    }
  }

  // ------------------------------------------------------------- retry times

  /** reset_in before jitter: zero for an empty deque. */
  function BaseWait(cfg: Config, deque: seq<real>, now: real): real {
    if deque == [] then 0.0 else Max(0.0, deque[0] + cfg.Window() - now)
  }

  /** With no further use of the key, a deque that is not full admits at any later time, and
      a full one exactly when its oldest entry has left the window, that is strictly after
      the instant that reset_in points to. */
  lemma RetryExact(cfg: Config, h: seq<Request>, now: real, later: real)
    requires Honest(cfg, h) && OrderedUpTo(h, now) && now <= later
    requires cfg.limit >= 1
    ensures var deque := DequeAfter(cfg, h);
            Admits(cfg, h, later) <==> |deque| < cfg.limit || later > deque[0] + cfg.windowSeconds as real
  {
    var deque := DequeAfter(cfg, h);
    DequeBounded(cfg, h, now);
    OrderedLater(h, now, later);
    EvictionCounts(cfg, h, later);
    DropOldSplits(deque, later - cfg.Window());
  }

  /** The Retry-After header that the route sends for an answer of x seconds, x >= 0. */
  function Header(x: real): int {
    x.Floor + 1
  }

  /** A client that was denied, waits for its Retry-After and tries once more is let in exactly
      when the header exceeds the wait before jitter. It falls short exactly when the wait is at
      least a second and the offset, being negative, takes it down to an earlier second; in
      particular whenever the offset is -1 or below. */
  lemma RetryAfterExact(cfg: Config, h: seq<Request>, now: real, offset: real)
    requires Honest(cfg, h) && OrderedUpTo(h, now)
    requires cfg.limit >= 1 && !Admits(cfg, h, now)
    ensures var base := BaseWait(cfg, DequeAfter(cfg, h), now);
            var header := Header(Max(0.0, base + offset)) as real;
            && Admits(cfg, h, now + header) == (header > base)
            && Admits(cfg, h, now + header)
               == !(base >= 1.0 && offset < 0.0 && (base + offset).Floor < base.Floor)
            && (base >= 1.0 && offset <= -1.0 ==> !Admits(cfg, h, now + header))
  {
    var base := BaseWait(cfg, DequeAfter(cfg, h), now);
    var x := Max(0.0, base + offset);
    RetryExact(cfg, h, now, now);
    RetryExact(cfg, h, now, now + Header(x) as real);
    DequeBounded(cfg, h, now);
    assert x.Floor as real <= x < (x.Floor + 1) as real;
    assert base.Floor as real <= base < (base.Floor + 1) as real;
    assert (base + offset).Floor as real <= base + offset < ((base + offset).Floor + 1) as real;
    assert base + offset < 0.0 ==> x == 0.0 && x.Floor == 0;
    assert base + offset >= 0.0 ==> x == base + offset;
  }

  /** One request a minute, used up at instant 0: an offset of -5 seconds, which the route
      allows, makes the header 56, and the retry is denied. */
  lemma NegativeJitterFails()
    ensures var cfg, h := Config(1, 60), [Request(0.0, true)];
            && Honest(cfg, h) && !Admits(cfg, h, 0.0)
            && Header(Max(0.0, BaseWait(cfg, DequeAfter(cfg, h), 0.0) - 5.0)) == 56
            && !Admits(cfg, h, 56.0)
  {
    var cfg, h := Config(1, 60), [Request(0.0, true)];
    assert h[..0] == [];
    assert DequeAfter(cfg, h) == [0.0];
    RetryAfterExact(cfg, h, 0.0, -5.0);
  }

  // ------------------------------------------------------------- the limiter

  /** The deque stands for the history h, which ended by `clock`. */
  ghost predicate Accounts(cfg: Config, h: seq<Request>, deque: seq<real>, clock: real) {
    deque == DequeAfter(cfg, h) && Honest(cfg, h) && OrderedUpTo(h, clock)
  }

  lemma AccountsLater(cfg: Config, h: seq<Request>, deque: seq<real>, clock: real, now: real)
    requires Accounts(cfg, h, deque, clock) && clock <= now
    ensures Accounts(cfg, h, deque, now)
  {
    OrderedLater(h, clock, now);
  }

  lemma LogGrows(cfg: Config, h: seq<Request>, deque: seq<real>, clock: real, r: Request)
    requires Accounts(cfg, h, deque, clock) && clock <= r.time
    requires r.allowed <==> Admits(cfg, h, r.time)
    ensures Accounts(cfg, h + [r], DropOld(deque, r.time - cfg.Window()) + if r.allowed then [r.time] else [], r.time)
  {
    assert (h + [r])[..|h|] == h;
    var m := if h == [] then r.time else h[|h| - 1].time;
    if h != [] { assert OrderedUpTo(h[..|h| - 1], m); }
  }

  /** Comparing the evicted deque with the limit decides like the history, and the deque that
      results stands for the longer history. */
  lemma DequeDecidesLikeHistory(cfg: Config, h: seq<Request>, deque: seq<real>, clock: real, now: real)
    requires Accounts(cfg, h, deque, clock) && clock <= now
    ensures var rest, allowed := DropOld(deque, now - cfg.Window()), Admits(cfg, h, now);
            && |rest| == CountIn(h, now - cfg.Window(), now)
            && Accounts(cfg, h + [Request(now, allowed)], rest + if allowed then [now] else [], now)
  {
    OrderedLater(h, clock, now);
    EvictionCounts(cfg, h, now);
    LogGrows(cfg, h, deque, clock, Request(now, Admits(cfg, h, now)));
  }

  /** Every key's deque stands for its history. */
  ghost predicate AllAccount(cfg: Config, log: map<string, seq<Request>>, windows: map<string, seq<real>>, clock: real) {
    && windows.Keys == log.Keys
    && forall key | key in log :: Accounts(cfg, log[key], windows[key], clock)
  }

  lemma OneKeyChanges(cfg: Config, log: map<string, seq<Request>>, windows: map<string, seq<real>>, clock: real,
                      key: string, h: seq<Request>, deque: seq<real>, now: real)
    requires AllAccount(cfg, log, windows, clock) && clock <= now && Accounts(cfg, h, deque, now)
    ensures AllAccount(cfg, log[key := h], windows[key := deque], now)
  {
    forall k | k in log && k != key
      ensures Accounts(cfg, log[k], windows[k], now)
    {
      AccountsLater(cfg, log[k], windows[k], clock, now);
    }
  }

  class SlidingWindowLimiter {
    const config: Config
    var windows: map<string, seq<real>>
    ghost var log: map<string, seq<Request>>
    ghost var clock: real

    ghost function LogOf(key: string): seq<Request>
      reads this
    {
      if key in log then log[key] else []
    }

    ghost predicate Valid()
      reads this
    {
      AllAccount(config, log, windows, clock)
    }

    constructor (limit: int, windowSeconds: int, ghost now: real)
      ensures Valid() && config == Config(limit, windowSeconds)
      ensures windows == map[] && log == map[] && clock == now
    {
      config := Config(limit, windowSeconds);
      windows, log, clock := map[], map[], now;
    }

    /** Evict timestamps that have scrolled out of the window, compare, append. */
    static method Slide(cfg: Config, deque: seq<real>, now: real) returns (allowed: bool, remaining: int, window: seq<real>)
      ensures var rest := DropOld(deque, now - cfg.Window());
              && (allowed <==> |rest| < cfg.limit)
              && remaining == (if allowed then cfg.limit - |rest| - 1 else 0)
              && window == rest + if allowed then [now] else []
    {
      var cutoff := now - cfg.Window();
      window := deque;
      while window != [] && window[0] < cutoff
        invariant DropOld(window, cutoff) == DropOld(deque, cutoff)
        decreases |window|
      {
        window := window[1..];
      }
      var currentCount := |window|;
      if currentCount < cfg.limit {
        window := window + [now];
        return true, cfg.limit - currentCount - 1, window;
      }
      return false, 0, window;
    }

    method IsAllowed(key: string, now: real) returns (allowed: bool, remaining: int)
      requires Valid() && clock <= now
      modifies this
      ensures Valid() && clock == now
      ensures allowed <==> Admits(config, old(LogOf(key)), now)
      ensures remaining ==
              if allowed then config.limit - CountIn(old(LogOf(key)), now - config.Window(), now) - 1 else 0
      ensures log == old(log)[key := old(LogOf(key)) + [Request(now, allowed)]]
      ensures windows == old(windows)[key := DequeAfter(config, log[key])]
    {
      ghost var before := LogOf(key);
      var window := if key in windows then windows[key] else [];
      DequeDecidesLikeHistory(config, before, window, clock, now);
      allowed, remaining, window := Slide(config, window, now);
      OneKeyChanges(config, log, windows, clock, key, before + [Request(now, allowed)], window, now);
      windows := windows[key := window];
      log := log[key := before + [Request(now, allowed)]];
      clock := now;
    }

    /** Seconds until the oldest in-window request expires, plus the drawn offset. Asked
        right after a denial and without jitter, the answer is exact. */
    method ResetIn(key: string, now: real, offset: real) returns (wait: real)
      requires Valid() && clock <= now
      ensures key !in windows || windows[key] == [] ==> wait == 0.0
      ensures key in windows && windows[key] != [] ==>
                wait == Max(0.0, BaseWait(config, windows[key], now) + offset)
      ensures offset == 0.0 && config.limit >= 1 && !Admits(config, LogOf(key), now) ==>
                && key in windows && windows[key] != []
                && wait == windows[key][0] + config.Window() - now >= 0.0
                && forall later | later >= now :: Admits(config, LogOf(key), later) == (later - now > wait)
      ensures offset >= 0.0 && config.limit >= 1 ==> Admits(config, LogOf(key), now + Header(wait) as real)
      ensures config.limit >= 1 && !Admits(config, LogOf(key), now) ==>
                && key in windows && windows[key] != []
                && Admits(config, LogOf(key), now + Header(wait) as real)
                   == (Header(wait) as real > windows[key][0] + config.Window() - now)
    {
      var window := if key in windows then windows[key] else [];
      ghost var h := LogOf(key);
      OrderedLater(h, clock, now);
      if window == [] {
        wait := 0.0;
      } else {
        var resetAt := window[0] + config.Window();
        var base := Max(0.0, resetAt - now);
        wait := Max(0.0, base + offset);
      }
      if config.limit >= 1 {
        forall later | later >= now
          ensures Admits(config, h, later) <==> |window| < config.limit || later > window[0] + config.Window()
        {
          RetryExact(config, h, now, later);
        }
        RetryExact(config, h, now, now);
        DequeBounded(config, h, now);
        if !Admits(config, h, now) { RetryAfterExact(config, h, now, offset); }
      }
    }
  }
}
