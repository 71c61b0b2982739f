/** The idempotency key tracker of libs/platform/retry.py and its client, the API ingestion
    jobs of ingestor/jobs.py. The tracker forgets expired keys when it meets them and when it
    is told to clean up; the specification remembers every mark for ever. */
module Idempotency {
  import opened Options
  import opened CursorCodec

  // ------------------------------------------------------------- the tracker

  datatype Call = Check(key: string, time: real) | Mark(key: string, time: real) | Cleanup(time: real)

  predicate Expired(ttl: int, marked: real, now: real) {
    now - marked > ttl as real
  }

  function Unexpired(ttl: int, seen: map<string, real>, now: real): map<string, real> {
    map key | key in seen && !Expired(ttl, seen[key], now) :: seen[key]
  }

  function Step(ttl: int, seen: map<string, real>, call: Call): map<string, real> {
    match call
    case Check(key, now) => if key in seen && Expired(ttl, seen[key], now) then seen - {key} else seen
    case Mark(key, now) => seen[key := now]
    case Cleanup(now) => Unexpired(ttl, seen, now)
  }

  function SeenAfter(ttl: int, h: seq<Call>): map<string, real> {
    if h == [] then map[] else Step(ttl, SeenAfter(ttl, h[..|h| - 1]), h[|h| - 1])
  }

  /** What the tracker answers when asked about the key. */
  predicate Answer(ttl: int, h: seq<Call>, key: string, now: real) {
    key in SeenAfter(ttl, h) && !Expired(ttl, SeenAfter(ttl, h)[key], now)
  }

  /** The specification: when the key was last marked, if ever. */
  function LastMark(h: seq<Call>, key: string): Option<real> {
    if h == [] then None
    else
      var last := h[|h| - 1];
      if last.Mark? && last.key == key then Some(last.time) else LastMark(h[..|h| - 1], key)
  }

  predicate Duplicate(ttl: int, h: seq<Call>, key: string, now: real) {
    LastMark(h, key).Some? && !Expired(ttl, LastMark(h, key).value, now)
  }

  ghost predicate OrderedUpTo(h: seq<Call>, clock: real)
    decreases |h|
  {
    h != [] ==> h[|h| - 1].time <= clock && OrderedUpTo(h[..|h| - 1], h[|h| - 1].time)
  }

  /** Since its last mark the key was met expired, by a question about it or by a clean-up. */
  predicate Forgotten(ttl: int, h: seq<Call>, key: string) {
    h != [] &&
    var pre, last := h[..|h| - 1], h[|h| - 1];
    match last
    case Mark(k, _) => k != key && Forgotten(ttl, pre, key)
    case Check(k, now) => Forgotten(ttl, pre, key) || (k == key && MarkExpired(ttl, pre, key, now))
    case Cleanup(now) => Forgotten(ttl, pre, key) || MarkExpired(ttl, pre, key, now)
  }

  predicate MarkExpired(ttl: int, h: seq<Call>, key: string, now: real) {
    LastMark(h, key).Some? && Expired(ttl, LastMark(h, key).value, now)
  }

  /** With any clock, also one that steps back: the tracker knows exactly the keys that were
      marked and not forgotten since, with their last mark. */
  lemma {:induction false} SeenExactly(ttl: int, h: seq<Call>, key: string)
    ensures key in SeenAfter(ttl, h) <==> LastMark(h, key).Some? && !Forgotten(ttl, h, key)
    ensures key in SeenAfter(ttl, h) ==> LastMark(h, key) == Some(SeenAfter(ttl, h)[key])
    decreases |h|
  {
    if h != [] { SeenExactly(ttl, h[..|h| - 1], key); }
  }

  /** So the answer is that of the map of last marks, except when the key is a duplicate and was
      forgotten: then, and only then, the tracker takes a duplicate for new. */
  lemma AnswerWithAnyClock(ttl: int, h: seq<Call>, key: string, now: real)
    ensures Answer(ttl, h, key, now) <==> Duplicate(ttl, h, key, now) && !Forgotten(ttl, h, key)
  {
    SeenExactly(ttl, h, key);
  }

  /** While the clock does not step back a forgotten key is not a duplicate. */
  lemma {:induction false} ForgottenHasExpired(ttl: int, h: seq<Call>, key: string, now: real)
    requires OrderedUpTo(h, now)
    ensures Forgotten(ttl, h, key) ==> MarkExpired(ttl, h, key, now)
    decreases |h|
  {
    if h != [] { ForgottenHasExpired(ttl, h[..|h| - 1], key, h[|h| - 1].time); }
  }

  /** When it steps back it can be one. */
  lemma ClockStepBack()
    ensures var h := [Mark("k", 0.0), Cleanup(11.0)];
            Duplicate(10, h, "k", 5.0) && Forgotten(10, h, "k") && !Answer(10, h, "k", 5.0)
  {
    var h := [Mark("k", 0.0), Cleanup(11.0)];
    assert h[..1] == [Mark("k", 0.0)];
    AnswerWithAnyClock(10, h, "k", 5.0);
  }

  /** A key that the tracker knows carries its last mark; a key it does not know was never
      marked or has expired. */
  lemma {:induction false} SeenIsLastMark(ttl: int, h: seq<Call>, clock: real, key: string)
    requires OrderedUpTo(h, clock)
    ensures var seen := SeenAfter(ttl, h);
            if key in seen then LastMark(h, key) == Some(seen[key])
            else LastMark(h, key).Some? ==> Expired(ttl, LastMark(h, key).value, clock)
  {
    SeenExactly(ttl, h, key);
    ForgottenHasExpired(ttl, h, key, clock);
  }

  /** The tracker answers as if it never forgot anything. */
  lemma AnswersAreExact(ttl: int, h: seq<Call>, key: string, now: real)
    requires OrderedUpTo(h, now)
    ensures Answer(ttl, h, key, now) <==> Duplicate(ttl, h, key, now)
  {
    SeenIsLastMark(ttl, h, now, key);
  }

  lemma {:induction false} LastMarkSkips(h: seq<Call>, call: Call, later: seq<Call>, key: string)
    requires !call.Mark?
    ensures LastMark(h + [call] + later, key) == LastMark(h + later, key)
    decreases |later|
  {
    var with, without := h + [call] + later, h + later;
    if later == [] {
      assert with[..|with| - 1] == h && without == h;
    } else {
      var n := |later| - 1;
      assert with[..|with| - 1] == h + [call] + later[..n];
      assert without[..|without| - 1] == h + later[..n];
      LastMarkSkips(h, call, later[..n], key);
    }
  }

  lemma {:induction false} OrderedWithout(h: seq<Call>, call: Call, later: seq<Call>, clock: real)
    requires OrderedUpTo(h + [call] + later, clock)
    ensures OrderedUpTo(h + later, clock)
    decreases |later|
  {
    var with, without := h + [call] + later, h + later;
    if later == [] {
      assert with[..|with| - 1] == h && without == h;
    } else {
      var n := |later| - 1;
      assert with[..|with| - 1] == h + [call] + later[..n];
      assert without[..|without| - 1] == h + later[..n];
      OrderedWithout(h, call, later[..n], later[n].time);
    }
  }

  /** Neither a clean-up nor a question, wherever it is inserted, changes a later answer. */
  lemma ForgettingIsInvisible(ttl: int, h: seq<Call>, call: Call, later: seq<Call>, key: string, now: real)
    requires OrderedUpTo(h + [call] + later, now) && !call.Mark?
    ensures Answer(ttl, h + [call] + later, key, now) <==> Answer(ttl, h + later, key, now)
  {
    OrderedWithout(h, call, later, now);
    AnswersAreExact(ttl, h + [call] + later, key, now);
    AnswersAreExact(ttl, h + later, key, now);
    LastMarkSkips(h, call, later, key);
  }

  /** A clean-up leaves exactly the keys that still are duplicates. */
  lemma CleanupIsExact(ttl: int, h: seq<Call>, now: real, key: string)
    requires OrderedUpTo(h, now)
    ensures key in SeenAfter(ttl, h + [Cleanup(now)]) <==> Duplicate(ttl, h, key, now)
  {
    assert (h + [Cleanup(now)])[..|h|] == h;
    SeenIsLastMark(ttl, h, now, key);
  }

  lemma OrderedLater(h: seq<Call>, clock: real, now: real)
    requires OrderedUpTo(h, clock) && clock <= now
    ensures OrderedUpTo(h, now)
  {
  }

  lemma OrderedGrows(h: seq<Call>, clock: real, call: Call)
    requires OrderedUpTo(h, clock) && clock <= call.time
    ensures OrderedUpTo(h + [call], call.time)
  {
    assert (h + [call])[..|h|] == h;
    if h != [] { assert OrderedUpTo(h, call.time); }
  }

  /** The instants that the methods are given are those of the wall clock, in any order. */
  class IdempotencyKeyTracker {
    const ttl: int
    var seen: map<string, real>
    ghost var calls: seq<Call>

    ghost predicate Valid()
      reads this
    {
      seen == SeenAfter(ttl, calls)
    }

    constructor (ttl: int)
      ensures Valid() && this.ttl == ttl && seen == map[] && calls == []
    {
      this.ttl := ttl;
      seen, calls := map[], [];
    }

    ghost method Log(call: Call)
      requires seen == Step(ttl, SeenAfter(ttl, calls), call)
      modifies this`calls
      ensures Valid() && calls == old(calls) + [call]
    {
      assert (calls + [call])[..|calls|] == calls;
      calls := calls + [call];
    }

    method IsDuplicate(key: string, now: real) returns (duplicate: bool)
      requires Valid()
      modifies this
      ensures Valid() && calls == old(calls) + [Check(key, now)]
      ensures duplicate <==> Duplicate(ttl, old(calls), key, now) && !Forgotten(ttl, old(calls), key)
      ensures seen == old(seen) || (seen == old(seen) - {key} && !duplicate)
    {
      AnswerWithAnyClock(ttl, calls, key, now);
      if key !in seen {
        Log(Check(key, now));
        return false;
      }
      var age := now - seen[key];
      if age > ttl as real {
        seen := seen - {key};
        Log(Check(key, now));
        return false;
      }
      Log(Check(key, now));
      return true;
    }

    method MarkSeen(key: string, now: real)
      requires Valid()
      modifies this
      ensures Valid() && calls == old(calls) + [Mark(key, now)]
      ensures seen == old(seen)[key := now]
    {
      seen := seen[key := now];
      Log(Mark(key, now));
    }

    /** Collect the expired keys, then delete them one by one. */
    method CleanupExpired(now: real)
      requires Valid()
      modifies this
      ensures Valid() && calls == old(calls) + [Cleanup(now)]
      ensures forall key :: key in seen <==> Duplicate(ttl, old(calls), key, now) && !Forgotten(ttl, old(calls), key)
      ensures forall key | key in seen :: key in old(seen) && seen[key] == old(seen)[key]
    {
      ghost var before := seen;
      var expired := set key | key in seen && now - seen[key] > ttl as real;
      while expired != {}
        invariant forall key :: key in expired ==> key in before && Expired(ttl, before[key], now)
        invariant forall key :: key in seen <==> key in before && (key in expired || !Expired(ttl, before[key], now))
        invariant forall key | key in seen :: seen[key] == before[key]
        invariant calls == old(calls)
        decreases expired
      {
        var key :| key in expired;
        seen := seen - {key};
        expired := expired - {key};
      }
      assert seen == Unexpired(ttl, before, now);
      Log(Cleanup(now));
      forall key
        ensures key in seen <==> Duplicate(ttl, old(calls), key, now) && !Forgotten(ttl, old(calls), key)
      {
        AnswerWithAnyClock(ttl, old(calls), key, now);
      }
    }
  }

  // ------------------------------------------------------------- guarded marks

  /** Every key is marked only while the tracker does not report it. */
  ghost predicate Guarded(ttl: int, h: seq<Call>) {
    forall m | 0 <= m < |h| && h[m].Mark? :: !Answer(ttl, h[..m], h[m].key, h[m].time)
  }

  lemma {:induction false} LastMarkFrom(h: seq<Call>, clock: real, i: nat, key: string)
    requires OrderedUpTo(h, clock) && i < |h| && h[i].Mark? && h[i].key == key
    ensures LastMark(h, key).Some? && h[i].time <= LastMark(h, key).value <= clock
    decreases |h|
  {
    if i < |h| - 1 { LastMarkFrom(h[..|h| - 1], h[|h| - 1].time, i, key); }
  }

  lemma {:induction false} OrderedPrefix(h: seq<Call>, clock: real, n: nat)
    requires OrderedUpTo(h, clock) && n < |h|
    ensures OrderedUpTo(h[..n], h[n].time)
    decreases |h|
  {
    if n < |h| - 1 {
      OrderedPrefix(h[..|h| - 1], h[|h| - 1].time, n);
      assert h[..|h| - 1][..n] == h[..n];
    }
  }

  /** Although the tracker forgets, two guarded marks of one key are more than the time to live
      apart, whatever questions and clean-ups come in between. */
  lemma MarksFarApart(ttl: int, h: seq<Call>, clock: real, i: nat, j: nat)
    requires OrderedUpTo(h, clock) && Guarded(ttl, h)
    requires i < j < |h| && h[i].Mark? && h[j].Mark? && h[i].key == h[j].key
    ensures h[j].time - h[i].time > ttl as real
  {
    OrderedPrefix(h, clock, j);
    AnswersAreExact(ttl, h[..j], h[j].key, h[j].time);
    LastMarkFrom(h[..j], h[j].time, i, h[j].key);
  }

  lemma GuardedGrows(ttl: int, h: seq<Call>, call: Call)
    requires Guarded(ttl, h) && (call.Mark? ==> !Answer(ttl, h, call.key, call.time))
    ensures Guarded(ttl, h + [call])
  {
    var all := h + [call];
    assert all[..|h|] == h;
    forall m | 0 <= m < |all| && all[m].Mark?
      ensures !Answer(ttl, all[..m], all[m].key, all[m].time)
    {
      if m < |h| { assert all[..m] == h[..m]; }
    }
  }

  // ------------------------------------------------------------- ingestion

  /** An ingestion attempt as it was decided; it may lack a key. */
  datatype Attempt = Attempt(key: Option<string>, time: real, accepted: bool)

  /** None and the empty string count as no key. */
  predicate Keyed(key: Option<string>) {
    key.Some? && key.value != ""
  }

  /** The full-history specification: every accepted attempt with that key is over. */
  predicate Admits(ttl: int, h: seq<Attempt>, key: Option<string>, now: real) {
    Keyed(key) ==> forall i | 0 <= i < |h| && h[i].accepted && h[i].key == key :: Expired(ttl, h[i].time, now)
  }

  ghost predicate Honest(ttl: int, h: seq<Attempt>) {
    forall i | 0 <= i < |h| :: h[i].accepted <==> Admits(ttl, h[..i], h[i].key, h[i].time)
  }

  /** Corollary of the specification: two accepted attempts with the same key are more than the
      time to live apart. */
  lemma AcceptedFarApart(ttl: int, h: seq<Attempt>, i: nat, j: nat)
    requires Honest(ttl, h) && i < j < |h|
    requires h[i].accepted && h[j].accepted && h[i].key == h[j].key && Keyed(h[i].key)
    ensures h[j].time - h[i].time > ttl as real
  {
    assert Admits(ttl, h[..j], h[j].key, h[j].time);
    assert h[..j][i] == h[i];
  }

  /** Corollary of the specification: an attempt is refused only because one with the same key was accepted a short while
      before: no chain of refused attempts extends the block. */
  lemma RefusedOnlyByAccepted(ttl: int, h: seq<Attempt>, j: nat) returns (i: nat)
    requires Honest(ttl, h) && j < |h| && !h[j].accepted
    ensures i < j && h[i].accepted && h[i].key == h[j].key && Keyed(h[j].key)
    ensures h[j].time - h[i].time <= ttl as real
  {
    var pre := h[..j];
    i :| 0 <= i < |pre| && pre[i].accepted && pre[i].key == h[j].key && !Expired(ttl, pre[i].time, h[j].time);
  }

  /** The key under which a batch is remembered: its prefix and its size. */
  function BatchKey(prefix: Option<string>, size: nat): Option<string> {
    if Keyed(prefix) then Some(prefix.value + ":" + Decimal(size)) else None
  }

  /** The prefix, a colon and the decimal size; without a prefix there is no key. */
  lemma BatchKeyText(prefix: string, size: nat)
    ensures BatchKey(None, size) == None && BatchKey(Some(""), size) == None
    ensures prefix != "" ==> BatchKey(Some(prefix), size) == Some(prefix + ":" + Decimal(size))
    ensures NatValue(Decimal(size)) == size
  {
    DecimalValue(size);
  }

  ghost predicate IsLastColon(s: string, c: nat) {
    c < |s| && s[c] == ':' && forall i | c < i < |s| :: IsDigit(s[i])
  }

  lemma ColonBeforeDigits(p: string, n: nat)
    ensures IsLastColon(p + ":" + Decimal(n), |p|)
  {
    var s := p + ":" + Decimal(n);
    forall i | |p| < i < |s|
      ensures IsDigit(s[i])
    {
      assert s[i] == Decimal(n)[i - |p| - 1];
    }
  }

  lemma OneLastColon(s: string, c: nat, d: nat)
    requires IsLastColon(s, c) && IsLastColon(s, d)
    ensures c == d
  {
    assert !IsDigit(s[c]) && !IsDigit(s[d]);
  }

  /** Two batches are taken for the same exactly when prefix and size agree, whatever records
      they hold. */
  lemma BatchKeysCollide(p: Option<string>, n: nat, q: Option<string>, m: nat)
    requires Keyed(p) && Keyed(q)
    ensures BatchKey(p, n) == BatchKey(q, m) <==> p == q && n == m
  {
    if BatchKey(p, n) == BatchKey(q, m) {
      var s := p.value + ":" + Decimal(n);
      ColonBeforeDigits(p.value, n);
      ColonBeforeDigits(q.value, m);
      OneLastColon(s, |p.value|, |q.value|);
      assert Decimal(n) == s[|p.value| + 1..] == Decimal(m);
      DecimalValue(n);
      DecimalValue(m);
      assert p.value == s[..|p.value|] == q.value;
    }
  }

  /** When an attempt with this key was last accepted. */
  function LastAccepted(h: seq<Attempt>, key: string): Option<real> {
    if h == [] then None
    else
      var last := h[|h| - 1];
      if last.accepted && last.key == Some(key) then Some(last.time) else LastAccepted(h[..|h| - 1], key)
  }

  ghost predicate InOrder(h: seq<Attempt>, clock: real)
    decreases |h|
  {
    h != [] ==> h[|h| - 1].time <= clock && InOrder(h[..|h| - 1], h[|h| - 1].time)
  }

  lemma InOrderLater(h: seq<Attempt>, clock: real, now: real)
    requires InOrder(h, clock) && clock <= now
    ensures InOrder(h, now)
  {
  }

  /** Written out: an attempt without a key is always accepted, one with a key unless an accepted
      one with the same key is at most the time to live old. */
  lemma AdmitsMeans(ttl: int, h: seq<Attempt>, key: Option<string>, now: real)
    ensures key == None || key == Some("") ==> Admits(ttl, h, key, now)
    ensures key != None && key != Some("") ==>
              (Admits(ttl, h, key, now)
               <==> forall i | 0 <= i < |h| && h[i].accepted && h[i].key == key :: now - h[i].time > ttl as real)
  {
  }

  lemma {:induction false} LastAcceptedDecides(ttl: int, h: seq<Attempt>, key: string, now: real)
    requires InOrder(h, now) && key != ""
    ensures Admits(ttl, h, Some(key), now)
       <==> LastAccepted(h, key).None? || Expired(ttl, LastAccepted(h, key).value, now)
    decreases |h|
  {
    if h != [] {
      var n := |h| - 1;
      var pre, last := h[..n], h[n];
      if n > 0 { assert InOrder(pre, now); }
      LastAcceptedDecides(ttl, pre, key, now);
      assert Admits(ttl, h, Some(key), now)
          == (Admits(ttl, pre, Some(key), now)
              && (last.accepted && last.key == Some(key) ==> Expired(ttl, last.time, now))) by {
        SplitAdmits(ttl, pre, last, key, now);
        assert h == pre + [last];
      }
      LastAcceptedIsEarlier(h, key, now, last.time);
      LastAcceptedIsEarlier(pre, key, last.time, last.time);
    }
  }

  lemma SplitAdmits(ttl: int, pre: seq<Attempt>, last: Attempt, key: string, now: real)
    requires key != ""
    ensures Admits(ttl, pre + [last], Some(key), now)
       <==> && Admits(ttl, pre, Some(key), now)
            && (last.accepted && last.key == Some(key) ==> Expired(ttl, last.time, now))
  {
    var h := pre + [last];
    forall i | 0 <= i < |pre|
      ensures h[i] == pre[i]
    {
    }
    assert h[|pre|] == last;
  }

  lemma {:induction false} LastAcceptedIsEarlier(h: seq<Attempt>, key: string, clock: real, bound: real)
    requires InOrder(h, clock) && (h != [] ==> h[|h| - 1].time <= bound)
    ensures LastAccepted(h, key).Some? ==> LastAccepted(h, key).value <= bound
    decreases |h|
  {
    if h != [] {
      LastAcceptedIsEarlier(h[..|h| - 1], key, h[|h| - 1].time, bound);
    }
  }

  lemma AttemptLogged(ttl: int, h: seq<Attempt>, clock: real, a: Attempt)
    requires Honest(ttl, h) && InOrder(h, clock) && clock <= a.time
    requires a.accepted <==> Admits(ttl, h, a.key, a.time)
    ensures Honest(ttl, h + [a]) && InOrder(h + [a], a.time)
  {
    var all := h + [a];
    assert all[..|h|] == h;
    if h != [] { assert InOrder(h, a.time); }
    forall i | 0 <= i < |all|
      ensures all[i].accepted <==> Admits(ttl, all[..i], all[i].key, all[i].time)
    {
      if i < |h| { assert all[..i] == h[..i]; }
    }
  }

  /** The tracker's marks are the accepted attempts. */
  ghost predicate MarksAreAccepted(calls: seq<Call>, h: seq<Attempt>) {
    forall key | key != "" :: LastMark(calls, key) == LastAccepted(h, key)
  }

  lemma LastMarkOfLonger(calls: seq<Call>, call: Call, key: string)
    ensures LastMark(calls + [call], key) == if call.Mark? && call.key == key then Some(call.time) else LastMark(calls, key)
  {
    assert (calls + [call])[..|calls|] == calls;
  }

  lemma LastAcceptedOfLonger(h: seq<Attempt>, a: Attempt, key: string)
    ensures LastAccepted(h + [a], key) == if a.accepted && a.key == Some(key) then Some(a.time) else LastAccepted(h, key)
  {
    assert (h + [a])[..|h|] == h;
  }

  lemma MarksStayAccepted(calls: seq<Call>, h: seq<Attempt>, key: Option<string>, now: real, accepted: bool)
    requires MarksAreAccepted(calls, h) && (!accepted ==> Keyed(key))
    ensures MarksAreAccepted(CallsFor(calls, key, now, accepted), h + [Attempt(key, now, accepted)])
  {
    forall k | k != ""
      ensures LastMark(CallsFor(calls, key, now, accepted), k) == LastAccepted(h + [Attempt(key, now, accepted)], k)
    {
      LastAcceptedOfLonger(h, Attempt(key, now, accepted), k);
      if Keyed(key) {
        LastMarkOfLonger(calls, Check(key.value, now), k);
        LastMarkOfLonger(calls + [Check(key.value, now)], Mark(key.value, now), k);
      }
    }
  }

  lemma TrackerDecides(ttl: int, calls: seq<Call>, h: seq<Attempt>, key: string, clock: real, now: real)
    requires MarksAreAccepted(calls, h) && InOrder(h, clock) && clock <= now && key != ""
    requires OrderedUpTo(calls, now)
    ensures Duplicate(ttl, calls, key, now) && !Forgotten(ttl, calls, key) <==> !Admits(ttl, h, Some(key), now)
  {
    InOrderLater(h, clock, now);
    LastAcceptedDecides(ttl, h, key, now);
    ForgottenHasExpired(ttl, calls, key, now);
  }

  /** A mark that follows a negative answer is guarded. */
  lemma CallsStayGuarded(ttl: int, calls: seq<Call>, key: Option<string>, now: real)
    requires Keyed(key) && OrderedUpTo(calls, now) && Guarded(ttl, calls)
    ensures var accepted := !Answer(ttl, calls, key.value, now);
            && OrderedUpTo(CallsFor(calls, key, now, accepted), now)
            && Guarded(ttl, CallsFor(calls, key, now, accepted))
  {
    var check := Check(key.value, now);
    OrderedGrows(calls, now, check);
    GuardedGrows(ttl, calls, check);
    if !Answer(ttl, calls, key.value, now) {
      assert (calls + [check])[..|calls|] == calls;
      OrderedGrows(calls + [check], now, Mark(key.value, now));
      GuardedGrows(ttl, calls + [check], Mark(key.value, now));
    }
  }

  /** What an attempt asks of the tracker. */
  ghost function CallsFor(calls: seq<Call>, key: Option<string>, now: real, accepted: bool): seq<Call> {
    if !Keyed(key) then calls
    else if accepted then calls + [Check(key.value, now)] + [Mark(key.value, now)]
    else calls + [Check(key.value, now)]
  }

  /** The tracker's calls and the attempts tell the same story, up to `clock`. */
  ghost predicate Consistent(ttl: int, calls: seq<Call>, h: seq<Attempt>, clock: real) {
    && OrderedUpTo(calls, clock) && Guarded(ttl, calls)
    && Honest(ttl, h) && InOrder(h, clock)
    && MarksAreAccepted(calls, h)
  }

  /** An attempt that asks the tracker is decided by the specification, and the story goes on. */
  lemma AttemptKeepsConsistent(ttl: int, calls: seq<Call>, h: seq<Attempt>, clock: real, key: Option<string>, now: real)
    requires Consistent(ttl, calls, h, clock) && clock <= now
    ensures var accepted := Admits(ttl, h, key, now);
            && (Keyed(key) ==> accepted == !(Duplicate(ttl, calls, key.value, now) && !Forgotten(ttl, calls, key.value)))
            && Consistent(ttl, CallsFor(calls, key, now, accepted), h + [Attempt(key, now, accepted)], now)
  {
    OrderedLater(calls, clock, now);
    if Keyed(key) {
      TrackerDecides(ttl, calls, h, key.value, clock, now);
      AnswerWithAnyClock(ttl, calls, key.value, now);
      CallsStayGuarded(ttl, calls, key, now);
    }
    MarksStayAccepted(calls, h, key, now, Admits(ttl, h, key, now));
    AttemptLogged(ttl, h, clock, Attempt(key, now, Admits(ttl, h, key, now)));
  }

  datatype SingleResult = Skipped | Created | Raised

  datatype BatchSummary = BatchSummary(inserted: nat, errors: nat, firstError: Option<string>)

  class IngestionJobs {
    const tracker: IdempotencyKeyTracker
    var database: seq<string>
    ghost var attempts: seq<Attempt>
    ghost var clock: real

    ghost predicate Valid()
      reads this, tracker
    {
      tracker.Valid() && Consistent(tracker.ttl, tracker.calls, attempts, clock)
    }

    constructor (ttl: int, ghost now: real)
      ensures Valid() && fresh(tracker) && tracker.ttl == ttl && clock == now
      ensures database == [] && attempts == []
    {
      tracker := new IdempotencyKeyTracker(ttl);
      database, attempts, clock := [], [], now;
      new;
      assert forall key :: LastMark([], key) == LastAccepted([], key);
    }

    /** Check and mark, with no await between them. */
    method CheckAndMark(key: Option<string>, now: real) returns (accepted: bool)
      requires Valid() && clock <= now
      modifies this`attempts, this`clock, tracker
      ensures Valid() && clock == now
      ensures accepted <==> Admits(tracker.ttl, old(attempts), key, now)
      ensures attempts == old(attempts) + [Attempt(key, now, accepted)]
    {
      AttemptKeepsConsistent(tracker.ttl, tracker.calls, attempts, clock, key, now);
      accepted := true;
      if Keyed(key) {
        var duplicate := tracker.IsDuplicate(key.value, now);
        if duplicate {
          accepted := false;
        } else {
          tracker.MarkSeen(key.value, now);
        }
      }
      attempts, clock := attempts + [Attempt(key, now, accepted)], now;
    }

    /** The key is marked before the insert, so a failed insert blocks its retries too. */
    method IngestApiSingle(request: string, key: Option<string>, now: real, insertFails: bool) returns (result: SingleResult)
      requires Valid() && clock <= now
      modifies this, tracker
      ensures Valid() && clock == now
      ensures result.Skipped? <==> !Admits(tracker.ttl, old(attempts), key, now)
      ensures !result.Skipped? ==> (result == if insertFails then Raised else Created)
      ensures database == old(database) + if result.Created? then [request] else []
      ensures attempts == old(attempts) + [Attempt(key, now, !result.Skipped?)]
    {
      var accepted := CheckAndMark(key, now);
      if !accepted {
        return Skipped;
      }
      if insertFails {
        return Raised;
      }
      database := database + [request];
      return Created;
    }

    method IngestApiBatch(requests: seq<string>, prefix: Option<string>, now: real, insertError: Option<string>)
      returns (summary: BatchSummary)
      requires Valid() && clock <= now
      modifies this, tracker
      ensures Valid() && clock == now
      ensures var accepted := Admits(tracker.ttl, old(attempts), BatchKey(prefix, |requests|), now);
              && attempts == old(attempts) + [Attempt(BatchKey(prefix, |requests|), now, accepted)]
              && database == old(database) + (if accepted && insertError.None? then requests else [])
              && (!accepted ==> summary == BatchSummary(0, 0, Some("Batch already processed (duplicate key)")))
              && (accepted && (requests == [] || insertError.None?) ==> summary == BatchSummary(|requests|, 0, None))
              && (accepted && requests != [] && insertError.Some? ==> summary == BatchSummary(0, |requests|, insertError))
    {
      var accepted := CheckAndMark(BatchKey(prefix, |requests|), now);
      if !accepted {
        return BatchSummary(0, 0, Some("Batch already processed (duplicate key)"));
      }
      if requests != [] && insertError.Some? {
        return BatchSummary(0, |requests|, insertError);
      }
      database := database + requests;
      return BatchSummary(|requests|, 0, None);
    }
  }
}
