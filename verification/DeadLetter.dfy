/** The consumer loop of services/processor/main.py: messages that cannot be processed are
    counted per (partition, offset) and handed to the dead-letter topic at the third failure.

    Which message is delivered next, and how often the broker delivers it again, is an input.
    The hand-over itself may fail unnoticed; only the attempt is claimed. */
module DeadLetter {
  import opened Options

  const MAX_RETRIES: nat := 3

  datatype Key = Key(partition: int, offset: int)

  /** What the bytes of a message decode to. */
  datatype Content = NotJson(error: string) | NotAnObject | Event(eventType: Option<string>, payload: Option<string>)

  datatype Message = Message(key: Key, content: Content)

  /** An exception the loop does not catch ends it. */
  datatype Verdict = Processed | Rejected(reason: string) | Escaped

  function Judge(content: Content): Verdict {
    match content
    case NotJson(error) => Rejected(error)
    case NotAnObject => Escaped
    case Event(eventType, payload) =>
      if eventType.None? || payload.None? then Rejected("event missing 'event_type' or 'payload'") else Processed
  }

  /** What is rejected: text that is no JSON, and an object that lacks the type or the payload.
      JSON that is no object is not rejected but ends the loop. */
  lemma Judges(content: Content)
    ensures content.NotJson? ==> Judge(content) == Rejected(content.error)
    ensures content.NotAnObject? ==> Judge(content) == Escaped
    ensures content.Event? && content.eventType.Some? && content.payload.Some? ==> Judge(content) == Processed
    ensures content.Event? && (content.eventType.None? || content.payload.None?) ==>
              Judge(content) == Rejected("event missing 'event_type' or 'payload'")
  {
  }

  // ------------------------------------------------------------- the specification

  /** Failing deliveries of the message since it was last processed. */
  function FailuresSince(h: seq<Message>, key: Key): nat {
    if h == [] then 0
    else
      var pre, last := h[..|h| - 1], h[|h| - 1];
      if last.key != key then FailuresSince(pre, key)
      else
        match Judge(last.content)
        case Processed => 0
        case Rejected(_) => FailuresSince(pre, key) + 1
        case Escaped => FailuresSince(pre, key)
  }

  /** Every third of them is forwarded. */
  predicate IsForwarded(h: seq<Message>, m: Message) {
    Judge(m.content).Rejected? && (FailuresSince(h, m.key) + 1) % MAX_RETRIES == 0
  }

  datatype Forward = Forward(key: Key, reason: string)

  function Forwards(h: seq<Message>): seq<Forward> {
    if h == [] then []
    else
      var pre, last := h[..|h| - 1], h[|h| - 1];
      Forwards(pre) + if IsForwarded(pre, last) then [Forward(last.key, Judge(last.content).reason)] else []
  }

  // ------------------------------------------------------------- the counters

  /** What one delivery does to the counters. */
  function Step(counts: map<Key, nat>, m: Message): map<Key, nat> {
    match Judge(m.content)
    case Processed => counts - {m.key}
    case Escaped => counts
    case Rejected(_) =>
      var attempt := (if m.key in counts then counts[m.key] else 0) + 1;
      if attempt >= MAX_RETRIES then counts - {m.key} else counts[m.key := attempt]
  }

  function CountsAfter(h: seq<Message>): map<Key, nat> {
    if h == [] then map[] else Step(CountsAfter(h[..|h| - 1]), h[|h| - 1])
  }

  /** The counter of a message; none is kept when it would be zero. */
  function Count(h: seq<Message>, key: Key): nat {
    if key in CountsAfter(h) then CountsAfter(h)[key] else 0
  }

  /** The counters hold the failures since the last success, less those already forwarded. */
  lemma {:induction false} CountIsRemainder(h: seq<Message>, key: Key)
    ensures Count(h, key) == FailuresSince(h, key) % 3
    ensures key in CountsAfter(h) ==> 1 <= CountsAfter(h)[key] <= 2
  {
    if h != [] {
      CountIsRemainder(h[..|h| - 1], key);
    }
  }

  /** The delivery is forwarded exactly when the counter reaches the limit. */
  lemma ForwardedAtLimit(h: seq<Message>, m: Message)
    requires Judge(m.content).Rejected?
    ensures IsForwarded(h, m) <==> Count(h, m.key) + 1 >= 3
    ensures IsForwarded(h, m) <==> (FailuresSince(h, m.key) + 1) % 3 == 0
  {
    CountIsRemainder(h, m.key);
  }

  // ------------------------------------------------------------- what follows

  /** The deliveries of one message. */
  function OfKey(h: seq<Message>, key: Key): seq<Message> {
    if h == [] then []
    else OfKey(h[..|h| - 1], key) + if h[|h| - 1].key == key then [h[|h| - 1]] else []
  }

  lemma {:induction false} OnlyOwnDeliveries(h: seq<Message>, key: Key)
    ensures FailuresSince(h, key) == FailuresSince(OfKey(h, key), key)
  {
    if h != [] {
      var pre, last := h[..|h| - 1], h[|h| - 1];
      OnlyOwnDeliveries(pre, key);
      if last.key == key {
        var own := OfKey(h, key);
        assert own == OfKey(pre, key) + [last];
        assert own[|own| - 1] == last && own[..|own| - 1] == OfKey(pre, key);
      } else {
        assert OfKey(h, key) == OfKey(pre, key);
      }
    }
  }

  /** How a message is treated does not depend on the deliveries of any other. */
  lemma Independent(h: seq<Message>, h': seq<Message>, m: Message)
    requires OfKey(h, m.key) == OfKey(h', m.key)
    ensures IsForwarded(h, m) <==> IsForwarded(h', m)
    ensures Count(h, m.key) == Count(h', m.key)
  {
    OnlyOwnDeliveries(h, m.key);
    OnlyOwnDeliveries(h', m.key);
    CountIsRemainder(h, m.key);
    CountIsRemainder(h', m.key);
  }

  function Failures(h: seq<Message>, key: Key): nat {
    if h == [] then 0
    else Failures(h[..|h| - 1], key)
         + if h[|h| - 1].key == key && Judge(h[|h| - 1].content).Rejected? then 1 else 0
  }

  function ForwardsOf(forwards: seq<Forward>, key: Key): nat {
    if forwards == [] then 0
    else ForwardsOf(forwards[..|forwards| - 1], key) + if forwards[|forwards| - 1].key == key then 1 else 0
  }

  /** Failures that a later success made forgotten. */
  function Forgiven(h: seq<Message>, key: Key): nat {
    if h == [] then 0
    else
      var pre, last := h[..|h| - 1], h[|h| - 1];
      Forgiven(pre, key) + if last.key == key && Judge(last.content).Processed? then Count(pre, key) else 0
  }

  /** No failure is lost or counted twice: each is forwarded as one of three, still counted, or
      was forgiven by a success. */
  lemma {:induction false} Conservation(h: seq<Message>, key: Key)
    ensures Failures(h, key) == 3 * ForwardsOf(Forwards(h), key) + Count(h, key) + Forgiven(h, key)
  {
    if h != [] {
      var pre, last := h[..|h| - 1], h[|h| - 1];
      Conservation(pre, key);
      ForwardsGrow(pre, last, key);
      assert pre + [last] == h;
      CountGrows(pre, last, key);
    }
  }

  lemma ForwardsGrow(h: seq<Message>, m: Message, key: Key)
    ensures ForwardsOf(Forwards(h + [m]), key)
         == ForwardsOf(Forwards(h), key) + if m.key == key && IsForwarded(h, m) then 1 else 0
  {
    assert (h + [m])[..|h|] == h;
    if IsForwarded(h, m) {
      var f := Forward(m.key, Judge(m.content).reason);
      assert (Forwards(h) + [f])[..|Forwards(h)|] == Forwards(h);
    } else {
      assert Forwards(h + [m]) == Forwards(h);
    }
  }

  lemma CountGrows(h: seq<Message>, m: Message, key: Key)
    ensures Count(h + [m], key)
         == if m.key != key || Judge(m.content).Escaped? then Count(h, key)
            else if Judge(m.content).Processed? then 0
            else if IsForwarded(h, m) then Count(h, key) + 1 - MAX_RETRIES
            else Count(h, key) + 1
  {
    assert (h + [m])[..|h|] == h;
    CountIsRemainder(h, key);
    if Judge(m.content).Rejected? { ForwardedAtLimit(h, m); }
  }

  /** A message that is never processed, however its deliveries are mixed with others, is
      forwarded once for every three of them. */
  lemma PoisonMessage(h: seq<Message>, key: Key)
    requires forall i | 0 <= i < |h| && h[i].key == key :: Judge(h[i].content).Rejected?
    ensures ForwardsOf(Forwards(h), key) == |OfKey(h, key)| / 3
  {
    Conservation(h, key);
    CountIsRemainder(h, key);
    NothingForgiven(h, key);
  }

  lemma {:induction false} NothingForgiven(h: seq<Message>, key: Key)
    requires forall i | 0 <= i < |h| && h[i].key == key :: Judge(h[i].content).Rejected?
    ensures Forgiven(h, key) == 0 && Failures(h, key) == |OfKey(h, key)|
  {
    if h != [] {
      NothingForgiven(h[..|h| - 1], key);
    }
  }

  // ------------------------------------------------------------- the loop

  class Processor {
    var retryCounts: map<Key, nat>
    var forwarded: seq<Forward>
    ghost var deliveries: seq<Message>

    ghost predicate Valid()
      reads this
    {
      retryCounts == CountsAfter(deliveries) && forwarded == Forwards(deliveries)
    }

    constructor ()
      ensures Valid() && deliveries == [] && retryCounts == map[] && forwarded == []
    {
      retryCounts, forwarded, deliveries := map[], [], [];
    }

    /** One message; the result is false when an exception escapes. */
    method Handle(m: Message) returns (goesOn: bool)
      requires Valid()
      modifies this
      ensures Valid() && deliveries == old(deliveries) + [m]
      ensures goesOn <==> !Judge(m.content).Escaped?
      ensures forall key | key in retryCounts :: 1 <= retryCounts[key] <= 2
      ensures retryCounts - {m.key} == old(retryCounts) - {m.key}
      ensures forwarded == old(forwarded)
                           + if IsForwarded(old(deliveries), m) then [Forward(m.key, Judge(m.content).reason)] else []
    {
      var attempt := (if m.key in retryCounts then retryCounts[m.key] else 0) + 1;
      goesOn := true;
      match Judge(m.content) {
        case Processed =>
          retryCounts := retryCounts - {m.key};
        case Escaped =>
          goesOn := false;
        case Rejected(reason) =>
          ForwardedAtLimit(deliveries, m);
          if attempt >= MAX_RETRIES {
            forwarded := forwarded + [Forward(m.key, reason)];
            retryCounts := retryCounts - {m.key};
          } else {
            retryCounts := retryCounts[m.key := attempt];
          }
      }
      assert (deliveries + [m])[..|deliveries|] == deliveries;
      deliveries := deliveries + [m];
      forall key | key in retryCounts
        ensures 1 <= retryCounts[key] < MAX_RETRIES
      {
        CountIsRemainder(deliveries, key);
      }
    }

    /** Takes messages as they come, until one raises an exception that is not caught. */
    method Consume(messages: seq<Message>) returns (taken: nat)
      requires Valid()
      modifies this
      ensures taken <= |messages|
      ensures Valid() && deliveries == old(deliveries) + messages[..taken]
      ensures forall i | 0 <= i < taken - 1 :: !Judge(messages[i].content).Escaped?
      ensures taken < |messages| ==> taken >= 1 && Judge(messages[taken - 1].content).Escaped?
    {
      taken := 0;
      while taken < |messages|
        invariant taken <= |messages|
        invariant Valid() && deliveries == old(deliveries) + messages[..taken]
        invariant forall i | 0 <= i < taken :: !Judge(messages[i].content).Escaped?
      {
        var goesOn := Handle(messages[taken]);
        taken := taken + 1;
        if !goesOn {
          return;
        }
      }
    }
  }
}
