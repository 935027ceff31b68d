/**
 The event broker: a lossy fan-out with monotone identifiers, a bounded history
 for replay, and a bounded queue for each subscriber that gives up its oldest.

 The ghost log is what it stands for: everything ever published, in order.
 */
module Broker {
  import opened Prelude

  /** An event. A time of zero is one not set; encodable says whether its payload has a JSON form. */
  datatype Event = Event(id: nat, topic: string, severity: string, time: int, encodable: bool)

  const BLANK := Event(0, "", "", 0, true)

  function Stamped(e: Event, id: nat, now: int): Event {
    e.(id := id, time := if e.time == 0 then now else e.time, severity := if e.severity == "" then "INFO" else e.severity)
  }

  /** Publishing gives an event its identifier, and a severity and a time only where it has none of its own. */
  lemma StampedExactly(e: Event, id: nat, now: int)
    ensures var evt := Stamped(e, id, now);
            && evt.id == id && evt.topic == e.topic && evt.encodable == e.encodable
            && (e.severity != "" ==> evt.severity == e.severity) && (e.severity == "" ==> evt.severity == "INFO")
            && (e.time != 0 ==> evt.time == e.time) && (e.time == 0 ==> evt.time == now)
  {
  }

  /** One topic filter: the topic itself, or a prefix of it before a star. */
  predicate Wants(want: string, topic: string) {
    want == topic || (want != "" && want[|want| - 1] == '*' && want[..|want| - 1] <= topic)
  }

  lemma WantsExactly(want: string, topic: string)
    ensures Wants(want, topic) <==> want == topic || exists stem: string :: want == stem + "*" && stem <= topic
  {
    if want != "" && want[|want| - 1] == '*' {
      var stem := want[..|want| - 1];
      assert want == stem + "*";
      assert forall other: string :: want == other + "*" ==> other == stem;
    } else {
      assert forall stem: string :: (stem + "*")[|stem|] == '*';
    }
  }

  predicate Matches(topics: seq<string>, topic: string) {
    topics == [] || exists i :: 0 <= i < |topics| && Wants(topics[i], topic)
  }

  lemma MatchesExactly(topics: seq<string>, topic: string)
    ensures Matches(topics, topic) <==> topics == [] || exists want :: want in topics && Wants(want, topic)
  {
    if want :| want in topics && Wants(want, topic) {
      var i :| 0 <= i < |topics| && topics[i] == want;
    }
  }

  function Matching(log: seq<Event>, topics: seq<string>): seq<Event> {
    if log == [] then []
    else
      Matching(log[..|log| - 1], topics)
      + if Matches(topics, log[|log| - 1].topic) then [log[|log| - 1]] else []
  }

  lemma MatchingSnoc(log: seq<Event>, e: Event, topics: seq<string>)
    ensures Matching(log + [e], topics)
            == Matching(log, topics) + if Matches(topics, e.topic) then [e] else []
  {
    assert (log + [e])[..|log|] == log;
  }

  /** Identifiers count from one. */
  predicate Numbered(log: seq<Event>) {
    forall i :: 0 <= i < |log| ==> log[i].id == i + 1
  }

  lemma NumberedSnoc(log: seq<Event>, e: Event)
    requires Numbered(log) && e.id == |log| + 1
    ensures Numbered(log + [e])
  {
  }

  function Last(log: seq<Event>, n: nat): (r: seq<Event>)
    ensures |r| == if n < |log| then n else |log|
  {
    if n < |log| then log[|log| - n..] else log
  }

  lemma LastSlides(log: seq<Event>, e: Event, n: nat)
    requires 0 < n <= |log|
    ensures Last(log + [e], n) == Last(log, n)[1..] + [e]
  {
  }

  // ---------- replay ----------

  /** The events with an identifier above the one given. */
  function Above(log: seq<Event>, after: nat): seq<Event> {
    if log == [] then []
    else Above(log[..|log| - 1], after) + if log[|log| - 1].id > after then [log[|log| - 1]] else []
  }

  /** What was published after an identifier, once it is a position in the log. */
  function Since(log: seq<Event>, after: nat): seq<Event> {
    if after <= |log| then log[after..] else []
  }

  /** Replay over the retained events: the next identifier is a 64-bit sum, and wraps. */
  function Replayed(log: seq<Event>, cap: nat, topics: seq<string>, after: nat): (seq<Event>, bool) {
    var kept := Last(log, cap);
    if kept == [] then ([], after >= |log|)
    else (Matching(Above(kept, after), topics), (after + 1) % TWO_64 >= kept[0].id)
  }

  ghost predicate NothingFellOut(log: seq<Event>, cap: nat, after: nat) {
    forall e :: e in log && e.id > after ==> e in Last(log, cap)
  }

  lemma {:induction false} AllAbove(events: seq<Event>, after: nat)
    requires forall i :: 0 <= i < |events| ==> events[i].id > after
    ensures Above(events, after) == events
  {
    if events != [] {
      AllAbove(events[..|events| - 1], after);
    }
  }

  lemma {:induction false} NoneAbove(events: seq<Event>, after: nat)
    requires forall i :: 0 <= i < |events| ==> events[i].id <= after
    ensures Above(events, after) == []
  {
    if events != [] {
      NoneAbove(events[..|events| - 1], after);
    }
  }

  lemma {:induction false} AboveConcat(older: seq<Event>, newer: seq<Event>, after: nat)
    ensures Above(older + newer, after) == Above(older, after) + Above(newer, after)
  {
    if newer == [] {
      assert older + newer == older;
      assert Above(older, after) + [] == Above(older, after);
    } else {
      var rest := newer[..|newer| - 1];
      var tail := if newer[|newer| - 1].id > after then [newer[|newer| - 1]] else [];
      assert (older + newer)[..|older + newer| - 1] == older + rest;
      AboveConcat(older, rest, after);
      assert (Above(older, after) + Above(rest, after)) + tail == Above(older, after) + (Above(rest, after) + tail);
    }
  }

  /** Of a suffix of the log, the events above an identifier are those published since it. */
  lemma AboveIsSince(log: seq<Event>, lo: nat, after: nat)
    requires Numbered(log) && lo <= |log| && lo <= after
    ensures Above(log[lo..], after) == Since(log, after)
  {
    if after <= |log| {
      assert log[lo..] == log[lo..after] + log[after..];
      AboveConcat(log[lo..after], log[after..], after);
      NoneAbove(log[lo..after], after);
      AllAbove(log[after..], after);
    } else {
      NoneAbove(log[lo..], after);
    }
  }

  lemma NothingFellOutExactly(log: seq<Event>, cap: nat, after: nat)
    requires Numbered(log)
    ensures NothingFellOut(log, cap, after) <==> after >= |log| - |Last(log, cap)|
  {
    var kept := Last(log, cap);
    var lo := |log| - |kept|;
    if after < lo {
      assert log[after] in log && log[after].id == after + 1;
      assert log[after] !in kept;
    } else {
      forall e | e in log && e.id > after ensures e in kept {
        var i :| 0 <= i < |log| && log[i] == e;
        assert kept[i - lo] == e;
      }
    }
  }

  lemma ReplayByPosition(log: seq<Event>, cap: nat, topics: seq<string>, after: nat)
    requires Numbered(log) && after <= MAX_UINT64
    ensures var (out, complete) := Replayed(log, cap, topics, after);
            var lo := |log| - |Last(log, cap)|;
            && (complete <==> lo <= after && !(after == MAX_UINT64 && lo < |log|))
            && (complete ==> out == Matching(Since(log, after), topics))
  {
    var kept := Last(log, cap);
    if kept != [] {
      var lo := |log| - |kept|;
      assert kept[0] == log[lo];
      NextIdentifier(after, lo + 1);
      if lo <= after {
        assert kept == log[lo..];
        AboveIsSince(log, lo, after);
      }
    }
  }

  /**
   Replay is complete exactly when everything published after the identifier is
   still retained, and then it is exactly that, in order. One identifier is
   refused although nothing is missing: the greatest, whose successor is zero.
   */
  lemma ReplayIsExact(log: seq<Event>, cap: nat, topics: seq<string>, after: nat)
    requires Numbered(log) && after <= MAX_UINT64
    ensures var (out, complete) := Replayed(log, cap, topics, after);
            && (complete <==> NothingFellOut(log, cap, after) && !(after == MAX_UINT64 && Last(log, cap) != []))
            && (complete ==> out == Matching(Since(log, after), topics))
  {
    NothingFellOutExactly(log, cap, after);
    ReplayByPosition(log, cap, topics, after);
  }

  lemma NextIdentifier(after: nat, id: nat)
    requires after <= MAX_UINT64 && 0 < id
    ensures (after + 1) % TWO_64 >= id <==> after + 1 >= id && after != MAX_UINT64
  {
    if after == MAX_UINT64 {
      assert (after + 1) % TWO_64 == 0;
    }
  }

  /** What one more event adds to those above an identifier that match. */
  lemma FilterStep(kept: seq<Event>, i: nat, after: nat, topics: seq<string>)
    requires i < |kept|
    ensures Matching(Above(kept[..i + 1], after), topics)
            == if kept[i].id > after && Matches(topics, kept[i].topic)
               then Matching(Above(kept[..i], after), topics) + [kept[i]]
               else Matching(Above(kept[..i], after), topics)
  {
    assert kept[..i + 1][..i] == kept[..i];
    var before := Above(kept[..i], after);
    MatchingSnoc(before, kept[i], topics);
    assert before + [] == before;
    assert Matching(before, topics) + [] == Matching(before, topics);
  }

  // ---------- one subscriber's channel ----------

  /** A bounded queue, with what has been taken from it and what has been given up as history. */
  datatype Channel = Channel(cap: nat, queue: seq<Event>, received: seq<Event>, lost: seq<Event>)

  /** A send into a queue that has room. */
  function Enqueue(c: Channel, e: Event): Channel
    requires |c.queue| < c.cap
  {
    c.(queue := c.queue + [e])
  }

  /** The select with a receive and a default, made by the publisher. */
  function Discard(c: Channel): Channel {
    if c.queue == [] then c else c.(queue := c.queue[1..], lost := c.lost + [c.queue[0]])
  }

  /** The consumer receives, when there is something to receive. */
  function Receive(c: Channel): Channel {
    if c.queue == [] then c else c.(queue := c.queue[1..], received := c.received + [c.queue[0]])
  }

  /**
   Conservation, against the matching events published since subscribing: the
   queue is their newest suffix, and each one before it was received or lost, once.
   */
  ghost predicate Conserves(c: Channel, due: seq<Event>) {
    && 0 < c.cap && |c.queue| <= c.cap
    && |c.received| + |c.lost| + |c.queue| == |due|
    && c.queue == due[|due| - |c.queue|..]
    && multiset(c.received) + multiset(c.lost) == multiset(due[..|due| - |c.queue|])
    && (c.lost == [] ==> c.received == due[..|due| - |c.queue|])
  }

  lemma TakeOne(c: Channel, due: seq<Event>)
    requires Conserves(c, due) && c.queue != []
    ensures var k := |due| - |c.queue|;
            c.queue[0] == due[k] && c.queue[1..] == due[k + 1..] && due[..k + 1] == due[..k] + [due[k]]
  {
  }

  lemma ReceiveConserves(c: Channel, due: seq<Event>)
    requires Conserves(c, due)
    ensures Conserves(Receive(c), due)
  {
    if c.queue != [] {
      TakeOne(c, due);
    }
  }

  lemma DiscardConserves(c: Channel, due: seq<Event>)
    requires Conserves(c, due)
    ensures Conserves(Discard(c), due)
  {
    if c.queue != [] {
      TakeOne(c, due);
    }
  }

  lemma SnocSlices(due: seq<Event>, e: Event, k: nat)
    requires k <= |due|
    ensures (due + [e])[k..] == due[k..] + [e] && (due + [e])[..k] == due[..k]
  {
  }

  lemma SendConserves(c: Channel, due: seq<Event>, e: Event)
    requires Conserves(c, due) && |c.queue| < c.cap
    ensures Conserves(Enqueue(c, e), due + [e])
  {
    var k := |due| - |c.queue|;
    SnocSlices(due, e, k);
  }

  /** n receives. */
  function Receives(c: Channel, n: nat): Channel
    decreases n
  {
    if n == 0 then c else Receives(Receive(c), n - 1)
  }

  lemma {:induction false} ReceivesConserve(c: Channel, due: seq<Event>, n: nat)
    requires Conserves(c, due)
    ensures Conserves(Receives(c, n), due) && Receives(c, n).cap == c.cap
    decreases n
  {
    if n > 0 {
      ReceiveConserves(c, due);
      ReceivesConserve(Receive(c), due, n - 1);
    }
  }

  /** Receiving takes from the queue and touches nothing else but what was received. */
  lemma {:induction false} ReceivesOnlyTake(c: Channel, n: nat)
    ensures var r := Receives(c, n); r.lost == c.lost && r.cap == c.cap && |r.queue| <= |c.queue|
    decreases n
  {
    if n > 0 {
      ReceivesOnlyTake(Receive(c), n - 1);
    }
  }

  /**
   The three selects of one send, with any number of receives by the consumer
   before and between them.
   */
  function Offer(c: Channel, e: Event, r0: nat, r1: nat, r2: nat): Channel {
    var c0 := Receives(c, r0);
    if |c0.queue| < c0.cap then Enqueue(c0, e)
    else
      var c2 := Receives(Discard(Receives(c0, r1)), r2);
      if |c2.queue| < c2.cap then Enqueue(c2, e) else c2.(lost := c2.lost + [e])
  }

  /** What a send comes to: the accounts grow by the event, it is queued last, and at most one was given up. */
  ghost predicate Sent(c: Channel, c': Channel, due: seq<Event>, e: Event) {
    && Conserves(c', due + [e]) && c'.cap == c.cap
    && c'.queue != [] && c'.queue[|c'.queue| - 1] == e
    && |c'.lost| <= |c.lost| + 1
  }

  /** The second and third selects, made of a full queue. */
  lemma FullConserves(c0: Channel, due: seq<Event>, e: Event, r1: nat, r2: nat)
    requires Conserves(c0, due) && |c0.queue| == c0.cap
    ensures var c2 := Receives(Discard(Receives(c0, r1)), r2);
            |c2.queue| < c2.cap && Sent(c0, Enqueue(c2, e), due, e)
  {
    var c1 := Receives(c0, r1);
    ReceivesConserve(c0, due, r1);
    ReceivesOnlyTake(c0, r1);
    DiscardConserves(c1, due);
    ReceivesConserve(Discard(c1), due, r2);
    ReceivesOnlyTake(Discard(c1), r2);
    SendConserves(Receives(Discard(c1), r2), due, e);
  }

  /**
   However the receives fall, the newest event is enqueued, last, and everything
   is accounted for: the fallback that would count it dropped is never reached.
   */
  lemma OfferConserves(c: Channel, due: seq<Event>, e: Event, r0: nat, r1: nat, r2: nat)
    requires Conserves(c, due)
    ensures Sent(c, Offer(c, e, r0, r1, r2), due, e)
  {
    var c0 := Receives(c, r0);
    ReceivesConserve(c, due, r0);
    ReceivesOnlyTake(c, r0);
    if |c0.queue| < c0.cap {
      SendConserves(c0, due, e);
    } else {
      FullConserves(c0, due, e, r1, r2);
    }
  }

  // ---------- subscriptions and the broker ----------

  class Subscription {
    const id: nat
    const topics: seq<string>
    const cap: nat
    ghost const start: nat
    var ch: seq<Event>
    var dropped: nat
    var closed: bool
    ghost var received: seq<Event>
    ghost var lost: seq<Event>

    ghost function Chan(): Channel
      reads this
    {
      Channel(cap, ch, received, lost)
    }

    /** Conservation against the broker's log. Naming the events due keeps it folded until they are named. */
    ghost predicate Accounts(log: seq<Event>)
      reads this
    {
      && start <= |log| && dropped == |lost|
      && forall due :: due == Matching(log[start..], topics) ==> Conserves(Chan(), due)
    }

    ghost predicate NewestIs(e: Event)
      reads this
    {
      ch != [] && ch[|ch| - 1] == e
    }

    constructor (id: nat, topics: seq<string>, cap: nat, ghost start: nat)
      ensures this.id == id && this.topics == topics && this.cap == cap && this.start == start
      ensures ch == [] && received == [] && lost == [] && dropped == 0 && !closed
    {
      this.id, this.topics, this.cap, this.start := id, topics, cap, start;
      ch, dropped, closed, received, lost := [], 0, false, [], [];
    }

    method WantsTopic(topic: string) returns (ok: bool)
      ensures ok <==> Matches(topics, topic)
    {
      if |topics| == 0 {
        return true;
      }
      for i := 0 to |topics|
        invariant forall k :: 0 <= k < i ==> !Wants(topics[k], topic)
      {
        var want := topics[i];
        if want == topic {
          return true;
        }
        if want != "" && want[|want| - 1] == '*' && want[..|want| - 1] <= topic {
          return true;
        }
      }
      return false;
    }

    /** The consumer's receive. A closed channel is drained before it reports closed. */
    method ReceiveOne() returns (e: Option<Event>, ok: bool)
      modifies `ch, `received
      ensures Chan() == Receive(old(Chan()))
      ensures e == if old(ch) == [] then None else Some(old(ch)[0])
      ensures ok <==> old(ch) != [] || !closed
      ensures forall log :: old(Accounts(log)) ==> Accounts(log)
    {
      ghost var before := Chan();
      forall log | Accounts(log) ensures Conserves(Receive(before), Matching(log[start..], topics)) {
        ReceiveConserves(before, Matching(log[start..], topics));
      }
      if ch == [] {
        return None, !closed;
      }
      e, ok := Some(ch[0]), true;
      received := received + [ch[0]];
      ch := ch[1..];
    }

    /** The consumer, on its own goroutine, takes what it takes. */
    method ConsumerRuns() returns (ghost n: nat)
      modifies `ch, `received
      ensures Chan() == Receives(old(Chan()), n)
    {
      n := 0;
      var k: nat :| 0 <= k <= |ch|;
      n := k;
      var i := 0;
      while i < k
        invariant 0 <= i <= k
        invariant Receives(old(Chan()), k) == Receives(Chan(), k - i)
        invariant lost == old(lost)
      {
        if ch != [] {
          received := received + [ch[0]];
          ch := ch[1..];
        }
        i := i + 1;
      }
    }

    /** The send of one event, under the broker's lock and against a consumer that is not. */
    method Send(e: Event) returns (ghost r0: nat, ghost r1: nat, ghost r2: nat)
      requires 0 < cap && |ch| <= cap
      modifies `ch, `received, `lost, `dropped
      ensures Chan() == Offer(old(Chan()), e, r0, r1, r2)
      ensures dropped - old(dropped) == |lost| - |old(lost)|
    {
      r0, r1, r2 := 0, 0, 0;
      r0 := ConsumerRuns();
      ReceivesOnlyTake(old(Chan()), r0);
      if |ch| < cap {
        ch := ch + [e];
      } else {
        r1, r2 := SendToFull(e);
      }
    }

    /** The second and third selects: give up the oldest, then try once more. */
    method SendToFull(e: Event) returns (ghost r1: nat, ghost r2: nat)
      requires 0 < cap
      requires |ch| <= cap
      modifies `ch, `received, `lost, `dropped
      ensures var c2 := Receives(Discard(Receives(old(Chan()), r1)), r2);
              |c2.queue| < c2.cap == cap && Chan() == Enqueue(c2, e)
      ensures dropped - old(dropped) == |lost| - |old(lost)|
    {
      r1 := ConsumerRuns();
      ReceivesOnlyTake(old(Chan()), r1);
      ghost var c1 := Chan();
      if |ch| > 0 {
        lost := lost + [ch[0]];
        ch := ch[1..];
        dropped := dropped + 1;
      }
      ghost var c2 := Chan();
      assert c2 == Discard(c1);
      r2 := ConsumerRuns();
      ReceivesOnlyTake(c2, r2);
      if |ch| < cap {
        ch := ch + [e];
      } else {
        // The last fallback counts e as dropped. It is never reached.
        assert false;
      }
    }

    /** One subscriber's share of a publication. */
    method Offered(e: Event, ghost before: seq<Event>)
      requires Accounts(before) && Matches(topics, e.topic)
      modifies `ch, `received, `lost, `dropped
      ensures Accounts(before + [e])
      ensures NewestIs(e)
      ensures |lost| <= |old(lost)| + 1
    {
      ghost var due := Matching(before[start..], topics);
      ghost var was := Chan();
      assert Conserves(was, due);
      ghost var r0, r1, r2 := Send(e);
      OfferConserves(was, due, e, r0, r1, r2);
      MatchingSnoc(before[start..], e, topics);
      assert (before + [e])[start..] == before[start..] + [e];
    }
  }

  lemma NotOffered(sub: Subscription, before: seq<Event>, e: Event)
    requires sub.Accounts(before) && !Matches(sub.topics, e.topic)
    ensures sub.Accounts(before + [e])
  {
    var due := Matching(before[sub.start..], sub.topics);
    MatchingSnoc(before[sub.start..], e, sub.topics);
    assert (before + [e])[sub.start..] == before[sub.start..] + [e];
    assert due + [] == due;
  }

  class Broker {
    var subs: map<nat, Subscription>
    var nextSub: nat
    var seqNo: nat
    var stopped: bool
    /** The replay ring: its first `retained` slots, oldest first. */
    const history: array<Event>
    var retained: nat
    const bufferSize: nat
    ghost var log: seq<Event>

    ghost predicate HistoryIsExact()
      reads this, history
    {
      retained <= history.Length && history[..retained] == Last(log, history.Length)
    }

    ghost predicate Registered()
      reads this, subs.Values
    {
      forall i :: i in subs ==> subs[i].id == i && i <= nextSub && !subs[i].closed
    }

    ghost predicate Valid()
      reads this, history, subs.Values
    {
      && bufferSize > 0
      && seqNo == |log| <= MAX_UINT64 && Numbered(log)
      && HistoryIsExact()
      && Registered()
      && (forall i :: i in subs ==> subs[i].Accounts(log))
      && (stopped ==> subs == map[])
    }

    constructor (bufferSize: nat, historyCap: nat)
      requires bufferSize > 0
      ensures Valid() && log == [] && subs == map[] && !stopped && history.Length == historyCap && fresh(history)
    {
      this.bufferSize := bufferSize;
      history := new Event[historyCap](_ => BLANK);
      subs, nextSub, seqNo, stopped, retained, log := map[], 0, 0, false, 0, [];
    }

    /** A stopped broker hands back a subscription that is already closed. */
    method SubscribeWithBuffer(buffer: int, topics: seq<string>) returns (sub: Subscription)
      requires Valid()
      modifies this
      ensures Valid() && fresh(sub) && log == old(log) && stopped == old(stopped)
      ensures sub.topics == topics && sub.start == |log| && sub.ch == [] && sub.dropped == 0
      ensures sub.cap == if buffer > 0 then buffer else bufferSize
      ensures sub.closed == stopped
      ensures subs == if stopped then old(subs) else old(subs)[sub.id := sub]
      ensures sub.id !in old(subs)
    {
      nextSub := nextSub + 1;
      sub := new Subscription(nextSub, topics, if buffer > 0 then buffer else bufferSize, |log|);
      if stopped {
        sub.closed := true;
        return;
      }
      assert log[|log|..] == [];
      subs := subs[sub.id := sub];
    }

    /** copy(history, history[1:]), element by element. */
    method ShiftLeft()
      requires history.Length > 0
      modifies history
      ensures history[..history.Length - 1] == old(history[..])[1..]
    {
      ghost var before := history[..];
      var i := 0;
      while i < history.Length - 1
        invariant 0 <= i <= history.Length - 1
        invariant forall k :: 0 <= k < i ==> history[k] == before[k + 1]
        invariant forall k :: i <= k < history.Length ==> history[k] == before[k]
      {
        history[i] := history[i + 1];
        i := i + 1;
      }
    }

    method AppendHistory(e: Event)
      requires HistoryIsExact()
      requires retained == history.Length || retained == |log|
      modifies `retained, history
      ensures retained <= history.Length && history[..retained] == Last(log + [e], history.Length)
    {
      if history.Length == 0 {
        assert history[..0] == Last(log + [e], 0);
        return;
      }
      if retained < history.Length {
        ghost var was := history[..retained];
        history[retained] := e;
        retained := retained + 1;
        assert history[..retained] == was + [e];
        return;
      }
      ghost var before := history[..];
      assert before == history[..retained];
      ShiftLeft();
      history[history.Length - 1] := e;
      LastSlides(log, e, history.Length);
      assert history[..retained] == before[1..] + [e];
    }

    method Targets(topic: string) returns (targets: set<nat>)
      ensures targets == set i | i in subs && Matches(subs[i].topics, topic)
    {
      targets := {};
      var todo := subs.Keys;
      while todo != {}
        invariant todo <= subs.Keys
        invariant targets == set i | i in subs && i !in todo && Matches(subs[i].topics, topic)
        decreases todo
      {
        var i :| i in todo;
        todo := todo - {i};
        var wanted := subs[i].WantsTopic(topic);
        if wanted {
          targets := targets + {i};
        }
      }
    }

    /** Everyone whose topics the event matches is sent it; everyone's accounts then cover it. */
    method FanOut(evt: Event, ghost before: seq<Event>)
      requires Registered()
      requires forall i :: i in subs ==> subs[i].Accounts(before)
      modifies subs.Values
      ensures Registered()
      ensures forall i :: i in subs ==> subs[i].Accounts(before + [evt])
      ensures forall i :: i in subs && Matches(subs[i].topics, evt.topic) ==> subs[i].NewestIs(evt)
    {
      ghost var now := before + [evt];
      var targets := Targets(evt.topic);
      forall i | i in subs && i !in targets ensures subs[i].Accounts(now) {
        NotOffered(subs[i], before, evt);
      }
      ghost var all := targets;
      while targets != {}
        invariant targets <= all && Registered()
        invariant forall i :: i in targets ==> subs[i].Accounts(before)
        invariant forall i :: i in subs && i !in targets ==> subs[i].Accounts(now)
        invariant forall i :: i in all && i !in targets ==> subs[i].NewestIs(evt)
        decreases targets
      {
        var i :| i in targets;
        targets := targets - {i};
        subs[i].Offered(evt, before);
      }
    }

    /** The event becomes the log's last, and the newest of the history. */
    method Retain(evt: Event)
      requires HistoryIsExact() && seqNo == |log| && Numbered(log) && evt.id == seqNo + 1
      modifies `seqNo, `retained, `log, history
      ensures log == old(log) + [evt] && seqNo == |log| && Numbered(log) && HistoryIsExact()
    {
      seqNo := seqNo + 1;
      AppendHistory(evt);
      NumberedSnoc(log, evt);
      log := log + [evt];
    }

    /**
     Everything published is in the log, retained as far as the history reaches,
     and last in the queue of every subscriber whose topics it matches.
     */
    method Publish(e: Event, now: int)
      requires Valid() && seqNo < MAX_UINT64
      modifies this, history, subs.Values
      ensures Valid() && subs == old(subs) && stopped == old(stopped)
      ensures stopped ==> log == old(log)
      ensures !stopped ==> log == old(log) + [Stamped(e, |old(log)| + 1, now)]
      ensures !stopped ==> forall i :: i in subs && Matches(subs[i].topics, e.topic) ==> subs[i].NewestIs(log[|log| - 1])
    {
      if stopped {
        return;
      }
      ghost var before := log;
      var evt := Stamped(e, seqNo + 1, now);
      Retain(evt);
      FanOut(evt, before);
    }

    /** The retained events above an identifier that match. */
    method Filter(afterID: nat, topics: seq<string>) returns (out: seq<Event>)
      requires retained <= history.Length
      ensures out == Matching(Above(history[..retained], afterID), topics)
    {
      ghost var kept := history[..retained];
      out := [];
      var i := 0;
      while i < retained
        invariant 0 <= i <= retained
        invariant out == Matching(Above(kept[..i], afterID), topics)
      {
        FilterStep(kept, i, afterID, topics);
        assert kept[i] == history[i];
        if history[i].id > afterID && Matches(topics, history[i].topic) {
          out := out + [history[i]];
        }
        i := i + 1;
      }
      assert kept[..retained] == kept;
    }

    /** What is retained of the log is handed over from an identifier on, when that leaves nothing out. */
    method Replay(afterID: nat, topics: seq<string>) returns (out: seq<Event>, complete: bool)
      requires Valid() && afterID <= MAX_UINT64
      ensures (out, complete) == Replayed(log, history.Length, topics, afterID)
    {
      ghost var kept := history[..retained];
      if retained == 0 {
        assert kept == [];
        return [], afterID >= seqNo;
      }
      assert kept[0] == history[0];
      complete := (afterID + 1) % TWO_64 >= history[0].id;
      out := Filter(afterID, topics);
    }

    method LastID() returns (id: nat)
      requires Valid()
      ensures id == |log|
      ensures log != [] ==> id == log[|log| - 1].id
    {
      id := seqNo;
    }

    /** Unsubscribing, however often. */
    method Close(sub: Subscription)
      requires Valid()
      requires sub.closed || (sub.id in subs && subs[sub.id] == sub)
      modifies this`subs, sub`closed
      ensures Valid() && sub.closed
      ensures subs == if old(sub.closed) then old(subs) else old(subs) - {sub.id}
      ensures sub.id !in subs || subs[sub.id] != sub
    {
      if sub.closed {
        return;
      }
      sub.closed := true;
      subs := subs - {sub.id};
    }

    method CloseAll()
      requires Registered()
      modifies `subs, subs.Values`closed
      ensures subs == map[]
      ensures forall i :: i in old(subs) ==> old(subs)[i].closed
    {
      ghost var all := subs;
      while subs != map[]
        invariant subs.Keys <= all.Keys && forall i :: i in subs ==> subs[i] == all[i]
        invariant forall i :: i in all && i !in subs ==> all[i].closed
        decreases |subs|
      {
        var id :| id in subs;
        if !subs[id].closed {
          subs[id].closed := true;
        }
        subs := subs - {id};
      }
    }

    /** Every subscription is closed with what it was sent still in its queue; nothing is published after. */
    method Stop()
      requires Valid()
      modifies `stopped, `subs, subs.Values`closed
      ensures Valid() && stopped && subs == map[]
      ensures forall i :: i in old(subs) && !old(stopped) ==> old(subs)[i].closed
    {
      if stopped {
        return;
      }
      stopped := true;
      CloseAll();
    }
  }
}
