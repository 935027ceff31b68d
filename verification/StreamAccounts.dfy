/**
 What a dashboard client is owed, over every run: no silent gap, a beginning that
 leaves nothing out, everything once the stream is at rest; and what is given up,
 above all when it comes back with an identifier the broker never gave out.
 */
module StreamAccounts {
  import opened Prelude
  import opened Broker
  import opened EventStream

  // ---------- every run ----------

  lemma NextInv(s: State, step: Step)
    requires Inv(s)
    ensures Inv(Next(s, step))
  {
    match step
    case Publish(e, now) => PublishInv(s, e, now);
    case FirstSelect => FirstSelectInv(s);
    case SecondSelect => SecondSelectInv(s);
    case ThirdSelect => ThirdSelectInv(s);
    case Stop => StopInv(s);
    case Subscribe(buffer) => SubscribeInv(s, buffer);
    case WriteRetry(ok) => WriteRetryInv(s, ok);
    case Decide => DecideInv(s);
    case WriteReplayed(ok) => WriteReplayedInv(s, ok);
    case ReadStore(ok) => ReadStoreInv(s, ok);
    case WriteSnapshot(ok) => WriteSnapshotInv(s, ok);
    case Take => TakeInv(s);
    case Leave => LeaveInv(s);
    case Heartbeat(ok) => LeaveInv(s);
    case WriteTaken(ok) => WriteTakenInv(s, ok);
    case CheckLossy => CheckLossyInv(s);
    case WriteResync(ok) => WriteResyncInv(s, ok);
  }

  lemma {:induction false} RunInv(s: State, steps: seq<Step>)
    requires Arriving(s)
    ensures Inv(Run(s, steps))
  {
    if steps != [] {
      RunInv(s, steps[..|steps| - 1]);
      NextInv(Run(s, steps[..|steps| - 1]), steps[|steps| - 1]);
    }
  }

  /**
   No silent gap, whatever the interleaving: when an event has been written, each
   event since the base was written before it (or cannot be written at all), or
   the same iteration goes on to a resync and a snapshot begun after the loss, or
   that iteration is still under way or was cut short by a dead connection. Back
   at the head of the loop only the first two remain.
   */
  lemma NoSilentGap(s: State, steps: seq<Step>, k: nat)
    requires Arriving(s) && k < |Run(s, steps).frames|
    ensures NoGapAt(Run(s, steps), k)
    ensures var r := Run(s, steps);
            r.phase.Idle? && r.frames[k].Data? ==> Whole(r, k) || Resynced(r, k)
  {
    RunInv(s, steps);
    assert FrameInv(Run(s, steps), k);
  }

  /** Without a resync, what was not written before k is exactly what has no JSON form. */
  lemma SkippedExactly(s: State, steps: seq<Step>, k: nat, j: nat)
    requires Arriving(s)
    requires var r := Run(s, steps);
             && r.phase.Idle? && k < |r.frames| && r.frames[k].Data? && !Resynced(r, k)
             && r.base <= j < r.frames[k].e.id - 1
    ensures var r := Run(s, steps);
            j < |r.log| && (Data(r.log[j]) in r.frames[..k] <==> r.log[j].encodable)
  {
    NoSilentGap(s, steps, k);
    RunInv(s, steps);
    var r := Run(s, steps);
    assert Shown(r.log[j], r.frames[..k]);
    if Data(r.log[j]) in r.frames[..k] {
      var i: nat :| i < k && r.frames[..k][i] == Data(r.log[j]);
      assert FrameInv(r, i);
    }
  }

  /**
   A client is resumed exactly when it has a resume point and nothing since it has
   fallen out of the history, but for the greatest identifier there is; then what it is
   replayed is just what was published since. Otherwise it goes on to a snapshot.
   */
  lemma ResumesWithEverything(s: State)
    requires Inv(s) && s.phase.Deciding? && s.publisher == Quiet
    ensures var s' := DoDecide(s);
            && (s'.resumed <==>
                  && s.resume.Some? && |s.log| <= s.resume.value + s.kept
                  && !(s.resume.value == MAX_UINT64 && s.kept > 0 && s.log != []))
            && (s'.resumed && s.resume.value <= |s.log| ==>
                  s'.phase == Replaying(s.log[s.resume.value..], |s.log|) && s'.base == s.resume.value)
            && (s'.resumed && s.resume.value > |s.log| ==> s'.phase == Replaying([], s.start))
            && (s'.resumed ==> s'.known == |s.log|)
            && (!s'.resumed ==> s'.phase == Reading)
            && s'.log == s.log && s'.frames == s.frames && s'.start == s.start && s'.resume == s.resume
  {
    if s.resume.Some? {
      ReplayByPosition(s.log, s.kept, [], s.resume.value);
      if Replayed(s.log, s.kept, [], s.resume.value).1 {
        ReplayedFrom(s);
      }
    }
  }

  // ---------- what a resumed client is written first ----------

  /** The events that have a JSON form, each as it is written. */
  function Written(events: seq<Event>): seq<Frame> {
    if events == [] then []
    else Written(events[..|events| - 1]) + if events[|events| - 1].encodable then [Data(events[|events| - 1])] else []
  }

  lemma WrittenOneMore(log: seq<Event>, lo: nat, hi: nat)
    requires lo <= hi < |log|
    ensures Written(log[lo..hi + 1]) == Written(log[lo..hi]) + if log[hi].encodable then [Data(log[hi])] else []
  {
    assert log[lo..hi + 1][..hi - lo] == log[lo..hi];
  }

  /** One more of them, behind the greeting. */
  lemma GreetedOneMore(log: seq<Event>, lo: nat, hi: nat)
    requires lo <= hi < |log|
    ensures [Retry] + Written(log[lo..hi + 1])
            == ([Retry] + Written(log[lo..hi])) + if log[hi].encodable then [Data(log[hi])] else []
  {
    WrittenOneMore(log, lo, hi);
    var before, more := Written(log[lo..hi]), if log[hi].encodable then [Data(log[hi])] else [];
    assert ([Retry] + before) + more == [Retry] + (before + more);
  }

  /** Resumed at a point the broker had reached. */
  predicate ResumedWithin(s: State) {
    s.resumed && s.resume.Some? && s.resume.value <= s.known
  }

  /** Of a client resumed so: what was replayed so far, and once that is over what came first. */
  predicate ReplayInv(s: State) {
    ResumedWithin(s) ==>
      && s.known <= |s.log|
      && match s.phase
         case Replaying(todo, upto) =>
           && upto == s.known && |todo| <= s.known - s.resume.value
           && s.frames == [Retry] + Written(s.log[s.resume.value..s.known - |todo|])
         case Gone => true
         case _ => [Retry] + Written(s.log[s.resume.value..s.known]) <= s.frames
  }

  lemma ReplayKeptOnward(s: State, s': State)
    requires ReplayInv(s) && s.log <= s'.log && s.frames <= s'.frames
    requires s'.resumed == s.resumed && s'.resume == s.resume && s'.known == s.known
    requires s'.phase.Replaying? ==> s'.phase == s.phase && s'.frames == s.frames
    requires s.phase.Replaying? ==> s'.phase == s.phase || s'.phase.Gone?
    requires s.phase.Gone? ==> s'.phase.Gone?
    ensures ReplayInv(s')
  {
    if ResumedWithin(s) {
      var n := s.resume.value;
      assert s'.log[n..s.known] == s.log[n..s.known];
      if s.phase.Replaying? {
        assert s'.log[n..s.known - |s.phase.todo|] == s.log[n..s.known - |s.phase.todo|];
      }
    }
  }

  lemma ReplayKeptByDecide(s: State)
    requires Inv(s) && ReplayInv(s)
    ensures ReplayInv(DoDecide(s))
  {
    if s.phase.Deciding? && s.publisher == Quiet {
      ResumesWithEverything(s);
      if DoDecide(s).resumed && s.resume.value <= |s.log| {
        assert s.log[s.resume.value..s.resume.value] == [];
        assert [Retry] + Written([]) == [Retry];
      }
    }
  }

  lemma ReplayKeptByWriting(s: State, ok: bool, at: nat)
    requires PhaseInv(s) && ReplayInv(s) && ResumedWithin(s) && s.phase.Replaying? && s.phase.todo != []
    requires at == s.known - |s.phase.todo|
    ensures ReplayInv(DoWriteReplayed(s, ok))
  {
    assert s.phase.todo[0] == s.log[at];
    GreetedOneMore(s.log, s.resume.value, at);
  }

  lemma ReplayKeptByReplayed(s: State, ok: bool)
    requires PhaseInv(s) && ReplayInv(s)
    ensures ReplayInv(DoWriteReplayed(s, ok))
  {
    if ResumedWithin(s) && s.phase.Replaying? && s.phase.todo != [] {
      ReplayKeptByWriting(s, ok, s.known - |s.phase.todo|);
    }
  }

  lemma ReplayKeptElsewhere(s: State, step: Step)
    requires ReplayInv(s) && !ByPublisher(step) && !step.Decide? && !step.WriteReplayed?
    ensures ReplayInv(Next(s, step))
  {
    ReplayKeptOnward(s, Next(s, step));
  }

  lemma ReplayKept(s: State, step: Step)
    requires Inv(s) && ReplayInv(s)
    ensures ReplayInv(Next(s, step))
  {
    if ByPublisher(step) {
      PublisherLeaves(s, step);
      ReplayKeptOnward(s, Next(s, step));
    } else if step.Decide? {
      ReplayKeptByDecide(s);
    } else if step.WriteReplayed? {
      ReplayKeptByReplayed(s, step.ok);
    } else {
      ReplayKeptElsewhere(s, step);
    }
  }

  lemma {:induction false} ReplayRun(s: State, steps: seq<Step>)
    requires Arriving(s)
    ensures ReplayInv(Run(s, steps))
  {
    if steps != [] {
      ReplayRun(s, steps[..|steps| - 1]);
      RunInv(s, steps[..|steps| - 1]);
      ReplayKept(Run(s, steps[..|steps| - 1]), steps[|steps| - 1]);
    }
  }

  /**
   Over every run: a client resumed at a point the broker had reached is written,
   before anything else, each event since that point that has a JSON form, in order
   and up to when it was asked to replay.
   */
  lemma ReplayedFirst(s: State, steps: seq<Step>)
    requires Arriving(s)
    requires var r := Run(s, steps); ResumedWithin(r) && !r.phase.Replaying? && !r.phase.Gone?
    ensures var r := Run(s, steps);
            r.known <= |r.log| && [Retry] + Written(r.log[r.resume.value..r.known]) <= r.frames
  {
    ReplayRun(s, steps);
  }

  /** A snapshot no older than the subscription, or the word that the store could not be read. */
  predicate Fills(f: Frame, start: nat) {
    f == Failure || (f.Snapshot? && f.at >= start)
  }

  /** How a connection opens, and when it resynchronises. */
  predicate OpeningInv(s: State) {
    && (s.resumed ==> s.resume.Some? && s.base == if s.resume.value <= s.known then s.resume.value else s.start)
    && (!s.resumed && !s.phase.Connecting? ==> s.base == s.start)
    && (!s.resumed && |s.frames| > 1 ==> Fills(s.frames[1], s.start))
    && (!s.resumed && (s.phase.Idle? || s.phase.Got? || s.phase.Checking? || s.phase.Resyncing?) ==> |s.frames| > 1)
    && (s.phase.Replaying? ==> s.resumed)
    && (s.frames == [] ==> s.phase.Connecting? || s.phase.Greeting? || s.phase.Gone?)
    && (Resync in s.frames || s.phase.Resyncing? ==> s.chan.lost != [])
  }

  lemma OpeningKeptByPublisher(s: State, step: Step)
    requires OpeningInv(s) && ByPublisher(step)
    ensures OpeningInv(Next(s, step))
  {
    PublisherLeaves(s, step);
  }

  lemma OpeningKeptAtFirst(s: State, buffer: nat, ok: bool)
    requires PhaseInv(s) && OpeningInv(s)
    ensures OpeningInv(DoSubscribe(s, buffer)) && OpeningInv(DoWriteRetry(s, ok)) && OpeningInv(DoDecide(s))
  {
  }

  lemma OpeningKeptBySnapshot(s: State, ok: bool)
    requires PhaseInv(s) && OpeningInv(s)
    ensures OpeningInv(DoReadStore(s, ok)) && OpeningInv(DoWriteSnapshot(s, ok))
  {
  }

  lemma OpeningKeptUnwritten(s: State, ok: bool)
    requires OpeningInv(s)
    ensures OpeningInv(DoTake(s)) && OpeningInv(DoLeave(s)) && OpeningInv(DoHeartbeat(s, ok))
    ensures OpeningInv(DoCheckLossy(s))
  {
  }

  lemma OpeningKeptByResync(s: State, ok: bool)
    requires OpeningInv(s)
    ensures OpeningInv(DoWriteResync(s, ok))
  {
  }

  lemma OpeningKeptByData(s: State, e: Event, ok: bool, phase: Phase)
    requires OpeningInv(s) && s.frames != []
    requires s.phase.Replaying? || (s.phase.Got? && phase.Checking?)
    requires phase.Replaying? ==> s.resumed
    requires !phase.Resyncing?
    ensures OpeningInv(WriteEvent(s, e, ok, phase))
  {
    if e.encodable && ok && |s.frames| > 1 {
      assert (s.frames + [Data(e)])[1] == s.frames[1];
    }
  }

  lemma OpeningKept(s: State, step: Step)
    requires PhaseInv(s) && OpeningInv(s) && !ByPublisher(step)
    ensures OpeningInv(Next(s, step))
  {
    match step
    case Subscribe(buffer) => OpeningKeptAtFirst(s, buffer, true);
    case WriteRetry(ok) => OpeningKeptAtFirst(s, 0, ok);
    case Decide => OpeningKeptAtFirst(s, 0, true);
    case WriteReplayed(ok) =>
      if s.phase.Replaying? && s.phase.todo != [] {
        OpeningKeptByData(s, s.phase.todo[0], ok, Replaying(s.phase.todo[1..], s.phase.upto));
      }
    case ReadStore(ok) => OpeningKeptBySnapshot(s, ok);
    case WriteSnapshot(ok) => OpeningKeptBySnapshot(s, ok);
    case WriteTaken(ok) =>
      if s.phase.Got? {
        OpeningKeptByData(s, s.phase.e, ok, Checking(s.phase.e));
      }
    case WriteResync(ok) => OpeningKeptByResync(s, ok);
    case Heartbeat(ok) => OpeningKeptUnwritten(s, ok);
    case _ => OpeningKeptUnwritten(s, true);
  }

  /**
   What the base is: the resume point, when the broker vouched that all since it
   is retained and had itself got that far; otherwise the subscription. A client
   that is not resumed is first of all sent a snapshot begun no earlier than that.
   A resync is only ever sent to a client that lost something.
   */
  lemma {:induction false} OpensWithoutGap(s: State, steps: seq<Step>)
    requires Arriving(s)
    ensures OpeningInv(Run(s, steps))
  {
    if steps != [] {
      var before := Run(s, steps[..|steps| - 1]);
      OpensWithoutGap(s, steps[..|steps| - 1]);
      RunInv(s, steps[..|steps| - 1]);
      if ByPublisher(steps[|steps| - 1]) {
        OpeningKeptByPublisher(before, steps[|steps| - 1]);
      } else {
        OpeningKept(before, steps[|steps| - 1]);
      }
    }
  }

  // ---------- what is given up ----------

  function Sent(e: Event, now: int): seq<Step> {
    [] + [Publish(e, now)] + [FirstSelect] + [Take]
  }

  function Through(e: Event, now: int): seq<Step> {
    Sent(e, now) + [WriteTaken(true)] + [CheckLossy]
  }

  predicate Waiting(s: State) {
    && s.phase.Idle? && s.publisher == Quiet && !s.stopped
    && s.chan.cap > 0 && s.chan.queue == [] && s.chan.lost == []
  }

  lemma RunOn(s: State, steps: seq<Step>, reached: State, step: Step)
    requires Run(s, steps) == reached
    ensures Run(s, steps + [step]) == Next(reached, step)
  {
    assert (steps + [step])[..|steps|] == steps;
  }

  /** Published and received: nothing is left in the channel but the account of it. */
  lemma SentAndTaken(s: State, e: Event, now: int)
    requires Waiting(s)
    ensures var e' := Stamped(e, |s.log| + 1, now);
            Run(s, Sent(e, now))
            == s.(log := s.log + [e'], phase := Got(e'), chan := s.chan.(received := s.chan.received + [e']))
  {
    var e' := Stamped(e, |s.log| + 1, now);
    var published := DoPublish(s, e, now);
    assert published.log[|published.log| - 1] == e';
    RunOn(s, [], s, Publish(e, now));
    RunOn(s, [] + [Publish(e, now)], published, FirstSelect);
    RunOn(s, [] + [Publish(e, now)] + [FirstSelect], DoFirstSelect(published), Take);
    PassedOn(s.chan, e');
  }

  lemma PassedOn(c: Channel, e: Event)
    requires c.queue == [] && c.cap > 0
    ensures Enqueue(c, e).queue == [e] && Receive(Enqueue(c, e)) == c.(received := c.received + [e])
  {
    assert [] + [e] == [e];
    assert [e][1..] == c.queue;
  }

  /**
   A client that keeps up is sent each event once, at once. One with no JSON form
   it is never told of: the stream goes on as if it had not been published.
   */
  lemma OneThrough(s: State, e: Event, now: int)
    requires Waiting(s)
    ensures var s' := Run(s, Through(e, now));
            var e' := Stamped(e, |s.log| + 1, now);
            && Waiting(s') && s'.log == s.log + [e']
            && s'.frames == s.frames + if e.encodable then [Data(e')] else []
  {
    SentAndTaken(s, e, now);
    var taken := Run(s, Sent(e, now));
    RunOn(s, Sent(e, now), taken, WriteTaken(true));
    RunOn(s, Sent(e, now) + [WriteTaken(true)], DoWriteTaken(taken, true), CheckLossy);
  }

  /**
   A snapshot is read from when the log was what it is, and sent; when the store cannot
   be read the client is told so instead. Either way it is streamed to from then on.
   */
  lemma SnapshotIsSent(s: State, read: bool)
    requires s.phase.Reading? && s.publisher == Quiet
    ensures Next(Next(s, ReadStore(read)), WriteSnapshot(true))
            == s.(phase := Idle, frames := s.frames + [if read then Snapshot(|s.log|) else Failure])
  {
  }

  /** Even while an event is being sent, a failed read does not hold the stream up. */
  lemma UnreadStoreStreamsOn(s: State)
    requires s.phase.Reading?
    ensures Next(Next(s, ReadStore(false)), WriteSnapshot(true)) == s.(phase := Idle, frames := s.frames + [Failure])
  {
  }

  /** A client that has lost something is told so right after the event it was being sent, and given a snapshot. */
  lemma LossIsToldOf(s: State)
    requires s.phase.Checking? && s.publisher == Quiet && s.chan.lost != []
    ensures var told := Next(Next(s, CheckLossy), WriteResync(true));
            Next(Next(told, ReadStore(true)), WriteSnapshot(true))
            == s.(phase := Idle, frames := s.frames + [Resync] + [Snapshot(|s.log|)])
  {
    SnapshotIsSent(Next(Next(s, CheckLossy), WriteResync(true)), true);
  }

  /**
   The publisher always gets through: with room the event is queued, and without room in
   three steps, at the price of the oldest one queued.
   */
  lemma PublisherGetsThrough(s: State)
    requires s.publisher == Sending && s.log != [] && 0 < s.chan.cap && |s.chan.queue| <= s.chan.cap
    ensures var e, c := s.log[|s.log| - 1], s.chan;
            if |c.queue| < c.cap then DoFirstSelect(s) == s.(publisher := Quiet, chan := c.(queue := c.queue + [e]))
            else
              Next(Next(Next(s, FirstSelect), SecondSelect), ThirdSelect)
              == s.(publisher := Quiet, chan := c.(queue := c.queue[1..] + [e], lost := c.lost + [c.queue[0]]))
  {
  }

  /** What asks the broker for something waits for the publisher at work under its lock. */
  lemma LockIsWaitedFor(s: State, e: Event, now: int)
    requires s.publisher != Quiet
    ensures Next(s, Publish(e, now)) == s && Next(s, Stop) == s
    ensures s.resume.Some? ==> Next(s, Decide) == s
    ensures Next(s, CheckLossy) == s && Next(s, WriteResync(true)) == s
    ensures s.phase.Snapping? && s.phase.read ==> Next(s, WriteSnapshot(true)) == s
  {
  }

  /** A broker that is not publishing can be stopped, and then publishes nothing. */
  lemma StoppedIsSilent(s: State, e: Event, now: int)
    ensures s.publisher == Quiet ==> Next(s, Stop) == s.(stopped := true)
    ensures s.stopped ==> Next(s, Publish(e, now)) == s
  {
  }

  /**
   What is queued is handed out one event to a receive, also after the broker stops; an
   empty queue is waited on, and when the broker has stopped it is the end. A heartbeat
   ends the stream exactly when it cannot be written.
   */
  lemma WaitsForEvents(s: State, ok: bool)
    requires s.phase.Idle?
    ensures s.chan.queue != [] ==>
              Next(s, Take) == s.(phase := Got(s.chan.queue[0]),
                                  chan := s.chan.(queue := s.chan.queue[1..], received := s.chan.received + [s.chan.queue[0]]))
    ensures s.chan.queue == [] ==> Next(s, Take) == if s.stopped then s.(phase := Gone) else s
    ensures Next(s, Heartbeat(ok)) == if ok then s else s.(phase := Gone)
  {
  }

  /** What the handler is about to write, if anything. */
  predicate Writing(s: State) {
    match s.phase
    case Greeting => true
    case Replaying(todo, _) => todo != [] && todo[0].encodable
    case Snapping(_, read) => read ==> s.publisher == Quiet
    case Got(e) => e.encodable
    case Resyncing(_) => s.publisher == Quiet
    case _ => false
  }

  /** A write that fails ends the connection, whatever it was of. */
  lemma FailedWriteEnds(s: State)
    requires Writing(s)
    ensures var step := match s.phase
                        case Greeting => WriteRetry(false)
                        case Replaying(_, _) => WriteReplayed(false)
                        case Snapping(_, _) => WriteSnapshot(false)
                        case Got(_) => WriteTaken(false)
                        case _ => WriteResync(false);
            Next(s, step) == s.(phase := Gone)
  {
  }

  // ---------- resumed beyond the log ----------

  /** The client's resume point names this event of the log, or a later one. */
  predicate Vouched(s: State, j: nat) {
    s.resume.Some? && j < s.resume.value <= s.known
  }

  /** Of what was published before it subscribed, the client has vouched for each event or has been shown it. */
  ghost predicate Accounted(s: State)
    requires s.start <= |s.log|
  {
    forall j: nat {:trigger s.log[j]} :: j < s.start ==> Vouched(s, j) || Shown(s.log[j], s.frames)
  }

  /** Resumed beyond the log, it is written nothing from before it subscribed. */
  lemma NothingOlder(s: State, j: nat)
    requires Inv(s) && Beyond(s) && j < s.start <= |s.log|
    ensures Data(s.log[j]) !in s.frames
  {
    assert s.log[j].id == j + 1;
    forall k: nat | k < |s.frames| ensures s.frames[k] != Data(s.log[j]) {
      assert FrameInv(s, k);
    }
  }

  /**
   A client resumed without a snapshot has everything before its subscription
   accounted for exactly when its resume point is one the broker had reached when
   it was asked to replay; short of that only when there was nothing to write.
   */
  lemma AccountedExactly(s: State, steps: seq<Step>)
    requires Arriving(s) && Run(s, steps).resumed && Run(s, steps).phase.Idle?
    ensures var r := Run(s, steps);
            && r.resume.Some? && r.start <= |r.log|
            && (Accounted(r) <==>
                  r.resume.value <= r.known || forall j :: 0 <= j < r.start ==> !r.log[j].encodable)
  {
    var r := Run(s, steps);
    RunInv(s, steps);
    OpensWithoutGap(s, steps);
    assert r.start <= |r.log|;
    if r.resume.value > r.known {
      forall j | 0 <= j < r.start ensures Vouched(r, j) || Shown(r.log[j], r.frames) <==> !r.log[j].encodable {
        NothingOlder(r, j);
      }
    }
  }

  lemma DecideBeyond(s: State)
    requires Numbered(s.log) && s.phase.Deciding? && s.publisher == Quiet
    requires s.resume.Some? && |s.log| < s.resume.value < MAX_UINT64
    ensures DoDecide(s) == Resume(s, s.resume.value, [])
  {
    ReplayIsExact(s.log, s.kept, [], s.resume.value);
    ReplayedFrom(s);
  }

  function Greeting(): seq<Step> {
    [] + [Subscribe(512)] + [WriteRetry(true)]
  }

  function AsFarAsDecided(): seq<Step> {
    Greeting() + [Decide]
  }

  /** Where n more writes lead. */
  function AfterWrites(s: State, n: nat): State {
    if n == 0 then s else Next(AfterWrites(s, n - 1), WriteReplayed(true))
  }

  /** Subscribed, and about to decide. */
  predicate Greeted(s: State, s2: State) {
    && s2.log == s.log && s2.kept == s.kept && s2.publisher == Quiet && s2.resume == s.resume
    && s2.start == |s.log| && s2.phase == Deciding && s2.frames == [Retry]
  }

  lemma GreetingRun(s: State)
    requires Arriving(s)
    ensures Greeted(s, Run(s, Greeting()))
  {
    RunOn(s, [], s, Subscribe(512));
    RunOn(s, [] + [Subscribe(512)], DoSubscribe(s, 512), WriteRetry(true));
  }

  lemma RunDecide(s: State, s2: State)
    requires Run(s, Greeting()) == s2
    ensures Run(s, AsFarAsDecided()) == DoDecide(s2)
  {
    RunOn(s, Greeting(), s2, Decide);
  }

  /**
   And such clients are resumed: at any identifier but the greatest beyond what is
   published, with whatever was published before, and told of none of it.
   */
  lemma BeyondIsResumed(s: State)
    requires Arriving(s) && s.resume.Some? && |s.log| < s.resume.value < MAX_UINT64
    ensures var r := Next(Run(s, AsFarAsDecided()), WriteReplayed(true));
            && r.resumed && r.phase.Idle? && r.frames == [Retry] && r.log == s.log && r.start == |s.log|
            && forall j :: 0 <= j < r.start ==> !Vouched(r, j) && (Shown(r.log[j], r.frames) <==> !r.log[j].encodable)
  {
    GreetingRun(s);
    DecideBeyond(Run(s, Greeting()));
    RunDecide(s, Run(s, Greeting()));
  }

  /** Where a replay stands after n writes. */
  predicate ReplayedTo(s: State, r: State, after: nat, n: nat)
    requires after <= |s.log|
  {
    && after + n <= |s.log| && r.log == s.log && r.resumed
    && r.phase == Replaying(s.log[after + n..], |s.log|) && r.frames == [Retry] + Written(s.log[after..after + n])
  }

  lemma ReplayStarts(s: State, r: State)
    requires Arriving(s) && s.resume.Some? && s.resume.value <= |s.log| <= s.resume.value + s.kept
    requires s.resume.value < MAX_UINT64 && r == Run(s, AsFarAsDecided())
    ensures ReplayedTo(s, r, s.resume.value, 0)
  {
    GreetingRun(s);
    RunInv(s, Greeting());
    ResumesWithEverything(Run(s, Greeting()));
    RunDecide(s, Run(s, Greeting()));
    assert s.log[s.resume.value..s.resume.value] == [] && [Retry] + Written([]) == [Retry];
  }

  lemma ReplaysOneMore(s: State, r: State, after: nat, n: nat)
    requires after + n < |s.log| && ReplayedTo(s, r, after, n)
    ensures ReplayedTo(s, DoWriteReplayed(r, true), after, n + 1)
  {
    var hi := after + n;
    assert s.log[hi..][0] == s.log[hi] && s.log[hi..][1..] == s.log[hi + 1..];
    GreetedOneMore(s.log, after, hi);
  }

  lemma {:induction false} WritesReplay(s: State, r: State, after: nat, n: nat)
    requires after + n <= |s.log| && ReplayedTo(s, r, after, 0)
    ensures ReplayedTo(s, AfterWrites(r, n), after, n)
  {
    if n > 0 {
      WritesReplay(s, r, after, n - 1);
      ReplaysOneMore(s, AfterWrites(r, n - 1), after, n - 1);
    }
  }

  /** Resumed and pumped, having been written just what was published since. */
  predicate Shows(s: State, r: State, after: nat)
    requires after <= |s.log|
  {
    r.resumed && r.phase.Idle? && r.log == s.log && r.frames == [Retry] + Written(s.log[after..])
  }

  lemma ReplayEnds(s: State, r: State, after: nat, n: nat)
    requires after + n == |s.log| && ReplayedTo(s, r, after, n)
    ensures Shows(s, Next(r, WriteReplayed(true)), after)
  {
    assert s.log[after + n..] == [] && s.log[after..after + n] == s.log[after..];
  }

  /**
   The ordinary reconnect: a client that comes back to a broker that still retains all
   since its resume point is resumed and sent just that, in order, with no snapshot.
   */
  lemma ReconnectIsResumed(s: State)
    requires Arriving(s) && s.resume.Some? && s.resume.value <= |s.log| <= s.resume.value + s.kept
    requires s.resume.value < MAX_UINT64
    ensures Shows(s, AfterWrites(Run(s, AsFarAsDecided()), |s.log| - s.resume.value + 1), s.resume.value)
  {
    var r, n := Run(s, AsFarAsDecided()), |s.log| - s.resume.value;
    ReplayStarts(s, r);
    WritesReplay(s, r, s.resume.value, n);
    ReplayEnds(s, AfterWrites(r, n), s.resume.value, n);
  }

  /**
   And any other client, one that comes for the first time above all, is sent a snapshot
   of when it was read, and streamed to.
   */
  lemma ArrivalIsShownSnapshot(s: State)
    requires Arriving(s)
    requires s.resume.None? || |s.log| > s.resume.value + s.kept
    ensures var r := Next(Next(Run(s, AsFarAsDecided()), ReadStore(true)), WriteSnapshot(true));
            !r.resumed && r.phase.Idle? && r.log == s.log && r.frames == [Retry] + [Snapshot(|s.log|)]
  {
    GreetingRun(s);
    RunInv(s, Greeting());
    ResumesWithEverything(Run(s, Greeting()));
    RunDecide(s, Run(s, Greeting()));
    SnapshotIsSent(Run(s, AsFarAsDecided()), true);
  }

  // ---------- at rest ----------

  /** The newest event sent is still queued, or was the last one received. */
  ghost predicate NewestTaken(log: seq<Event>, publisher: Publisher, start: nat, chan: Channel) {
    var sent := Settled(log, publisher);
    publisher != Retrying && chan.queue == [] && start < |sent| ==>
      chan.received != [] && chan.received[|chan.received| - 1] == sent[|sent| - 1]
  }

  function LastTaken(chan: Channel): nat {
    if chan.received == [] then 0 else chan.received[|chan.received| - 1].id
  }

  /** The frames end in a resync and the snapshot that was to follow it. */
  predicate Refreshed(frames: seq<Frame>, oldest: nat, newest: nat) {
    && |frames| >= 2 && frames[|frames| - 2] == Resync
    && match frames[|frames| - 1]
       case Snapshot(at) => oldest <= at <= newest
       case Failure => true
       case _ => false
  }

  /** Nothing received yet, or a resync has just been written. */
  predicate Due(s: State) {
    s.chan.received == [] || (s.frames != [] && s.frames[|s.frames| - 1] == Resync)
  }

  /** A loss the client has not been told of leaves something queued that will tell it. */
  predicate Telling(s: State) {
    s.chan.lost == [] || s.chan.queue != [] || s.publisher == Retrying
  }

  predicate RestPhase(s: State) {
    match s.phase
    case Idle => Telling(s) || Refreshed(s.frames, LastTaken(s.chan), |s.log|)
    case Got(_) => s.chan.received != []
    case Checking(_) => s.chan.received != []
    case Resyncing(_) => s.chan.received != []
    case Reading => Due(s)
    case Snapping(at, _) => LastTaken(s.chan) <= at <= |s.log| && Due(s)
    case Gone => true
    case _ => s.phase.Connecting? || s.chan.received == []
  }

  ghost predicate RestInv(s: State) {
    && RestPhase(s)
    && (!s.phase.Connecting? ==>
          LastTaken(s.chan) <= |s.log| && NewestTaken(s.log, s.publisher, s.start, s.chan))
  }

  /** With nothing received, a loss means a queue. */
  lemma FreshIsTelling(s: State)
    requires BrokerInv(s) && RestInv(s) && !s.phase.Connecting? && s.chan.received == []
    ensures Telling(s)
  {
    var due := Settled(s.log, s.publisher)[s.start..];
    assert Conserves(s.chan, due);
  }

  lemma RestByPublish(s: State, e: Event, now: int)
    requires BrokerInv(s) && RestInv(s)
    ensures RestInv(DoPublish(s, e, now))
  {
    if s.publisher == Quiet && !s.stopped {
      var e' := Stamped(e, |s.log| + 1, now);
      assert Settled(s.log + [e'], Sending) == Settled(s.log, Quiet);
    }
  }

  lemma RestByFirstSelect(s: State)
    requires BrokerInv(s) && RestInv(s)
    ensures RestInv(DoFirstSelect(s))
  {
  }

  lemma RestBySecondSelect(s: State)
    requires BrokerInv(s) && RestInv(s)
    ensures RestInv(DoSecondSelect(s))
  {
  }

  lemma RestByThirdSelect(s: State)
    requires BrokerInv(s) && RestInv(s)
    ensures RestInv(DoThirdSelect(s))
  {
    ThirdSelectKeeps(s);
  }

  lemma RestByOpening(s: State, step: Step)
    requires Inv(s) && RestInv(s)
    requires step.Subscribe? || step.WriteRetry? || step.ReadStore?
    ensures RestInv(Next(s, step))
  {
  }

  lemma RestByDecide(s: State)
    requires PhaseInv(s) && RestInv(s)
    ensures RestInv(DoDecide(s))
  {
  }

  lemma RestByReplayed(s: State, ok: bool)
    requires Inv(s) && RestInv(s)
    ensures RestInv(DoWriteReplayed(s, ok))
  {
    if s.phase.Replaying? {
      FreshIsTelling(s);
    }
  }

  lemma RestBySnapshot(s: State, ok: bool)
    requires BrokerInv(s) && RestInv(s)
    ensures RestInv(DoWriteSnapshot(s, ok))
  {
    if s.phase.Snapping? && s.chan.received == [] {
      FreshIsTelling(s);
    }
  }

  lemma RestByTake(s: State)
    requires BrokerInv(s) && RestInv(s)
    ensures RestInv(DoTake(s))
  {
    if s.phase.Idle? && s.chan.queue != [] {
      TakenIsNext(s);
      var sent := Settled(s.log, s.publisher);
      assert Conserves(s.chan, sent[s.start..]);
      TakeOne(s.chan, sent[s.start..]);
    }
  }

  lemma RestByPump(s: State, step: Step)
    requires RestInv(s)
    requires step.Leave? || step.Heartbeat? || step.WriteTaken? || step.CheckLossy? || step.WriteResync?
    ensures RestInv(Next(s, step))
  {
  }

  lemma RestNext(s: State, step: Step)
    requires Inv(s) && RestInv(s)
    ensures RestInv(Next(s, step))
  {
    match step
    case Publish(e, now) => RestByPublish(s, e, now);
    case FirstSelect => RestByFirstSelect(s);
    case SecondSelect => RestBySecondSelect(s);
    case ThirdSelect => RestByThirdSelect(s);
    case Stop =>
    case Decide => RestByDecide(s);
    case WriteReplayed(ok) => RestByReplayed(s, ok);
    case WriteSnapshot(ok) => RestBySnapshot(s, ok);
    case Take => RestByTake(s);
    case _ =>
      if ByOpening(step) {
        RestByOpening(s, step);
      } else {
        RestByPump(s, step);
      }
  }

  lemma {:induction false} RestRun(s: State, steps: seq<Step>)
    requires Arriving(s)
    ensures RestInv(Run(s, steps))
  {
    if steps != [] {
      RestRun(s, steps[..|steps| - 1]);
      RunInv(s, steps[..|steps| - 1]);
      RestNext(Run(s, steps[..|steps| - 1]), steps[|steps| - 1]);
    }
  }

  lemma AllReceived(s: State)
    requires BrokerInv(s) && !s.phase.Connecting? && s.publisher == Quiet && s.chan.queue == []
    ensures s.start + |s.chan.received| + |s.chan.lost| == |s.log|
  {
    assert Conserves(s.chan, Settled(s.log, s.publisher)[s.start..]);
  }

  /**
   At rest nothing is outstanding: back at the head of the loop, with nothing being
   published and nothing queued, each event since the base has been shown, or the
   last thing written is a resync with its snapshot, begun when all of the log was
   out, or the word that the store could not be read.
   */
  lemma AtRestComplete(s: State, steps: seq<Step>)
    requires Arriving(s)
    requires var r := Run(s, steps); r.phase.Idle? && r.publisher == Quiet && r.chan.queue == []
    ensures var r := Run(s, steps);
            || ShownTo(r.log, r.frames, r.base, |r.log|)
            || Refreshed(r.frames, |r.log|, |r.log|)
  {
    var r := Run(s, steps);
    RunInv(s, steps);
    RestRun(s, steps);
    AllReceived(r);
    if r.chan.lost != [] {
      assert Numbered(r.log) && r.log[|r.log| - 1].id == |r.log|;
    }
  }
}
