/**
 One dashboard client of the event stream: it subscribes, then replays or sends
 a snapshot, then pumps, resynchronising when it has fallen behind. Publishers
 run beside it, one send at a time under the broker's lock, each send being up
 to three separate selects; a step that takes the lock waits for the publisher.
 */
module EventStream {
  import opened Prelude
  import opened Broker

  /** Where the publisher holding the lock stands; the event being sent is the log's last. */
  datatype Publisher = Quiet | Sending | Full | Retrying

  /** Where the handler stands. */
  datatype Phase =
    | Connecting
    | Greeting
    | Deciding
    | Replaying(todo: seq<Event>, upto: nat)
    | Reading
    | Snapping(at: nat, read: bool)
    | Idle
    | Got(e: Event)
    | Checking(e: Event)
    | Resyncing(e: Event)
    | Gone

  /** What is written to the client. A snapshot remembers how long the log was when its reads began. */
  datatype Frame = Retry | Data(e: Event) | Resync | Snapshot(at: nat) | Failure

  /**
   base: where the client's account of the log begins, at its resume point or at
   subscribing. known: how long the log was when it was asked to replay.
   */
  datatype State = State(
    log: seq<Event>, kept: nat, stopped: bool, publisher: Publisher,
    start: nat, chan: Channel,
    resume: Option<nat>, resumed: bool, known: nat, base: nat, phase: Phase, frames: seq<Frame>)

  datatype Step =
    | Publish(e: Event, now: int)
    | FirstSelect
    | SecondSelect
    | ThirdSelect
    | Stop
    | Subscribe(buffer: nat)
    | WriteRetry(ok: bool)
    | Decide
    | WriteReplayed(ok: bool)
    | ReadStore(ok: bool)
    | WriteSnapshot(ok: bool)
    | Take
    | Leave
    | Heartbeat(ok: bool)
    | WriteTaken(ok: bool)
    | CheckLossy
    | WriteResync(ok: bool)

  // ---------- the publisher's steps ----------

  function DoPublish(s: State, e: Event, now: int): State {
    if s.publisher != Quiet || s.stopped then s
    else
      s.(log := s.log + [Stamped(e, |s.log| + 1, now)],
         publisher := if s.phase.Connecting? then Quiet else Sending)
  }

  function DoFirstSelect(s: State): State {
    if s.publisher != Sending || s.log == [] then s
    else if |s.chan.queue| < s.chan.cap then
      s.(chan := Enqueue(s.chan, s.log[|s.log| - 1]), publisher := Quiet)
    else s.(publisher := Full)
  }

  function DoSecondSelect(s: State): State {
    if s.publisher != Full then s else s.(chan := Discard(s.chan), publisher := Retrying)
  }

  function DoThirdSelect(s: State): State {
    if s.publisher != Retrying || s.log == [] then s
    else
      var e := s.log[|s.log| - 1];
      s.(chan := if |s.chan.queue| < s.chan.cap then Enqueue(s.chan, e) else s.chan.(lost := s.chan.lost + [e]),
         publisher := Quiet)
  }

  function DoStop(s: State): State {
    if s.publisher != Quiet then s else s.(stopped := true)
  }

  // ---------- the handler's steps ----------

  function DoSubscribe(s: State, buffer: nat): State {
    if !s.phase.Connecting? || s.publisher != Quiet || buffer == 0 then s
    else s.(start := |s.log|, base := |s.log|, chan := Channel(buffer, [], [], []), phase := Greeting)
  }

  /** A write that fails ends the connection. */
  function Write(s: State, f: Frame, ok: bool, next: Phase): State {
    if ok then s.(frames := s.frames + [f], phase := next) else s.(phase := Gone)
  }

  /** An event whose payload has no JSON form is skipped, and the stream goes on. */
  function WriteEvent(s: State, e: Event, ok: bool, next: Phase): State {
    if e.encodable then Write(s, Data(e), ok, next) else s.(phase := next)
  }

  function DoWriteRetry(s: State, ok: bool): State {
    if !s.phase.Greeting? then s else Write(s, Retry, ok, Deciding)
  }

  /** A resume point beyond the log counts as current: nothing is replayed, and the account begins at subscribing. */
  function Resume(s: State, after: nat, events: seq<Event>): State {
    if after <= |s.log| then
      s.(phase := Replaying(events, |s.log|), base := after, resumed := true, known := |s.log|)
    else
      s.(phase := Replaying(events, s.start), resumed := true, known := |s.log|)
  }

  function DoDecide(s: State): State {
    if !s.phase.Deciding? then s
    else if s.resume.None? then s.(phase := Reading)
    else if s.publisher != Quiet then s
    else
      var (events, complete) := Replayed(s.log, s.kept, [], s.resume.value);
      if complete then Resume(s, s.resume.value, events) else s.(phase := Reading)
  }

  function DoWriteReplayed(s: State, ok: bool): State {
    if !s.phase.Replaying? then s
    else if s.phase.todo == [] then s.(phase := Idle)
    else WriteEvent(s, s.phase.todo[0], ok, Replaying(s.phase.todo[1..], s.phase.upto))
  }

  /** The two store reads, the first of which begins here. */
  function DoReadStore(s: State, ok: bool): State {
    if !s.phase.Reading? then s else s.(phase := Snapping(|s.log|, ok))
  }

  function DoWriteSnapshot(s: State, ok: bool): State {
    if !s.phase.Snapping? || (s.phase.read && s.publisher != Quiet) then s
    else Write(s, if s.phase.read then Snapshot(s.phase.at) else Failure, ok, Idle)
  }

  /** A receive; from a closed channel that is drained, the end. */
  function DoTake(s: State): State {
    if !s.phase.Idle? then s
    else if s.chan.queue != [] then s.(chan := Receive(s.chan), phase := Got(s.chan.queue[0]))
    else if s.stopped then s.(phase := Gone)
    else s
  }

  function DoLeave(s: State): State {
    if s.phase.Idle? then s.(phase := Gone) else s
  }

  function DoHeartbeat(s: State, ok: bool): State {
    if s.phase.Idle? && !ok then s.(phase := Gone) else s
  }

  function DoWriteTaken(s: State, ok: bool): State {
    if !s.phase.Got? then s else WriteEvent(s, s.phase.e, ok, Checking(s.phase.e))
  }

  function DoCheckLossy(s: State): State {
    if !s.phase.Checking? || s.publisher != Quiet then s
    else s.(phase := if |s.chan.lost| > 0 then Resyncing(s.phase.e) else Idle)
  }

  function DoWriteResync(s: State, ok: bool): State {
    if !s.phase.Resyncing? || s.publisher != Quiet then s else Write(s, Resync, ok, Reading)
  }

  function Next(s: State, step: Step): State {
    match step
    case Publish(e, now) => DoPublish(s, e, now)
    case FirstSelect => DoFirstSelect(s)
    case SecondSelect => DoSecondSelect(s)
    case ThirdSelect => DoThirdSelect(s)
    case Stop => DoStop(s)
    case Subscribe(buffer) => DoSubscribe(s, buffer)
    case WriteRetry(ok) => DoWriteRetry(s, ok)
    case Decide => DoDecide(s)
    case WriteReplayed(ok) => DoWriteReplayed(s, ok)
    case ReadStore(ok) => DoReadStore(s, ok)
    case WriteSnapshot(ok) => DoWriteSnapshot(s, ok)
    case Take => DoTake(s)
    case Leave => DoLeave(s)
    case Heartbeat(ok) => DoHeartbeat(s, ok)
    case WriteTaken(ok) => DoWriteTaken(s, ok)
    case CheckLossy => DoCheckLossy(s)
    case WriteResync(ok) => DoWriteResync(s, ok)
  }

  predicate ByPublisher(step: Step) {
    step.Publish? || step.FirstSelect? || step.SecondSelect? || step.ThirdSelect? || step.Stop?
  }

  predicate ByOpening(step: Step) {
    step.Subscribe? || step.WriteRetry? || step.Decide? || step.WriteReplayed? || step.ReadStore? || step.WriteSnapshot?
  }

  /** What one side's step does not touch of the other's. */
  predicate Onward(s: State, s': State) {
    && s.log <= s'.log && s.frames <= s'.frames
    && s'.resume == s.resume && s'.kept == s.kept && (s.resumed ==> s'.resumed)
  }

  lemma PublisherLeaves(s: State, step: Step)
    requires ByPublisher(step)
    ensures var s' := Next(s, step);
            && Onward(s, s') && s'.frames == s.frames && s'.phase == s.phase
            && s'.start == s.start && s'.resumed == s.resumed && s'.known == s.known && s'.base == s.base
            && s'.chan.received == s.chan.received && s.chan.lost <= s'.chan.lost
  {
  }

  function Run(s: State, steps: seq<Step>): State {
    if steps == [] then s else Next(Run(s, steps[..|steps| - 1]), steps[|steps| - 1])
  }

  /** A client arriving at a broker that has published whatever it has. */
  predicate Arriving(s: State) {
    && Numbered(s.log) && s.publisher == Quiet
    && s.phase == Connecting && s.frames == [] && !s.resumed
    && (s.resume.Some? ==> s.resume.value <= MAX_UINT64)
  }

  // ---------- what the client is owed ----------

  /** Written, or impossible to write. */
  predicate Shown(e: Event, frames: seq<Frame>) {
    !e.encodable || Data(e) in frames
  }

  ghost predicate ShownTo(log: seq<Event>, frames: seq<Frame>, base: nat, n: int) {
    n <= |log| && forall j {:trigger log[j]} :: base <= j < n ==> Shown(log[j], frames)
  }

  /** Every event since the base and before the one at k was shown before it. */
  ghost predicate Whole(s: State, k: nat)
    requires k < |s.frames| && s.frames[k].Data?
  {
    ShownTo(s.log, s.frames[..k], s.base, s.frames[k].e.id - 1)
  }

  /** A resync follows at once, then a snapshot whose reads began when the event at k and all before it were out. */
  predicate Resynced(s: State, k: nat)
    requires k < |s.frames| && s.frames[k].Data?
  {
    && k + 2 < |s.frames| && s.frames[k + 1] == Resync
    && match s.frames[k + 2]
       case Snapshot(at) => at >= s.frames[k].e.id
       case Failure => true
       case _ => false
  }

  /** The iteration that wrote k has not come to its end, or the connection broke in it. */
  predicate Unfinished(s: State, k: nat)
    requires k < |s.frames| && s.frames[k].Data?
  {
    || (k + 1 == |s.frames| && (s.phase.Checking? || s.phase.Resyncing? || s.phase.Gone?))
    || (k + 2 == |s.frames| && s.frames[k + 1] == Resync && (s.phase.Reading? || s.phase.Snapping? || s.phase.Gone?))
  }

  ghost predicate NoGapAt(s: State, k: nat)
    requires k < |s.frames|
  {
    s.frames[k].Data? ==> Whole(s, k) || Resynced(s, k) || Unfinished(s, k)
  }

  // ---------- the invariant ----------

  /** What has been sent to the channel: all of the log but for the event in flight. */
  function Settled(log: seq<Event>, publisher: Publisher): seq<Event> {
    if publisher == Quiet || log == [] then log else log[..|log| - 1]
  }

  /** The channel accounts for what was sent since subscribing. Naming that keeps it folded until it is named. */
  ghost predicate ChannelInv(log: seq<Event>, publisher: Publisher, start: nat, chan: Channel) {
    && start <= |Settled(log, publisher)|
    && (publisher == Retrying ==> |chan.queue| < chan.cap)
    && forall due :: due == Settled(log, publisher)[start..] ==> Conserves(chan, due)
  }

  ghost predicate BrokerInv(s: State) {
    && Numbered(s.log)
    && (s.publisher != Quiet ==> s.log != [])
    && (s.resume.Some? ==> s.resume.value <= MAX_UINT64)
    && (s.phase.Connecting? ==> s.publisher == Quiet)
    && (!s.phase.Connecting? ==> ChannelInv(s.log, s.publisher, s.start, s.chan))
  }

  predicate InLog(log: seq<Event>, e: Event) {
    0 < e.id <= |log| && log[e.id - 1] == e
  }

  /** What precedes the subscription has been shown, and as long as nothing was lost everything received. */
  ghost predicate CaughtUp(s: State) {
    && ShownTo(s.log, s.frames, s.base, s.start)
    && (s.chan.lost == [] ==> ShownTo(s.log, s.frames, s.base, s.start + |s.chan.received|))
  }

  /** The client was resumed at an identifier the broker had not given out when it was asked. */
  predicate Beyond(s: State) {
    s.resumed && s.resume.Some? && s.resume.value > s.known
  }

  ghost predicate Before(frames: seq<Frame>, at: nat) {
    forall k {:trigger frames[k]} :: 0 <= k < |frames| && frames[k].Data? ==> frames[k].e.id <= at
  }

  ghost predicate PhaseInv(s: State) {
    match s.phase
    case Connecting => s.frames == [] && !s.resumed
    case Greeting => s.frames == [] && s.chan.received == [] && s.base == s.start && !s.resumed
    case Deciding => s.frames == [Retry] && s.chan.received == [] && s.base == s.start && !s.resumed
    case Replaying(todo, upto) =>
      && s.resumed && s.chan.received == [] && s.start <= upto <= |s.log|
      && |todo| <= upto && todo == s.log[upto - |todo|..upto]
      && ShownTo(s.log, s.frames, s.base, upto - |todo|)
      && (Beyond(s) ==> todo == [])
    case Reading => CaughtUp(s)
    case Snapping(at, _) => CaughtUp(s) && s.start <= at <= |s.log| && Before(s.frames, at)
    case Idle => CaughtUp(s)
    case Got(e) =>
      && InLog(s.log, e) && e.id > s.start
      && ShownTo(s.log, s.frames, s.base, s.start)
      && (s.chan.lost == [] ==> e.id == s.start + |s.chan.received| && ShownTo(s.log, s.frames, s.base, e.id - 1))
    case Checking(_) => CaughtUp(s)
    case Resyncing(_) => CaughtUp(s)
    case Gone => true
  }

  ghost predicate FrameInv(s: State, k: nat)
    requires k < |s.frames|
  {
    s.frames[k].Data? ==>
      && InLog(s.log, s.frames[k].e) && s.frames[k].e.encodable
      && (Beyond(s) ==> s.frames[k].e.id > s.start)
      && (Whole(s, k) || Resynced(s, k) || (Unfinished(s, k) && (s.phase.Gone? || s.chan.lost != [])))
  }

  ghost predicate FramesInv(s: State) {
    forall k: nat {:trigger FrameInv(s, k)} :: k < |s.frames| ==> FrameInv(s, k)
  }

  ghost predicate Inv(s: State) {
    BrokerInv(s) && PhaseInv(s) && FramesInv(s)
  }

  lemma ShownToKept(log: seq<Event>, log': seq<Event>, frames: seq<Frame>, frames': seq<Frame>, base: nat, n: int)
    requires ShownTo(log, frames, base, n) && log <= log' && frames <= frames'
    ensures ShownTo(log', frames', base, n)
  {
    forall j {:trigger log'[j]} | base <= j < n ensures Shown(log'[j], frames') {
      assert Shown(log[j], frames) && log[j] == log'[j];
    }
  }

  lemma FrameKept(s: State, s': State, k: nat)
    requires k < |s.frames| && FrameInv(s, k)
    requires s.log <= s'.log && s.frames <= s'.frames && s'.base == s.base && s'.start == s.start
    requires Beyond(s') ==> Beyond(s)
    requires s.frames[k].Data? && Unfinished(s, k) && (s.phase.Gone? || s.chan.lost != []) ==>
               Resynced(s', k) || (Unfinished(s', k) && (s'.phase.Gone? || s'.chan.lost != []))
    ensures FrameInv(s', k)
  {
    if s.frames[k].Data? {
      assert s'.frames[k] == s.frames[k] && s'.frames[..k] == s.frames[..k];
      if Whole(s, k) {
        ShownToKept(s.log, s'.log, s.frames[..k], s'.frames[..k], s.base, s.frames[k].e.id - 1);
      }
    }
  }

  // ---------- the publisher keeps it ----------

  /** The handler's part speaks of a prefix of the log, and of nothing having been lost. */
  lemma HandlerKept(s: State, s': State)
    requires PhaseInv(s) && FramesInv(s)
    requires s.log <= s'.log && s'.frames == s.frames && s'.phase == s.phase
    requires s'.base == s.base && s'.start == s.start && s'.resumed == s.resumed && Beyond(s') == Beyond(s)
    requires s'.chan.received == s.chan.received && s.chan.lost <= s'.chan.lost
    ensures PhaseInv(s') && FramesInv(s')
  {
    forall k: nat | k < |s'.frames| ensures FrameInv(s', k) {
      assert FrameInv(s, k);
      FrameKept(s, s', k);
    }
    PhaseKept(s, s');
  }

  lemma PhaseKept(s: State, s': State)
    requires PhaseInv(s)
    requires s.log <= s'.log && s'.frames == s.frames && s'.phase == s.phase
    requires s'.base == s.base && s'.start == s.start && s'.resumed == s.resumed && Beyond(s') == Beyond(s)
    requires s'.chan.received == s.chan.received && s.chan.lost <= s'.chan.lost
    ensures PhaseInv(s')
  {
    match s.phase {
      case Replaying(todo, upto) =>
        ShownToKept(s.log, s'.log, s.frames, s'.frames, s.base, upto - |todo|);
      case Got(e) =>
        if s'.chan.lost == [] {
          ShownToKept(s.log, s'.log, s.frames, s'.frames, s.base, e.id - 1);
        }
      case _ =>
        if CaughtUp(s) && s'.chan.lost == [] {
          ShownToKept(s.log, s'.log, s.frames, s'.frames, s.base, s.start + |s.chan.received|);
        }
    }
  }

  lemma LastOf(log: seq<Event>, start: nat)
    requires start < |log|
    ensures log[..|log| - 1][start..] + [log[|log| - 1]] == log[start..]
  {
  }

  lemma SentToChannel(log: seq<Event>, publisher: Publisher, start: nat, c: Channel)
    requires log != [] && publisher != Quiet && |c.queue| < c.cap
    requires ChannelInv(log, publisher, start, c)
    ensures ChannelInv(log, Quiet, start, Enqueue(c, log[|log| - 1]))
  {
    var due := log[..|log| - 1][start..];
    assert Conserves(c, due);
    SendConserves(c, due, log[|log| - 1]);
    LastOf(log, start);
  }

  lemma Discarded(log: seq<Event>, start: nat, c: Channel)
    requires ChannelInv(log, Full, start, c)
    ensures ChannelInv(log, Retrying, start, Discard(c))
  {
    var due := Settled(log, Full)[start..];
    assert Conserves(c, due);
    DiscardConserves(c, due);
  }

  /** The third select always finds room: the event being sent is never the one lost. */
  lemma ThirdSelectKeeps(s: State)
    requires BrokerInv(s)
    ensures BrokerInv(DoThirdSelect(s))
    ensures s.publisher == Retrying ==>
              DoThirdSelect(s).chan == Enqueue(s.chan, s.log[|s.log| - 1]) && DoThirdSelect(s).chan.lost == s.chan.lost
  {
    if s.publisher == Retrying {
      SentToChannel(s.log, s.publisher, s.start, s.chan);
    }
  }

  lemma PublishInv(s: State, e: Event, now: int)
    requires Inv(s)
    ensures Inv(DoPublish(s, e, now))
  {
    if s.publisher == Quiet && !s.stopped {
      var e' := Stamped(e, |s.log| + 1, now);
      NumberedSnoc(s.log, e');
      assert Settled(s.log + [e'], Sending) == Settled(s.log, Quiet);
    }
    HandlerKept(s, DoPublish(s, e, now));
  }

  lemma FirstSelectInv(s: State)
    requires Inv(s)
    ensures Inv(DoFirstSelect(s))
  {
    if s.publisher == Sending && |s.chan.queue| < s.chan.cap {
      SentToChannel(s.log, s.publisher, s.start, s.chan);
    }
    HandlerKept(s, DoFirstSelect(s));
  }

  lemma SecondSelectInv(s: State)
    requires Inv(s)
    ensures Inv(DoSecondSelect(s))
  {
    if s.publisher == Full {
      Discarded(s.log, s.start, s.chan);
    }
    HandlerKept(s, DoSecondSelect(s));
  }

  lemma ThirdSelectInv(s: State)
    requires Inv(s)
    ensures Inv(DoThirdSelect(s))
  {
    ThirdSelectKeeps(s);
    HandlerKept(s, DoThirdSelect(s));
  }

  lemma StopInv(s: State)
    requires Inv(s)
    ensures Inv(DoStop(s))
  {
    HandlerKept(s, DoStop(s));
  }

  // ---------- the handler keeps it ----------

  lemma ShownOneMore(log: seq<Event>, frames: seq<Frame>, frames': seq<Frame>, base: nat, e: Event)
    requires InLog(log, e) && ShownTo(log, frames, base, e.id - 1)
    requires frames <= frames' && Shown(e, frames')
    ensures ShownTo(log, frames', base, e.id)
  {
    ShownToKept(log, log, frames, frames', base, e.id - 1);
  }

  /** From one phase to the next with nothing written: an unfinished iteration may not be left. */
  predicate MayMove(s: State, phase: Phase) {
    match s.phase
    case Checking(_) => s.chan.lost == [] || phase.Resyncing?
    case Reading => phase.Snapping?
    case Resyncing(_) => phase.Gone?
    case Snapping(_, _) => phase.Gone?
    case Gone => phase.Gone?
    case _ => true
  }

  lemma FramesMoved(s: State, s': State)
    requires FramesInv(s) && MayMove(s, s'.phase)
    requires s'.log == s.log && s'.base == s.base && s'.frames == s.frames && s'.chan.lost == s.chan.lost
    requires s'.start == s.start && (Beyond(s') ==> Beyond(s))
    ensures FramesInv(s')
  {
    forall k: nat | k < |s'.frames| ensures FrameInv(s', k) {
      assert FrameInv(s, k);
      FrameKept(s, s', k);
    }
  }

  /** From one phase to the next with a frame written: within an iteration only the frame that comes next. */
  ghost predicate MayWrite(s: State, f: Frame, phase: Phase) {
    match s.phase
    case Checking(_) => false
    case Reading => false
    case Gone => false
    case Resyncing(_) => f == Resync && phase.Reading?
    case Snapping(at, _) => (f == Snapshot(at) || f == Failure) && Before(s.frames, at)
    case _ => true
  }

  lemma FramesWritten(s: State, f: Frame, phase: Phase)
    requires FramesInv(s) && MayWrite(s, f, phase)
    requires FrameInv(s.(frames := s.frames + [f], phase := phase), |s.frames|)
    ensures FramesInv(s.(frames := s.frames + [f], phase := phase))
  {
    var s' := s.(frames := s.frames + [f], phase := phase);
    forall k: nat | k < |s'.frames| ensures FrameInv(s', k) {
      if k < |s.frames| {
        assert FrameInv(s, k);
        FrameKept(s, s', k);
      }
    }
  }

  lemma SubscribeInv(s: State, buffer: nat)
    requires Inv(s)
    ensures Inv(DoSubscribe(s, buffer))
  {
    assert s.log[|s.log|..] == [];
  }

  lemma WriteRetryInv(s: State, ok: bool)
    requires Inv(s)
    ensures Inv(DoWriteRetry(s, ok))
  {
    if s.phase.Greeting? {
      if ok {
        FramesWritten(s, Retry, Deciding);
      } else {
        FramesMoved(s, s.(phase := Gone));
      }
    }
  }

  lemma MatchingAll(log: seq<Event>)
    ensures Matching(log, []) == log
  {
    if log != [] {
      MatchingAll(log[..|log| - 1]);
      assert log == log[..|log| - 1] + [log[|log| - 1]];
    }
  }

  lemma ReplayedFrom(s: State)
    requires Numbered(s.log) && s.resume.Some? && s.resume.value <= MAX_UINT64
    requires Replayed(s.log, s.kept, [], s.resume.value).1
    ensures Replayed(s.log, s.kept, [], s.resume.value).0 == Since(s.log, s.resume.value)
  {
    ReplayIsExact(s.log, s.kept, [], s.resume.value);
    MatchingAll(Since(s.log, s.resume.value));
  }

  lemma ResumeInv(s: State, after: nat)
    requires Inv(s) && s.phase.Deciding? && s.publisher == Quiet && s.resume == Some(after)
    ensures Inv(Resume(s, after, Since(s.log, after)))
  {
    var todo := Since(s.log, after);
    var s' := Resume(s, after, todo);
    if after <= |s.log| {
      assert todo == s.log[|s.log| - |todo|..|s.log|];
    } else {
      assert todo == s.log[s.start..s.start];
    }
    forall k: nat | k < |s'.frames| ensures FrameInv(s', k) {
    }
  }

  lemma DecideInv(s: State)
    requires Inv(s)
    ensures Inv(DoDecide(s))
  {
    if s.phase.Deciding? {
      if s.resume.Some? && s.publisher == Quiet && Replayed(s.log, s.kept, [], s.resume.value).1 {
        ReplayedFrom(s);
        ResumeInv(s, s.resume.value);
      } else {
        FramesMoved(s, DoDecide(s));
      }
    }
  }

  lemma ReplayedEvent(s: State)
    requires Inv(s) && s.phase.Replaying? && s.phase.todo != []
    ensures var e := s.phase.todo[0];
            && InLog(s.log, e) && e.id == s.phase.upto - |s.phase.todo| + 1
            && s.phase.todo[1..] == s.log[e.id..s.phase.upto]
  {
    var lo := s.phase.upto - |s.phase.todo|;
    assert s.phase.todo[0] == s.log[lo];
  }

  lemma WriteReplayedInv(s: State, ok: bool)
    requires Inv(s)
    ensures Inv(DoWriteReplayed(s, ok))
  {
    if !s.phase.Replaying? {
    } else if s.phase.todo == [] {
      FramesMoved(s, s.(phase := Idle));
    } else {
      ReplayedEvent(s);
      var e := s.phase.todo[0];
      var phase := Replaying(s.phase.todo[1..], s.phase.upto);
      if !e.encodable {
        FramesMoved(s, s.(phase := phase));
        ShownOneMore(s.log, s.frames, s.frames, s.base, e);
      } else if ok {
        DataWritten(s, e, phase);
        ShownOneMore(s.log, s.frames, s.frames + [Data(e)], s.base, e);
      } else {
        FramesMoved(s, s.(phase := Gone));
      }
    }
  }

  /** A whole event, or one within a checked iteration, may be written. */
  lemma DataWritten(s: State, e: Event, phase: Phase)
    requires FramesInv(s) && (s.phase.Replaying? || s.phase.Got?) && InLog(s.log, e) && e.encodable
    requires ShownTo(s.log, s.frames, s.base, e.id - 1) || (s.chan.lost != [] && phase.Checking?)
    requires Beyond(s) ==> e.id > s.start
    ensures FramesInv(s.(frames := s.frames + [Data(e)], phase := phase))
  {
    var s' := s.(frames := s.frames + [Data(e)], phase := phase);
    assert s'.frames[..|s.frames|] == s.frames;
    FramesWritten(s, Data(e), phase);
  }

  lemma ReadStoreInv(s: State, ok: bool)
    requires Inv(s)
    ensures Inv(DoReadStore(s, ok))
  {
    var s' := DoReadStore(s, ok);
    if s.phase.Reading? {
      FramesMoved(s, s');
      forall k | 0 <= k < |s.frames| && s.frames[k].Data? ensures s.frames[k].e.id <= |s.log| {
        assert FrameInv(s, k);
      }
    }
  }

  lemma WriteSnapshotInv(s: State, ok: bool)
    requires Inv(s)
    ensures Inv(DoWriteSnapshot(s, ok))
  {
    if s.phase.Snapping? {
      if ok {
        var f := if s.phase.read then Snapshot(s.phase.at) else Failure;
        FramesWritten(s, f, Idle);
        if s.chan.lost == [] {
          ShownToKept(s.log, s.log, s.frames, s.frames + [f], s.base, s.start + |s.chan.received|);
        }
      } else {
        FramesMoved(s, s.(phase := Gone));
      }
    }
  }

  /** The event received is one of the log's, and the next of them while nothing was lost. */
  lemma TakenIsNext(s: State)
    requires BrokerInv(s) && !s.phase.Connecting? && s.chan.queue != []
    ensures var e := s.chan.queue[0];
            && InLog(s.log, e) && e.id > s.start
            && (s.chan.lost == [] ==> e.id == s.start + |s.chan.received| + 1)
  {
    var due := Settled(s.log, s.publisher)[s.start..];
    assert Conserves(s.chan, due);
    TakeOne(s.chan, due);
    var k := |due| - |s.chan.queue|;
    assert due[k] == s.log[s.start + k];
  }

  lemma Taken(log: seq<Event>, publisher: Publisher, start: nat, c: Channel)
    requires ChannelInv(log, publisher, start, c)
    ensures ChannelInv(log, publisher, start, Receive(c))
  {
    var due := Settled(log, publisher)[start..];
    assert Conserves(c, due);
    ReceiveConserves(c, due);
  }

  lemma TakeInv(s: State)
    requires Inv(s)
    ensures Inv(DoTake(s))
  {
    if s.phase.Idle? {
      FramesMoved(s, DoTake(s));
      if s.chan.queue != [] {
        TakenIsNext(s);
        Taken(s.log, s.publisher, s.start, s.chan);
      }
    }
  }

  lemma LeaveInv(s: State)
    requires Inv(s)
    ensures Inv(DoLeave(s))
  {
    if s.phase.Idle? {
      FramesMoved(s, DoLeave(s));
    }
  }

  lemma WriteTakenInv(s: State, ok: bool)
    requires Inv(s)
    ensures Inv(DoWriteTaken(s, ok))
  {
    if s.phase.Got? {
      var e := s.phase.e;
      var s' := DoWriteTaken(s, ok);
      if e.encodable && ok {
        DataWritten(s, e, Checking(e));
      } else {
        FramesMoved(s, s');
      }
      if s'.phase.Checking? && s.chan.lost == [] {
        ShownOneMore(s.log, s.frames, s'.frames, s.base, e);
      }
    }
  }

  lemma CheckLossyInv(s: State)
    requires Inv(s)
    ensures Inv(DoCheckLossy(s))
  {
    if s.phase.Checking? && s.publisher == Quiet {
      FramesMoved(s, DoCheckLossy(s));
    }
  }

  lemma WriteResyncInv(s: State, ok: bool)
    requires Inv(s)
    ensures Inv(DoWriteResync(s, ok))
  {
    if s.phase.Resyncing? {
      if ok {
        FramesWritten(s, Resync, Reading);
        if s.chan.lost == [] {
          ShownToKept(s.log, s.log, s.frames, s.frames + [Resync], s.base, s.start + |s.chan.received|);
        }
      } else {
        FramesMoved(s, s.(phase := Gone));
      }
    }
  }
}
