/**
 The gateway registry: connections are dialled outside its lock and swapped in
 under it, by any number of callers at once, with health checks and Close between.

 A connection is named by the order it was dialled in.
 */
module Gateways {
  import opened Prelude

  type Conn = nat

  /** A RegisterGateway call that has let go of the lock: dialling, or dialled and not yet swapped. */
  datatype Call = Dialing(name: string) | Holding(name: string, conn: Conn)

  /**
   gateways and connected are the manager's own; dialed counts the dials that
   succeeded, closed holds every Close made, and calls are those in flight.
   */
  datatype State = State(
    gateways: map<string, Conn>,
    connected: map<Conn, bool>,
    calls: map<nat, Call>,
    dialed: nat,
    closed: multiset<Conn>)
  {
    predicate Open(c: Conn) {
      c < dialed && c !in closed
    }

    predicate Live(name: string) {
      name in gateways && gateways[name] in connected && connected[gateways[name]]
    }

    predicate Registered(c: Conn) {
      exists n :: n in gateways && gateways[n] == c
    }

    predicate Held(c: Conn) {
      exists t :: t in calls && calls[t].Holding? && calls[t].conn == c
    }
  }

  function Initial(): State {
    State(map[], map[], map[], 0, multiset{})
  }

  datatype Step =
    | Begin(call: nat, name: string)
    | DialFails(call: nat)
    | DialSucceeds(call: nat)
    | Swap(call: nat)
    | Health(conn: Conn, ok: bool)
    | CloseAll

  /** Every connection of the registry, once each. */
  function Closing(gateways: map<string, Conn>): multiset<Conn> {
    multiset(gateways.Values)
  }

  function Next(s: State, step: Step): State {
    match step
    case Begin(t, name) =>
      if t in s.calls || s.Live(name) then s else s.(calls := s.calls[t := Dialing(name)])
    case DialFails(t) =>
      if t in s.calls && s.calls[t].Dialing? then s.(calls := s.calls - {t}) else s
    case DialSucceeds(t) =>
      if t in s.calls && s.calls[t].Dialing? then
        s.(calls := s.calls[t := Holding(s.calls[t].name, s.dialed)],
           connected := s.connected[s.dialed := true],
           dialed := s.dialed + 1)
      else s
    case Swap(t) =>
      if t in s.calls && s.calls[t].Holding? then
        var name, conn := s.calls[t].name, s.calls[t].conn;
        var done := s.(calls := s.calls - {t});
        if s.Live(name) then done.(closed := s.closed + multiset{conn})
        else
          done.(gateways := s.gateways[name := conn],
                closed := if name in s.gateways then s.closed + multiset{s.gateways[name]} else s.closed)
      else s
    case Health(c, ok) =>
      if c in s.connected then s.(connected := s.connected[c := ok]) else s
    case CloseAll =>
      s.(gateways := map[], closed := s.closed + Closing(s.gateways))
  }

  function Run(s: State, steps: seq<Step>): State
    decreases |steps|
  {
    if steps == [] then s else Next(Run(s, steps[..|steps| - 1]), steps[|steps| - 1])
  }

  /** Each connection in the registry or in a call's hands is open, and in one place only. */
  ghost predicate Owned(s: State) {
    && (forall n :: n in s.gateways ==> s.Open(s.gateways[n]))
    && (forall t :: t in s.calls && s.calls[t].Holding? ==> s.Open(s.calls[t].conn))
    && (forall m, n :: m in s.gateways && n in s.gateways && m != n ==> s.gateways[m] != s.gateways[n])
    && (forall t, u :: t in s.calls && u in s.calls && t != u && s.calls[t].Holding? && s.calls[u].Holding?
                       ==> s.calls[t].conn != s.calls[u].conn)
    && (forall n, t :: n in s.gateways && t in s.calls && s.calls[t].Holding? ==> s.gateways[n] != s.calls[t].conn)
  }

  /** Every open connection is in the registry or in a call's hands. */
  ghost predicate Accounted(s: State) {
    forall c :: s.Open(c) ==> s.Registered(c) || s.Held(c)
  }

  /** Only what was dialled is closed or marked connected, and nothing is closed twice. */
  ghost predicate ClosedOnce(s: State) {
    && (forall c :: s.closed[c] <= 1)
    && (forall c :: c in s.closed ==> c < s.dialed)
    && (forall c :: c in s.connected ==> c < s.dialed)
  }

  ghost predicate Inv(s: State) {
    Owned(s) && Accounted(s) && ClosedOnce(s)
  }

  lemma OpenAccountedDial(s: State, t: nat)
    requires Inv(s) && t in s.calls && s.calls[t].Dialing?
    ensures Inv(Next(s, DialSucceeds(t)))
  {
    var s' := Next(s, DialSucceeds(t));
    assert s'.dialed - 1 !in s.closed;
    assert t in s'.calls && s'.calls[t].Holding? && s'.calls[t].conn == s.dialed;
    forall c: Conn | s'.Open(c) ensures s'.Registered(c) || s'.Held(c) {
      if c < s.dialed {
        assert s.Open(c);
        if s.Held(c) {
          var u :| u in s.calls && s.calls[u].Holding? && s.calls[u].conn == c;
          assert u in s'.calls && s'.calls[u] == s.calls[u];
        } else {
          var n :| n in s.gateways && s.gateways[n] == c;
          assert n in s'.gateways;
        }
      }
    }
  }

  /** Losing the race: another call's connection is live, and this call closes its own. */
  lemma OpenAccountedLoser(s: State, t: nat)
    requires Inv(s) && t in s.calls && s.calls[t].Holding? && s.Live(s.calls[t].name)
    ensures Inv(Next(s, Swap(t)))
  {
    var s' := Next(s, Swap(t));
    assert s.Open(s.calls[t].conn);
    assert s'.calls.Keys == s.calls.Keys - {t};
    AccountedElsewhere(s, s', t);
  }

  lemma WinnerOwns(s: State, t: nat)
    requires Inv(s) && t in s.calls && s.calls[t].Holding? && !s.Live(s.calls[t].name)
    ensures Owned(Next(s, Swap(t)))
  {
    assert s.Open(s.calls[t].conn);
  }

  lemma WinnerCloses(s: State, t: nat)
    requires Inv(s) && t in s.calls && s.calls[t].Holding? && !s.Live(s.calls[t].name)
    ensures ClosedOnce(Next(s, Swap(t)))
  {
    assert s.calls[t].name in s.gateways ==> s.Open(s.gateways[s.calls[t].name]);
  }

  /** Winning it: the entry it replaces, if any, is closed. */
  lemma OpenAccountedWinner(s: State, t: nat)
    requires Inv(s) && t in s.calls && s.calls[t].Holding? && !s.Live(s.calls[t].name)
    ensures Inv(Next(s, Swap(t)))
  {
    WinnerOwns(s, t);
    WinnerCloses(s, t);
    var s' := Next(s, Swap(t));
    var name, conn := s.calls[t].name, s.calls[t].conn;
    assert name in s'.gateways && s'.gateways[name] == conn;
    assert s'.calls.Keys == s.calls.Keys - {t};
    AccountedElsewhere(s, s', t);
  }

  lemma AccountedElsewhere(s: State, s': State, t: nat)
    requires Inv(s) && t in s.calls && s.calls[t].Holding?
    requires s'.calls == s.calls - {t} && s'.dialed == s.dialed && s.closed <= s'.closed
    requires forall n :: n in s.gateways && s'.Open(s.gateways[n]) ==>
               n in s'.gateways && s'.gateways[n] == s.gateways[n]
    requires s'.Open(s.calls[t].conn) ==> s'.Registered(s.calls[t].conn)
    ensures Accounted(s')
  {
    forall c: Conn | s'.Open(c) ensures s'.Registered(c) || s'.Held(c) {
      assert s.Open(c);
      if s.Held(c) {
        var u :| u in s.calls && s.calls[u].Holding? && s.calls[u].conn == c;
        assert u != t ==> u in s'.calls && s'.calls[u] == s.calls[u];
      } else {
        var n :| n in s.gateways && s.gateways[n] == c;
      }
    }
  }

  lemma ClosingCounts(gateways: map<string, Conn>, c: Conn)
    ensures Closing(gateways)[c] == if exists n :: n in gateways && gateways[n] == c then 1 else 0
  {
  }

  lemma OpenAccountedCloseAll(s: State)
    requires Inv(s)
    ensures Inv(Next(s, CloseAll))
    ensures forall c :: Next(s, CloseAll).Open(c) ==> s.Held(c)
  {
    var s' := Next(s, CloseAll);
    forall c: Conn ensures s'.closed[c] <= 1 && (s'.Open(c) ==> s.Open(c) && !s.Registered(c)) {
      ClosingCounts(s.gateways, c);
      if s.Registered(c) {
        var n :| n in s.gateways && s.gateways[n] == c;
        assert s.Open(c);
      }
    }
    forall c: Conn | c in s'.closed ensures c < s'.dialed {
      ClosingCounts(s.gateways, c);
    }
    forall t | t in s'.calls && s'.calls[t].Holding? ensures s'.Open(s'.calls[t].conn) {
      ClosingCounts(s.gateways, s.calls[t].conn);
      assert s.Open(s.calls[t].conn);
    }
    forall c: Conn | s'.Open(c) ensures s'.Held(c) {
      var u :| u in s.calls && s.calls[u].Holding? && s.calls[u].conn == c;
      assert u in s'.calls;
    }
  }

  /** What a step neither dials, closes nor registers stays where it was. */
  predicate StaysPut(s: State, s': State) {
    && s'.gateways == s.gateways && s'.dialed == s.dialed && s'.closed == s.closed
    && s'.connected.Keys == s.connected.Keys
    && (forall t :: t in s.calls && s.calls[t].Holding? ==> t in s'.calls && s'.calls[t] == s.calls[t])
    && (forall t :: t in s'.calls && s'.calls[t].Holding? ==> t in s.calls && s'.calls[t] == s.calls[t])
  }

  lemma ElseStaysPut(s: State, step: Step)
    requires step.Begin? || step.DialFails? || step.Health?
    ensures StaysPut(s, Next(s, step))
  {
  }

  lemma InvStaysPut(s: State, s': State)
    requires Inv(s) && StaysPut(s, s')
    ensures Inv(s')
  {
    forall c: Conn | s'.Open(c) ensures s'.Registered(c) || s'.Held(c) {
      assert s.Open(c);
      if s.Held(c) {
        var u :| u in s.calls && s.calls[u].Holding? && s.calls[u].conn == c;
        assert u in s'.calls;
      } else {
        var n :| n in s.gateways && s.gateways[n] == c;
        assert n in s'.gateways;
      }
    }
  }

  lemma InvNext(s: State, step: Step)
    requires Inv(s)
    ensures Inv(Next(s, step))
  {
    match step
    case DialSucceeds(t) =>
      if t in s.calls && s.calls[t].Dialing? {
        OpenAccountedDial(s, t);
      }
    case Swap(t) =>
      if t in s.calls && s.calls[t].Holding? {
        if s.Live(s.calls[t].name) {
          OpenAccountedLoser(s, t);
        } else {
          OpenAccountedWinner(s, t);
        }
      }
    case CloseAll => OpenAccountedCloseAll(s);
    case _ =>
      ElseStaysPut(s, step);
      InvStaysPut(s, Next(s, step));
  }

  lemma {:induction false} InvRun(s: State, steps: seq<Step>)
    requires Inv(s)
    ensures Inv(Run(s, steps))
  {
    if steps != [] {
      InvRun(s, steps[..|steps| - 1]);
      InvNext(Run(s, steps[..|steps| - 1]), steps[|steps| - 1]);
    }
  }

  /**
   Ownership, over any interleaving: the open connections are exactly those in
   the registry and those in the hands of a call between dial and swap, each in
   one place, and no connection is closed twice.
   */
  lemma ConnectionOwnership(steps: seq<Step>)
    ensures var s := Run(Initial(), steps);
            && Owned(s)
            && (forall c :: s.Open(c) <==> s.Registered(c) || s.Held(c))
            && (forall c :: s.closed[c] <= 1)
  {
    InvRun(Initial(), steps);
    var s := Run(Initial(), steps);
    forall c: Conn | s.Registered(c) || s.Held(c) ensures s.Open(c) {
      if s.Registered(c) {
        var n :| n in s.gateways && s.gateways[n] == c;
      } else {
        var t :| t in s.calls && s.calls[t].Holding? && s.calls[t].conn == c;
      }
    }
  }

  /** When every call has returned nothing is leaked, and a Close then leaves nothing open at all. */
  lemma NothingLeaked(steps: seq<Step>)
    requires NoneHeld(Run(Initial(), steps))
    ensures var s := Run(Initial(), steps);
            && (forall c :: s.Open(c) <==> s.Registered(c))
            && (forall c :: !Next(s, CloseAll).Open(c))
  {
    ConnectionOwnership(steps);
    InvRun(Initial(), steps);
    OpenAccountedCloseAll(Run(Initial(), steps));
  }

  // ---------- what survives Close ----------

  /** The swap that puts its connection in the registry. */
  predicate Wins(s: State, step: Step) {
    step.Swap? && step.call in s.calls && s.calls[step.call].Holding? && !s.Live(s.calls[step.call].name)
  }

  /** Some swap of the run won. */
  predicate Won(s: State, steps: seq<Step>)
    decreases |steps|
  {
    && steps != []
    && (Won(s, steps[..|steps| - 1]) || Wins(Run(s, steps[..|steps| - 1]), steps[|steps| - 1]))
  }

  lemma RegistryFills(s: State, step: Step)
    requires !step.CloseAll?
    ensures Next(s, step).gateways != map[] <==> s.gateways != map[] || Wins(s, step)
  {
    if Wins(s, step) {
      assert s.calls[step.call].name in Next(s, step).gateways;
    }
  }

  lemma {:induction false} RegistryFilled(s: State, after: seq<Step>)
    requires s.gateways == map[] && forall i :: 0 <= i < |after| ==> !after[i].CloseAll?
    ensures Run(s, after).gateways != map[] <==> Won(s, after)
  {
    if after != [] {
      RegistryFilled(s, after[..|after| - 1]);
      RegistryFills(Run(s, after[..|after| - 1]), after[|after| - 1]);
    }
  }

  predicate NoneHeld(s: State) {
    forall t :: t in s.calls ==> !s.calls[t].Holding?
  }

  ghost predicate AnyOpen(s: State) {
    exists c :: s.Open(c)
  }

  lemma OpenIsRegistered(s: State)
    requires Inv(s) && NoneHeld(s)
    ensures AnyOpen(s) <==> s.gateways != map[]
  {
    if s.gateways != map[] {
      var n :| n in s.gateways;
      assert s.Open(s.gateways[n]);
    }
  }

  /**
   Close is not the end of it: once all calls have returned, a connection is open
   after the last Close if and only if some registration won its swap after it.
   */
  lemma SurvivesCloseExactly(before: seq<Step>, closed: State, after: seq<Step>)
    requires closed == Next(Run(Initial(), before), CloseAll)
    requires forall i :: 0 <= i < |after| ==> !after[i].CloseAll?
    requires NoneHeld(Run(closed, after))
    ensures AnyOpen(Run(closed, after)) <==> Won(closed, after)
  {
    InvRun(Initial(), before);
    InvNext(Run(Initial(), before), CloseAll);
    InvRun(closed, after);
    OpenIsRegistered(Run(closed, after));
    RegistryFilled(closed, after);
  }

  // ---------- who is in the registry ----------

  /** What the last health check of a dialled connection found; until there is one, that it answers. */
  predicate Healthy(steps: seq<Step>, c: Conn)
    decreases |steps|
  {
    steps == [] ||
    var front, last := steps[..|steps| - 1], steps[|steps| - 1];
    if last.Health? && last.conn == c && c < Run(Initial(), front).dialed then last.ok else Healthy(front, c)
  }

  /** Exactly what was dialled is tracked, by its last health check. */
  ghost predicate Tracked(s: State, steps: seq<Step>) {
    && (forall c: Conn :: c < s.dialed ==> c in s.connected)
    && (forall c :: c in s.connected ==> c < s.dialed && (s.connected[c] <==> Healthy(steps, c)))
    && (forall c: Conn :: c >= s.dialed ==> Healthy(steps, c))
  }

  lemma HealthyAfter(front: seq<Step>, step: Step, c: Conn)
    ensures Healthy(front + [step], c) <==>
              if step.Health? && step.conn == c && c < Run(Initial(), front).dialed then step.ok else Healthy(front, c)
  {
    assert (front + [step])[..|front|] == front;
  }

  /** A step that dials nothing and checks nothing. */
  lemma TrackedElse(s: State, s': State, front: seq<Step>, steps: seq<Step>)
    requires Tracked(s, front) && s'.connected == s.connected && s'.dialed == s.dialed
    requires forall c: Conn :: Healthy(steps, c) <==> Healthy(front, c)
    ensures Tracked(s', steps)
  {
  }

  lemma TrackedDial(s: State, s': State, front: seq<Step>, steps: seq<Step>)
    requires Tracked(s, front) && s'.connected == s.connected[s.dialed := true] && s'.dialed == s.dialed + 1
    requires forall c: Conn :: Healthy(steps, c) <==> Healthy(front, c)
    ensures Tracked(s', steps)
  {
    assert Healthy(front, s.dialed);
  }

  lemma TrackedCheck(s: State, s': State, front: seq<Step>, steps: seq<Step>, checked: Conn, ok: bool)
    requires Tracked(s, front) && checked in s.connected && s'.connected == s.connected[checked := ok] && s'.dialed == s.dialed
    requires forall c: Conn :: Healthy(steps, c) <==> if c == checked then ok else Healthy(front, c)
    ensures Tracked(s', steps)
  {
  }

  lemma TrackedStep(front: seq<Step>, step: Step)
    requires Tracked(Run(Initial(), front), front)
    ensures Tracked(Next(Run(Initial(), front), step), front + [step])
  {
    var s := Run(Initial(), front);
    forall c: Conn
      ensures Healthy(front + [step], c) <==>
                if step.Health? && step.conn == c && c < s.dialed then step.ok else Healthy(front, c)
    {
      HealthyAfter(front, step, c);
    }
    if step.Health? && step.conn in s.connected {
      TrackedCheck(s, Next(s, step), front, front + [step], step.conn, step.ok);
    } else if step.DialSucceeds? && step.call in s.calls && s.calls[step.call].Dialing? {
      TrackedDial(s, Next(s, step), front, front + [step]);
    } else {
      TrackedElse(s, Next(s, step), front, front + [step]);
    }
  }

  lemma {:induction false} ConnectedIsHealthy(steps: seq<Step>)
    ensures Tracked(Run(Initial(), steps), steps)
  {
    if steps != [] {
      var front, last := steps[..|steps| - 1], steps[|steps| - 1];
      ConnectedIsHealthy(front);
      TrackedStep(front, last);
      assert steps == front + [last];
    }
  }

  /** In the registry, and its last health check went well. */
  predicate Serving(steps: seq<Step>, name: string) {
    var s := Run(Initial(), steps);
    name in s.gateways && Healthy(steps, s.gateways[name])
  }

  lemma LiveIsServing(steps: seq<Step>, name: string)
    ensures Run(Initial(), steps).Live(name) <==> Serving(steps, name)
  {
    InvRun(Initial(), steps);
    ConnectedIsHealthy(steps);
    var s := Run(Initial(), steps);
    assert name in s.gateways ==> s.Open(s.gateways[name]);
  }

  /** Nothing but Close takes a connection that serves out of the registry, or closes it. */
  lemma ServingStays(steps: seq<Step>, step: Step, name: string)
    requires Serving(steps, name) && !step.CloseAll?
    ensures var s := Run(Initial(), steps);
            && name in Next(s, step).gateways && Next(s, step).gateways[name] == s.gateways[name]
            && Next(s, step).Open(s.gateways[name])
  {
    InvRun(Initial(), steps);
    LiveIsServing(steps, name);
    var s := Run(Initial(), steps);
    InvNext(s, step);
    if step.Swap? && step.call in s.calls && s.calls[step.call].Holding? {
      LiveIsServing(steps, s.calls[step.call].name);
    }
    assert Next(s, step).Open(Next(s, step).gateways[name]);
  }

  /**
   A dial that comes back: to a name that is served it is closed and the other kept;
   otherwise it takes the name, and what held it is closed. Nothing else is touched.
   */
  lemma SwapExactly(steps: seq<Step>, t: nat, name: string, conn: Conn)
    requires t in Run(Initial(), steps).calls && Run(Initial(), steps).calls[t] == Holding(name, conn)
    ensures var s := Run(Initial(), steps);
            var s' := Next(s, Swap(t));
            && s'.calls == s.calls - {t} && s'.connected == s.connected && s'.dialed == s.dialed
            && (if Serving(steps, name) then s'.gateways == s.gateways && !s'.Open(conn)
                else s'.gateways == s.gateways[name := conn] && s'.Open(conn)
                     && (name in s.gateways ==> !s'.Open(s.gateways[name])))
            && (forall c :: c != conn && !(name in s.gateways && c == s.gateways[name]) ==> (s'.Open(c) <==> s.Open(c)))
  {
    LiveIsServing(steps, name);
    InvRun(Initial(), steps);
    var s := Run(Initial(), steps);
    assert s.Open(conn);
    assert name in s.gateways ==> s.gateways[name] != conn;
  }

  lemma DialledTakesName(s: State, t: nat, name: string)
    requires Inv(s) && t !in s.calls && !s.Live(name)
    ensures Next(Next(s, Begin(t, name)), DialFails(t)) == s
    ensures var s3 := Next(Next(Next(s, Begin(t, name)), DialSucceeds(t)), Swap(t));
            && name in s3.gateways && s3.gateways[name] == s.dialed && s3.Open(s.dialed) && s3.Live(name)
            && s3.calls == s.calls
  {
    var s2 := Next(Next(s, Begin(t, name)), DialSucceeds(t));
    assert s2.calls - {t} == s.calls;
    assert s.calls[t := Dialing(name)] - {t} == s.calls;
    assert name in s.gateways ==> s.Open(s.gateways[name]);
  }

  /**
   A registration under a name that is not served dials. A dial that fails leaves no
   trace; one that does not, when nothing comes between, ends up serving the name.
   */
  lemma RegistrationServes(steps: seq<Step>, t: nat, name: string)
    requires t !in Run(Initial(), steps).calls
    ensures var s := Run(Initial(), steps);
            if Serving(steps, name) then Next(s, Begin(t, name)) == s
            else
              Next(Next(s, Begin(t, name)), DialFails(t)) == s &&
              var s3 := Next(Next(Next(s, Begin(t, name)), DialSucceeds(t)), Swap(t));
              && name in s3.gateways && s3.gateways[name] == s.dialed && s3.Open(s.dialed) && s3.Live(name)
              && s3.calls == s.calls
  {
    LiveIsServing(steps, name);
    InvRun(Initial(), steps);
    if !Serving(steps, name) {
      DialledTakesName(Run(Initial(), steps), t, name);
    }
  }

  // ---------- closing one at a time ----------

  /** done of all have been closed, todo have not. */
  ghost predicate Split(all: map<string, Conn>, done: map<string, Conn>, todo: map<string, Conn>) {
    && (forall m, n :: m in all && n in all && m != n ==> all[m] != all[n])
    && all.Keys == done.Keys + todo.Keys && done.Keys !! todo.Keys
    && (forall n :: n in done ==> done[n] == all[n])
    && (forall n :: n in todo ==> todo[n] == all[n])
  }

  lemma SplitStart(s: State)
    requires Inv(s)
    ensures Split(s.gateways, map[], s.gateways)
  {
  }

  lemma SplitDone(all: map<string, Conn>, done: map<string, Conn>, todo: map<string, Conn>)
    requires Split(all, done, todo) && todo.Keys == {}
    ensures done == all
  {
    assert done.Keys == all.Keys;
  }

  lemma ValuesGrow(done: map<string, Conn>, name: string, conn: Conn)
    requires name !in done
    ensures done[name := conn].Values == done.Values + {conn}
  {
    var more := done[name := conn];
    assert more[name] == conn;
    forall c | c in done.Values ensures c in more.Values {
      var n :| n in done && done[n] == c;
      assert n in more && more[n] == c;
    }
    forall c | c in more.Values ensures c in done.Values + {conn} {
      var n :| n in more && more[n] == c;
    }
  }

  lemma MapShrinks(todo: map<string, Conn>, name: string)
    requires name in todo
    ensures (todo - {name}).Keys == todo.Keys - {name}
    ensures |todo - {name}| < |todo|
  {
    assert (todo - {name}).Keys == todo.Keys - {name};
    assert |(todo - {name}).Keys| < |todo.Keys|;
  }

  lemma CloseOne(all: map<string, Conn>, done: map<string, Conn>, todo: map<string, Conn>, name: string)
    requires Split(all, done, todo) && name in todo
    ensures Closing(done[name := todo[name]]) == Closing(done) + multiset{todo[name]}
  {
    var conn := todo[name];
    ValuesGrow(done, name, conn);
    assert conn !in done.Values;
  }

  lemma SplitOne(all: map<string, Conn>, done: map<string, Conn>, todo: map<string, Conn>, name: string)
    requires Split(all, done, todo) && name in todo
    ensures Split(all, done[name := todo[name]], todo - {name})
  {
    assert (todo - {name}).Keys == todo.Keys - {name};
    assert done[name := todo[name]].Keys == done.Keys + {name};
  }

  // ---------- the manager ----------

  class Manager {
    var gateways: map<string, Conn>
    var isConnected: map<Conn, bool>
    var failedAt: map<string, int>
    ghost var calls: map<nat, Call>
    ghost var dialed: nat
    ghost var closed: multiset<Conn>

    ghost function View(): State
      reads this
    {
      State(gateways, isConnected, calls, dialed, closed)
    }

    constructor ()
      ensures View() == Initial() && failedAt == map[]
    {
      gateways, isConnected, failedAt := map[], map[], map[];
      calls, dialed, closed := map[], 0, multiset{};
    }

    /** The first locked section: an existing live gateway, or go and dial. */
    method BeginRegister(ghost call: nat, name: string) returns (existing: Option<Conn>)
      requires call !in calls
      modifies this
      ensures View() == Next(old(View()), Begin(call, name)) && failedAt == old(failedAt)
      ensures existing.Some? <==> old(View()).Live(name)
      ensures existing.Some? ==> existing.value == gateways[name]
    {
      if name in gateways && gateways[name] in isConnected && isConnected[gateways[name]] {
        return Some(gateways[name]);
      }
      calls := calls[call := Dialing(name)];
      return None;
    }

    method DialFailed(ghost call: nat, name: string, now: int)
      requires call in calls && calls[call] == Dialing(name)
      modifies this
      ensures View() == Next(old(View()), DialFails(call)) && failedAt == old(failedAt)[name := now]
    {
      calls := calls - {call};
      failedAt := failedAt[name := now];
    }

    /** A dial made without the lock has given this call a connection of its own. */
    method Dialed(ghost call: nat, name: string, conn: Conn)
      requires call in calls && calls[call] == Dialing(name) && conn == dialed
      modifies this
      ensures View() == Next(old(View()), DialSucceeds(call)) && failedAt == old(failedAt)
    {
      isConnected := isConnected[conn := true];
      dialed := dialed + 1;
      calls := calls[call := Holding(name, conn)];
    }

    method Settle(ghost call: nat, name: string, conn: Conn) returns (registered: Conn)
      requires call in calls && calls[call] == Holding(name, conn)
      modifies this
      ensures View() == Next(old(View()), Swap(call))
      ensures name in gateways && registered == gateways[name]
      ensures failedAt == if old(View()).Live(name) then old(failedAt) else old(failedAt) - {name}
    {
      calls := calls - {call};
      if name in gateways && gateways[name] in isConnected && isConnected[gateways[name]] {
        closed := closed + multiset{conn};
        return gateways[name];
      }
      if name in gateways {
        closed := closed + multiset{gateways[name]};
      }
      gateways := gateways[name := conn];
      failedAt := failedAt - {name};
      return conn;
    }

    /** The second locked section: the first caller to get here wins. */
    method SwapIn(ghost call: nat, name: string, conn: Conn) returns (registered: Conn)
      requires Inv(View()) && call in calls && calls[call] == Holding(name, conn)
      modifies this
      ensures View() == Next(old(View()), Swap(call)) && Inv(View())
      ensures name in gateways && registered == gateways[name]
      ensures failedAt == if old(View()).Live(name) then old(failedAt) else old(failedAt) - {name}
    {
      ghost var before := View();
      registered := Settle(call, name, conn);
      InvNext(before, Swap(call));
    }

    /** What a health check found, written back under the lock. */
    method HealthResult(conn: Conn, ok: bool)
      modifies this
      ensures View() == Next(old(View()), Health(conn, ok)) && failedAt == old(failedAt)
    {
      if conn in isConnected {
        isConnected := isConnected[conn := ok];
      }
    }

    method Close()
      requires Inv(View())
      modifies this
      ensures View() == Next(old(View()), CloseAll) && failedAt == old(failedAt)
    {
      SplitStart(View());
      CloseEach(gateways);
      gateways := map[];
    }

    method CloseEach(all: map<string, Conn>)
      requires Split(all, map[], all)
      modifies `closed
      ensures closed == old(closed) + Closing(all)
    {
      var todo := all;
      ghost var done: map<string, Conn> := map[];
      while todo.Keys != {}
        invariant Split(all, done, todo)
        invariant closed == old(closed) + Closing(done)
        decreases |todo|
      {
        var name :| name in todo;
        var conn := todo[name];
        CloseOne(all, done, todo, name);
        SplitOne(all, done, todo, name);
        MapShrinks(todo, name);
        closed := closed + multiset{conn};
        done := done[name := conn];
        todo := todo - {name};
      }
      SplitDone(all, done, todo);
    }
  }
}
