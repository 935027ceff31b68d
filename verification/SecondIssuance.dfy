/**
 When the signer is called a second time for an order: exactly when a challenge
 request writes ready over an order that has been claimed or issued meanwhile.
 */
module SecondIssuance {
  import opened Prelude
  import opened Orders

  /** The request has claimed the order and not yet gone to the signer. */
  predicate Stands(s: State, t: RequestId, o: OrderId) {
    t in s.finalizing && s.finalizing[t].order == o && s.finalizing[t].Claimed?
  }

  ghost predicate Standing(s: State, o: OrderId) {
    exists t :: Stands(s, t, o)
  }

  /** The step writes ready over an order that a claim stands on, or the signer was called for. */
  ghost predicate Reopens(s: State, step: Step, o: OrderId) {
    && step.RespondOrder? && step.written
    && step.request in s.responding && s.responding[step.request].Deciding?
    && s.responding[step.request].order == o && s.responding[step.request].copy.status == Ready
    && o in s.orders && (s.Calls(o) > 0 || Standing(s, o))
  }

  /** What at most one issuance needs of an order, and no more: other writes may do as they like with it. */
  ghost predicate Spent(s: State, o: OrderId)
    requires o in s.orders
  {
    && (forall t, u :: Stands(s, t, o) && Stands(s, u, o) ==> t == u)
    && (forall t :: Stands(s, t, o) ==> s.Calls(o) == 0)
    && (s.orders[o].status in {Pending, Ready} ==> s.Calls(o) == 0 && forall t :: !Stands(s, t, o))
    && s.Calls(o) <= 1
    && forall t :: t in s.responding && s.responding[t].Checking? && s.responding[t].order == o ==>
         s.responding[t].copy.status == Pending
  }

  ghost predicate Once(s: State, o: OrderId) {
    Unknown(s, o) && (o in s.orders ==> Spent(s, o))
  }

  lemma OnceElsewhere(s: State, s': State, o: OrderId)
    requires Once(s, o)
    requires o in s'.orders <==> o in s.orders
    requires o in s.orders ==>
               s'.orders[o].status == s.orders[o].status || s'.orders[o].status !in {Pending, Ready}
    requires s'.Calls(o) == s.Calls(o)
    requires |s'.AuthzsOf(o)| == |s.AuthzsOf(o)|
    requires forall t :: t in s'.responding && s'.responding[t].order == o ==>
               (t in s.responding && s'.responding[t] == s.responding[t])
               || s'.responding[t].Opening?
               || (o in s.orders && (s'.responding[t].Checking? ==> s'.responding[t].copy.status == Pending))
    requires forall t :: t in s'.finalizing && s'.finalizing[t].order == o ==> o in s.orders
    requires forall t :: Stands(s', t, o) ==> Stands(s, t, o)
    ensures Once(s', o)
  {
  }

  lemma OnceClaimWon(s: State, t: RequestId, now: int)
    requires t in s.finalizing && s.finalizing[t].Claiming?
    requires var o := s.finalizing[t].order; Once(s, o) && Claimable(s, o, now)
    ensures Once(Claim(s, t, now), s.finalizing[t].order)
  {
    var o := s.finalizing[t].order;
    forall u ensures Stands(Claim(s, t, now), u, o) <==> u == t {
      assert !Stands(s, u, o);
    }
  }

  lemma OnceClaim(s: State, t: RequestId, now: int, o: OrderId)
    requires Once(s, o)
    ensures Once(Claim(s, t, now), o)
  {
    if t in s.finalizing && s.finalizing[t].Claiming? && s.finalizing[t].order == o && Claimable(s, o, now) {
      OnceClaimWon(s, t, now);
    } else {
      OnceElsewhere(s, Claim(s, t, now), o);
    }
  }

  /** To the signer: the one standing claim is spent. */
  lemma OnceSign(s: State, t: RequestId, cert: Option<CertId>, o: OrderId)
    requires Once(s, o)
    ensures Once(Sign(s, t, cert), o)
  {
    var s' := Sign(s, t, cert);
    if t in s.finalizing && s.finalizing[t].Claimed? {
      var f := s.finalizing[t];
      assert multiset(s'.signerCalls) == multiset(s.signerCalls) + multiset{f.order};
      if f.order == o {
        assert Stands(s, t, o);
        forall u ensures !Stands(s', u, o) {
          assert Stands(s, u, o) ==> u == t;
        }
      } else {
        OnceElsewhere(s, s', o);
      }
    }
  }

  lemma OnceCreate(s: State, c: OrderId, ids: seq<string>, p: bool, e: int, m: nat, d: bool, o: OrderId)
    requires Once(s, o)
    ensures Once(Create(s, c, ids, p, e, m, d), o)
  {
    var s' := Create(s, c, ids, p, e, m, d);
    if c == o && o !in s.orders {
      forall t ensures !Stands(s', t, o) {
      }
    } else {
      OnceElsewhere(s, s', o);
    }
  }

  lemma OnceRead(s: State, t: RequestId, c: OrderId, now: int, o: OrderId)
    requires Once(s, o)
    ensures Once(Read(s, t, c, now), o)
  {
    OnceElsewhere(s, Read(s, t, c, now), o);
  }

  lemma OnceRefuse(s: State, t: RequestId, o: OrderId)
    requires Once(s, o)
    ensures Once(Refuse(s, t), o)
  {
    OnceElsewhere(s, Refuse(s, t), o);
  }

  lemma OnceRecord(s: State, t: RequestId, ok: bool, o: OrderId)
    requires Once(s, o)
    ensures Once(Record(s, t, ok), o)
  {
    OnceElsewhere(s, Record(s, t, ok), o);
  }

  lemma OnceEnd(s: State, t: RequestId, written: bool, o: OrderId)
    requires Once(s, o)
    ensures Once(End(s, t, written), o)
  {
    OnceElsewhere(s, End(s, t, written), o);
  }

  lemma OnceFinalize(s: State, step: Step, o: OrderId)
    requires Once(s, o) && ByFinalize(step)
    ensures Once(Next(s, step), o)
  {
    match step
    case FinalizeRead(t, c, now) => OnceRead(s, t, c, now, o);
    case FinalizeClaim(t, now) => OnceClaim(s, t, now, o);
    case FinalizeRefuse(t) => OnceRefuse(s, t, o);
    case FinalizeSign(t, cert) => OnceSign(s, t, cert, o);
    case FinalizeRecord(t, ok) => OnceRecord(s, t, ok, o);
    case FinalizeEnd(t, written) => OnceEnd(s, t, written, o);
  }

  lemma OnceOpen(s: State, t: RequestId, c: OrderId, o: OrderId)
    requires Once(s, o)
    ensures Once(Open(s, t, c), o)
  {
    OnceElsewhere(s, Open(s, t, c), o);
  }

  lemma OnceLook(s: State, t: RequestId, i: nat, kind: Kind, o: OrderId)
    requires Once(s, o)
    ensures Once(Look(s, t, i, kind), o)
  {
    OnceElsewhere(s, Look(s, t, i, kind), o);
  }

  lemma OnceDecide(s: State, t: RequestId, now: int, looked: bool, written: bool, o: OrderId)
    requires Once(s, o)
    ensures Once(Decide(s, t, now, looked, written), o)
  {
    OnceElsewhere(s, Decide(s, t, now, looked, written), o);
  }

  lemma OnceSettle(s: State, t: RequestId, written: bool, o: OrderId)
    requires Once(s, o) && !Reopens(s, RespondOrder(t, written), o)
    ensures Once(Settle(s, t, written), o)
  {
    var s' := Settle(s, t, written);
    if o in s.orders && s'.orders[o].status == Ready && s.orders[o].status != Ready {
      assert s.Calls(o) == 0 && !Standing(s, o);
      forall u ensures !Stands(s', u, o) {
        assert !Stands(s, u, o);
      }
    } else {
      OnceElsewhere(s, s', o);
    }
  }

  lemma OnceRespond(s: State, step: Step, o: OrderId)
    requires Once(s, o) && ByRespond(step) && !Reopens(s, step, o)
    ensures Once(Next(s, step), o)
  {
    match step
    case RespondOpen(t, c) => OnceOpen(s, t, c, o);
    case RespondRead(t, i, kind) => OnceLook(s, t, i, kind, o);
    case RespondAuthz(t, now, looked, written) => OnceDecide(s, t, now, looked, written, o);
    case RespondOrder(t, written) => OnceSettle(s, t, written, o);
  }

  lemma OnceDecided(s: State, s': State, o: OrderId)
    requires Once(s, o) && o in s.orders && o in s'.orders && s.orders[o].status == Pending && Aside(s, s')
    ensures Once(s', o)
  {
    forall t ensures !Stands(s', t, o) {
      assert !Stands(s, t, o);
    }
  }

  lemma OnceAtOnce(s: State, step: Step, o: OrderId)
    requires Once(s, o) && step.RespondAtOnce?
    ensures Once(Next(s, step), o)
  {
    AtOnceEffect(s, step.request, step.order, step.index, step.kind, step.now, step.looked,
                 step.authzWritten, step.orderWritten);
    var s' := Next(s, step);
    if o in s.orders && s.orders[o].status == Pending {
      OnceDecided(s, s', o);
    } else {
      assert o in s.orders ==> s'.orders[o] == s.orders[o];
      OnceElsewhere(s, s', o);
    }
  }

  lemma OnceNext(s: State, step: Step, o: OrderId)
    requires Once(s, o) && !Reopens(s, step, o)
    ensures Once(Next(s, step), o)
  {
    if ByFinalize(step) {
      OnceFinalize(s, step, o);
    } else if step.NewOrder? {
      OnceCreate(s, step.order, step.identifiers, step.requiresProof, step.expires, step.made, step.ended, o);
    } else if step.RespondAtOnce? {
      OnceAtOnce(s, step, o);
    } else {
      OnceRespond(s, step, o);
    }
  }

  /** A challenge request writes the status it decided from the copy it read, whatever the order is by then. */
  lemma StaleAnswerReopens(s: State, t: RequestId, now: int)
    requires t in s.responding && s.responding[t].Checking?
    requires var r := s.responding[t];
             && r.order in s.orders && |r.all| == 1 && r.index == 0 && r.all[0].expires > now
             && |s.AuthzsOf(r.order)| == 1
    ensures var s' := Run(s, [RespondAuthz(t, now, true, true), RespondOrder(t, true)]);
            var o := s.responding[t].order;
            && o in s'.orders && s'.orders[o].status == Ready && s'.orders[o].expires == s.orders[o].expires
            && s'.responding == s.responding - {t} && s'.finalizing == s.finalizing && s'.signerCalls == s.signerCalls
            && |s'.AuthzsOf(o)| == 1
  {
    var s1 := Decide(s, t, now, true, true);
    assert AllProved(s.responding[t].all[0 := Decided(s.responding[t].all[0], s.responding[t].kind, true)]);
    assert s1.responding - {t} == s.responding - {t};
    RunTwo(s, RespondAuthz(t, now, true, true), RespondOrder(t, true));
  }

  /** A ready order's finalize calls the signer. */
  lemma ReadClaimedSigned(s: State, t: RequestId, o: OrderId, now: int)
    requires t !in s.finalizing && Claimable(s, o, now)
    ensures var s' := Sign(Claim(Read(s, t, o, now), t, now), t, None);
            && s'.Calls(o) == s.Calls(o) + 1 && s'.responding == s.responding && s'.authzs == s.authzs
            && s'.finalizing.Keys == s.finalizing.Keys + {t}
            && o in s'.orders && s'.orders[o].expires == s.orders[o].expires
  {
    assert multiset(s.signerCalls + [o]) == multiset(s.signerCalls) + multiset{o};
  }

  function FinalizeSteps(t: RequestId, o: OrderId, now: int): seq<Step> {
    [FinalizeRead(t, o, now), FinalizeClaim(t, now)] + [FinalizeSign(t, None)]
  }

  lemma FinalizeCallsSigner(s: State, t: RequestId, o: OrderId, now: int)
    requires t !in s.finalizing && Claimable(s, o, now)
    ensures var s' := Run(s, FinalizeSteps(t, o, now));
            && s'.Calls(o) == s.Calls(o) + 1 && s'.responding == s.responding && s'.authzs == s.authzs
            && s'.finalizing.Keys == s.finalizing.Keys + {t}
            && o in s'.orders && s'.orders[o].expires == s.orders[o].expires
  {
    ReadClaimedSigned(s, t, o, now);
    RunTwo(s, FinalizeRead(t, o, now), FinalizeClaim(t, now));
    RunMore(s, [FinalizeRead(t, o, now), FinalizeClaim(t, now)], FinalizeSign(t, None));
  }

  /** Requests 1 and 2 have both read the one pending authorization of order 1. */
  predicate BothReading(s: State, now: int) {
    && 1 in s.orders && s.orders[1].expires > now && |s.AuthzsOf(1)| == 1
    && s.finalizing == map[] && s.signerCalls == []
    && (forall t :: t in {1, 2} ==>
          && t in s.responding && s.responding[t].Checking? && s.responding[t].order == 1
          && |s.responding[t].all| == 1 && s.responding[t].index == 0 && s.responding[t].all[0].expires > now)
  }

  function TwoLook(name: string, expires: int): seq<Step> {
    [NewOrder(1, [name], true, expires, 1, false)]
    + ([RespondOpen(1, 1), RespondOpen(2, 1)] + [RespondRead(1, 0, Dns01), RespondRead(2, 0, Dns01)])
  }

  lemma TwoReadOnePending(name: string, expires: int, now: int)
    requires now < expires
    ensures BothReading(Run(Initial(), TwoLook(name, expires)), now)
  {
    var create := NewOrder(1, [name], true, expires, 1, false);
    var open, look := [RespondOpen(1, 1), RespondOpen(2, 1)], [RespondRead(1, 0, Dns01), RespondRead(2, 0, Dns01)];
    var s0 := Next(Initial(), create);
    assert s0.AuthzsOf(1) == [AuthzFor(name, expires)];
    RunTwo(s0, open[0], open[1]);
    var s1 := Run(s0, open);
    RunTwo(s1, look[0], look[1]);
    RunSplit(s0, open, look);
    RunSplit(Initial(), [create], open + look);
    RunOne(Initial(), create);
  }

  lemma IssuesTwiceFrom(s1: State, now: int)
    requires BothReading(s1, now)
    ensures exists tail :: Run(s1, tail).Calls(1) == 2
  {
    var answer1 := [RespondAuthz(1, now, true, true), RespondOrder(1, true)];
    var answer2 := [RespondAuthz(2, now, true, true), RespondOrder(2, true)];
    var issue1 := FinalizeSteps(1, 1, now);
    var issue2 := FinalizeSteps(2, 1, now);
    StaleAnswerReopens(s1, 1, now);
    var s2 := Run(s1, answer1);
    FinalizeCallsSigner(s2, 1, 1, now);
    var s3 := Run(s2, issue1);
    assert s3.AuthzsOf(1) == s2.AuthzsOf(1);
    StaleAnswerReopens(s3, 2, now);
    var s4 := Run(s3, answer2);
    FinalizeCallsSigner(s4, 2, 1, now);
    RunSplit(s1, answer1, issue1);
    RunSplit(s3, answer2, issue2);
    RunSplit(s1, answer1 + issue1, answer2 + issue2);
  }

  /**
   And such a write is reached: of two requests that read one pending authorization,
   the second puts the order back to ready after it was claimed, and the signer is
   called again.
   */
  lemma ChallengeRaceIssuesTwice(name: string, expires: int, now: int)
    requires now < expires
    ensures exists steps :: Run(Initial(), steps).Calls(1) == 2
  {
    var head := TwoLook(name, expires);
    TwoReadOnePending(name, expires, now);
    IssuesTwiceFrom(Run(Initial(), head), now);
    var tail :| Run(Run(Initial(), head), tail).Calls(1) == 2;
    RunSplit(Initial(), head, tail);
  }

  // ---------- exactly when ----------

  predicate FinalizeOnly(steps: seq<Step>) {
    forall i :: 0 <= i < |steps| ==> ByFinalize(steps[i])
  }

  /** After i of the steps, more of them, all of finalize requests, reach a second call. */
  ghost predicate IssuesAgain(steps: seq<Step>, i: nat, more: seq<Step>, o: OrderId) {
    i <= |steps| && FinalizeOnly(more) && Run(Run(Initial(), steps[..i]), more).Calls(o) > 1
  }

  ghost predicate ReopensAt(steps: seq<Step>, i: nat, o: OrderId) {
    i < |steps| && Reopens(Run(Initial(), steps[..i]), steps[i], o)
  }

  lemma PrefixStep(steps: seq<Step>, i: nat)
    requires i < |steps|
    ensures Run(Initial(), steps[..i + 1]) == Next(Run(Initial(), steps[..i]), steps[i])
  {
    assert steps[..i + 1] == steps[..i] + [steps[i]];
    RunMore(Initial(), steps[..i], steps[i]);
  }

  lemma {:induction false} OnceRun(steps: seq<Step>, i: nat, o: OrderId)
    requires i <= |steps| && forall k: nat :: k < i ==> !ReopensAt(steps, k, o)
    ensures Once(Run(Initial(), steps[..i]), o)
  {
    if i == 0 {
      assert steps[..0] == [];
    } else {
      OnceRun(steps, i - 1, o);
      assert !ReopensAt(steps, i - 1, o);
      PrefixStep(steps, i - 1);
      OnceNext(Run(Initial(), steps[..i - 1]), steps[i - 1], o);
    }
  }

  lemma {:induction false} OnceFinalizeRun(s: State, more: seq<Step>, o: OrderId)
    requires Once(s, o) && FinalizeOnly(more)
    ensures Once(Run(s, more), o)
    decreases |more|
  {
    if more != [] {
      OnceFinalize(s, more[0], o);
      OnceFinalizeRun(Next(s, more[0]), more[1..], o);
    }
  }

  /** A request identifier nobody has. */
  lemma {:induction false} AnotherRequest(taken: set<RequestId>) returns (t: RequestId)
    ensures forall u :: u in taken ==> u < t
    decreases taken
  {
    if taken == {} {
      return 0;
    }
    var u :| u in taken;
    var v := AnotherRequest(taken - {u});
    assert taken == (taken - {u}) + {u};
    t := if u < v then v else u + 1;
  }

  /** An order ready again, with a call to the signer made or a claim still standing, is issued again. */
  lemma ReadyIssues(s: State, o: OrderId) returns (more: seq<Step>)
    requires o in s.orders && s.orders[o].status == Ready && s.Calls(o) > 0
    ensures FinalizeOnly(more) && Run(s, more).Calls(o) > 1
  {
    var t := AnotherRequest(s.finalizing.Keys);
    assert t !in s.finalizing;
    var now := s.orders[o].expires - 1;
    FinalizeCallsSigner(s, t, o, now);
    more := FinalizeSteps(t, o, now);
  }

  lemma ReopenedIssues(s: State, step: Step, o: OrderId) returns (more: seq<Step>)
    requires Reopens(s, step, o)
    ensures FinalizeOnly(more) && Run(Next(s, step), more).Calls(o) > 1
  {
    var s1 := Next(s, step);
    assert s1.orders[o].status == Ready && s1.Calls(o) == s.Calls(o) && s1.finalizing == s.finalizing;
    if s.Calls(o) > 0 {
      more := ReadyIssues(s1, o);
    } else {
      var t :| Stands(s, t, o);
      var s2 := Sign(s1, t, None);
      assert multiset(s2.signerCalls) == multiset(s1.signerCalls) + multiset{o};
      more := ReadyIssues(s2, o);
      RunOne(s1, FinalizeSign(t, None));
      RunSplit(s1, [FinalizeSign(t, None)], more);
      more := [FinalizeSign(t, None)] + more;
    }
  }

  /**
   Exactly when: of any run of single steps, some point can be carried on by finalize
   requests alone to a second call to the signer for the order, if and only if some
   step writes ready over it while a claim stands on it or after the signer was called.
   */
  lemma SecondIssuanceExactly(steps: seq<Step>, o: OrderId)
    ensures (exists i: nat, more :: IssuesAgain(steps, i, more, o)) <==> (exists i: nat :: ReopensAt(steps, i, o))
  {
    if i: nat :| ReopensAt(steps, i, o) {
      var s := Run(Initial(), steps[..i]);
      var more := ReopenedIssues(s, steps[i], o);
      PrefixStep(steps, i);
      assert IssuesAgain(steps, i + 1, more, o);
    } else {
      forall i: nat, more ensures !IssuesAgain(steps, i, more, o) {
        if i <= |steps| && FinalizeOnly(more) {
          OnceRun(steps, i, o);
          OnceFinalizeRun(Run(Initial(), steps[..i]), more, o);
        }
      }
    }
  }
}
