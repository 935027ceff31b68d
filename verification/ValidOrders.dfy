/**
 When a valid order changes: exactly when a challenge request's order write lands on
 it, or puts the order back to ready while a finalize request that claimed it has not
 ended. Neither takes a second call to the signer.
 */
module ValidOrders {
  import opened Prelude
  import opened Orders
  import OrderServer
  import SecondIssuance

  ghost predicate Held(s: State, o: OrderId) {
    exists t :: Holds(s, t, o)
  }

  /** The step writes over a valid order, or ready over an order that is held. */
  ghost predicate Displaces(s: State, step: Step, o: OrderId) {
    && step.RespondOrder? && step.written
    && step.request in s.responding && s.responding[step.request].Deciding?
    && s.responding[step.request].order == o && o in s.orders
    && var copy := s.responding[step.request].copy;
       (copy.status != Pending && s.orders[o].status == Valid) || (copy.status == Ready && Held(s, o))
  }

  /** One holder at most, and while there is one the order is processing, or marked invalid. */
  ghost predicate OneHolder(s: State, o: OrderId) {
    && CopiesOpen(s, o)
    && (forall t, u :: Holds(s, t, o) && Holds(s, u, o) ==> t == u)
    && (forall t :: Holds(s, t, o) ==> o in s.orders && s.orders[o].status in {Processing, Invalid})
  }

  predicate KeptValid(s: State, s': State, o: OrderId) {
    o in s.orders && s.orders[o].status == Valid ==> o in s'.orders && s'.orders[o] == s.orders[o]
  }

  ghost predicate StaysHeldOnce(s: State, s': State, o: OrderId) {
    OneHolder(s', o) && KeptValid(s, s', o)
  }

  lemma HeldElsewhere(s: State, s': State, o: OrderId)
    requires OneHolder(s, o) && KeptValid(s, s', o)
    requires forall t :: Holds(s', t, o) ==> Holds(s, t, o)
    requires Held(s, o) ==> o in s'.orders && s'.orders[o].status in {Processing, Invalid}
    requires forall t :: t in s'.responding && s'.responding[t].order == o ==>
               (t in s.responding && s'.responding[t] == s.responding[t]) || CopyOpen(s'.responding[t])
    ensures StaysHeldOnce(s, s', o)
  {
    forall t | Holds(s', t, o) ensures Holds(s, t, o) {
    }
  }

  lemma HeldClaim(s: State, t: RequestId, now: int, o: OrderId)
    requires OneHolder(s, o)
    ensures StaysHeldOnce(s, Claim(s, t, now), o)
  {
    var s' := Claim(s, t, now);
    if t in s.finalizing && s.finalizing[t].Claiming? && s.finalizing[t].order == o && Claimable(s, o, now) {
      forall u ensures Holds(s', u, o) <==> u == t {
        assert !Holds(s, u, o);
      }
    } else {
      HeldElsewhere(s, s', o);
    }
  }

  lemma HeldEnd(s: State, t: RequestId, written: bool, o: OrderId)
    requires OneHolder(s, o)
    ensures StaysHeldOnce(s, End(s, t, written), o)
  {
    var s' := End(s, t, written);
    if Holds(s, t, o) && s' != s {
      forall u ensures !Holds(s', u, o) {
        assert Holds(s, u, o) ==> u == t;
      }
    } else {
      HeldElsewhere(s, s', o);
    }
  }

  lemma HeldFinalize(s: State, step: Step, o: OrderId)
    requires OneHolder(s, o) && ByFinalize(step)
    ensures StaysHeldOnce(s, Next(s, step), o)
  {
    match step
    case FinalizeRead(t, c, now) => HeldElsewhere(s, Read(s, t, c, now), o);
    case FinalizeClaim(t, now) => HeldClaim(s, t, now, o);
    case FinalizeRefuse(t) => HeldElsewhere(s, Refuse(s, t), o);
    case FinalizeSign(t, cert) => HeldElsewhere(s, Sign(s, t, cert), o);
    case FinalizeRecord(t, ok) => HeldElsewhere(s, Record(s, t, ok), o);
    case FinalizeEnd(t, written) => HeldEnd(s, t, written, o);
  }

  lemma HeldSettle(s: State, t: RequestId, written: bool, o: OrderId)
    requires OneHolder(s, o) && !Displaces(s, RespondOrder(t, written), o)
    ensures StaysHeldOnce(s, Settle(s, t, written), o)
  {
    HeldElsewhere(s, Settle(s, t, written), o);
  }

  lemma HeldLook(s: State, t: RequestId, i: nat, kind: Kind, o: OrderId)
    requires OneHolder(s, o)
    ensures StaysHeldOnce(s, Look(s, t, i, kind), o)
  {
    HeldElsewhere(s, Look(s, t, i, kind), o);
  }

  lemma HeldRespond(s: State, step: Step, o: OrderId)
    requires OneHolder(s, o) && ByRespond(step) && !Displaces(s, step, o)
    ensures StaysHeldOnce(s, Next(s, step), o)
  {
    match step
    case RespondOpen(t, c) => HeldElsewhere(s, Open(s, t, c), o);
    case RespondRead(t, i, kind) => HeldLook(s, t, i, kind, o);
    case RespondAuthz(t, now, looked, written) => HeldElsewhere(s, Decide(s, t, now, looked, written), o);
    case RespondOrder(t, written) => HeldSettle(s, t, written, o);
  }

  lemma HeldCreate(s: State, c: OrderId, ids: seq<string>, p: bool, e: int, m: nat, d: bool, o: OrderId)
    requires OneHolder(s, o)
    ensures StaysHeldOnce(s, Create(s, c, ids, p, e, m, d), o)
  {
    var s' := Create(s, c, ids, p, e, m, d);
    assert forall t :: Holds(s', t, o) ==> Holds(s, t, o);
    HeldElsewhere(s, s', o);
  }

  lemma HeldAtOnce(s: State, step: Step, o: OrderId)
    requires OneHolder(s, o) && step.RespondAtOnce?
    ensures StaysHeldOnce(s, Next(s, step), o)
  {
    AtOnceEffect(s, step.request, step.order, step.index, step.kind, step.now, step.looked,
                 step.authzWritten, step.orderWritten);
    HeldElsewhere(s, Next(s, step), o);
  }

  lemma HeldNext(s: State, step: Step, o: OrderId)
    requires OneHolder(s, o) && !Displaces(s, step, o)
    ensures StaysHeldOnce(s, Next(s, step), o)
  {
    if ByFinalize(step) {
      HeldFinalize(s, step, o);
    } else if step.NewOrder? {
      HeldCreate(s, step.order, step.identifiers, step.requiresProof, step.expires, step.made, step.ended, o);
    } else if step.RespondAtOnce? {
      HeldAtOnce(s, step, o);
    } else {
      HeldRespond(s, step, o);
    }
  }

  // ---------- over runs ----------

  ghost predicate DisplacesAt(steps: seq<Step>, i: nat, o: OrderId) {
    i < |steps| && Displaces(Run(Initial(), steps[..i]), steps[i], o)
  }

  ghost predicate NoneDisplaced(steps: seq<Step>, n: nat, o: OrderId) {
    forall i: nat :: i < n ==> !DisplacesAt(steps, i, o)
  }

  /** The order was valid after j of the steps, and is something else after all of them. */
  ghost predicate Overturned(steps: seq<Step>, j: nat, o: OrderId) {
    j <= |steps| &&
    var mid := Run(Initial(), steps[..j]);
    o in mid.orders && mid.orders[o].status == Valid && !KeptValid(mid, Run(Initial(), steps), o)
  }

  lemma {:induction false} HeldRun(steps: seq<Step>, n: nat, o: OrderId)
    requires n <= |steps| && NoneDisplaced(steps, n, o)
    ensures OneHolder(Run(Initial(), steps[..n]), o)
  {
    if n == 0 {
      assert steps[..0] == [];
    } else {
      HeldRun(steps, n - 1, o);
      assert !DisplacesAt(steps, n - 1, o);
      SecondIssuance.PrefixStep(steps, n - 1);
      HeldNext(Run(Initial(), steps[..n - 1]), steps[n - 1], o);
    }
  }

  lemma {:induction false} ValidUntil(steps: seq<Step>, j: nat, n: nat, o: OrderId)
    requires j <= n <= |steps| && NoneDisplaced(steps, n, o)
    ensures KeptValid(Run(Initial(), steps[..j]), Run(Initial(), steps[..n]), o)
  {
    if j < n {
      ValidUntil(steps, j, n - 1, o);
      HeldRun(steps, n - 1, o);
      assert !DisplacesAt(steps, n - 1, o);
      SecondIssuance.PrefixStep(steps, n - 1);
      HeldNext(Run(Initial(), steps[..n - 1]), steps[n - 1], o);
    }
  }

  /** After i of the steps, more of them, all of finalize requests, have a valid order changed. */
  ghost predicate CanOverturn(steps: seq<Step>, i: nat, more: seq<Step>, j: nat, o: OrderId) {
    i <= |steps| && SecondIssuance.FinalizeOnly(more) && Overturned(steps[..i] + more, j, o)
  }

  lemma NothingOverturned(steps: seq<Step>, i: nat, more: seq<Step>, j: nat, o: OrderId)
    requires NoneDisplaced(steps, |steps|, o)
    ensures !CanOverturn(steps, i, more, j, o)
  {
    if CanOverturn(steps, i, more, j, o) {
      var run := steps[..i] + more;
      forall k: nat | k < |run| ensures !DisplacesAt(run, k, o) {
        if k < i {
          assert run[..k] == steps[..k] && run[k] == steps[k];
          assert !DisplacesAt(steps, k, o);
        } else {
          assert run[k] == more[k - i];
        }
      }
      assert run[..|run|] == run;
      ValidUntil(run, j, |run|, o);
    }
  }

  // ---------- and the other way ----------

  /** A holder that ends any other way than with this certificate writes over the order. */
  lemma HolderOverturns(s: State, t: RequestId, o: OrderId, cert: CertId) returns (more: seq<Step>)
    requires Holds(s, t, o) && o in s.orders && s.orders[o].status == Valid && s.orders[o].certificate == Some(cert)
    requires s.finalizing[t].Recorded? ==> s.finalizing[t].cert != cert
    ensures SecondIssuance.FinalizeOnly(more) && !KeptValid(s, Run(s, more), o)
    ensures Run(s, more).Calls(o) == s.Calls(o)
  {
    var end := FinalizeEnd(t, true);
    if s.finalizing[t].Failing? || s.finalizing[t].Recorded? {
      RunOne(s, end);
      more := [end];
    } else {
      var fail := if s.finalizing[t].Claimed? then FinalizeRefuse(t) else FinalizeRecord(t, false);
      RunTwo(s, fail, end);
      more := [fail, end];
    }
  }

  /** A held order that is ready is issued to another request, then written over by its holder. */
  lemma HeldAndReadyOverturns(s: State, t: RequestId, o: OrderId) returns (issue: seq<Step>, more: seq<Step>)
    requires Holds(s, t, o) && o in s.orders && s.orders[o].status == Ready
    ensures SecondIssuance.FinalizeOnly(issue) && SecondIssuance.FinalizeOnly(more)
    ensures var mid := Run(s, issue);
            && o in mid.orders && mid.orders[o].status == Valid && !KeptValid(mid, Run(mid, more), o)
            && Run(mid, more).Calls(o) == mid.Calls(o) == s.Calls(o) + 1
  {
    var u := SecondIssuance.AnotherRequest(s.finalizing.Keys);
    assert u !in s.finalizing;
    var now := s.orders[o].expires - 1;
    var cert: CertId := if s.finalizing[t].Recorded? then s.finalizing[t].cert + 1 else 0;
    issue := OrderServer.ItsSteps(u, o, now, false, Some(cert), true, true);
    OrderServer.FinalizedAloneIsItsSteps(s, u, o, now, false, Some(cert), true, true);
    assert multiset(s.signerCalls + [o]) == multiset(s.signerCalls) + multiset{o};
    more := HolderOverturns(Run(s, issue), t, o, cert);
  }

  lemma {:induction false} FirstDisplaced(steps: seq<Step>, i: nat, o: OrderId) returns (k: nat)
    requires DisplacesAt(steps, i, o)
    ensures DisplacesAt(steps, k, o) && NoneDisplaced(steps, k, o)
    decreases i
  {
    if j: nat :| j < i && DisplacesAt(steps, j, o) {
      k := FirstDisplaced(steps, j, o);
    } else {
      k := i;
    }
  }

  lemma RunThree(s: State, a: seq<Step>, b: seq<Step>, c: seq<Step>)
    ensures Run(s, a + (b + c)) == Run(Run(Run(s, a), b), c)
    ensures Run(s, (a + (b + c))[..|a + b|]) == Run(Run(s, a), b)
  {
    RunSplit(s, a, b + c);
    RunSplit(Run(s, a), b, c);
    assert (a + (b + c))[..|a + b|] == a + b;
    RunSplit(s, a, b);
  }

  lemma DisplacedOverturns(steps: seq<Step>, i: nat, o: OrderId) returns (more: seq<Step>, j: nat)
    requires DisplacesAt(steps, i, o) && NoneDisplaced(steps, i, o)
    ensures CanOverturn(steps, i + 1, more, j, o)
  {
    var s, front := Run(Initial(), steps[..i]), steps[..i + 1];
    HeldRun(steps, i, o);
    SecondIssuance.PrefixStep(steps, i);
    var s' := Next(s, steps[i]);
    if s.orders[o].status == Valid {
      more, j := [], i;
      assert front + [] == front && front[..i] == steps[..i];
    } else {
      var t :| Holds(s, t, o);
      assert Holds(s', t, o);
      var issue, rest := HeldAndReadyOverturns(s', t, o);
      more, j := issue + rest, |front + issue|;
      RunThree(Initial(), front, issue, rest);
    }
  }

  /**
   Exactly when: of any run of single steps, some point can be carried on by finalize
   requests alone (or by nothing) to a valid order that has changed, if and only if
   some challenge request writes over the order when it is valid, or writes it ready
   while a finalize request holds it.
   */
  lemma ValidChangesExactly(steps: seq<Step>, o: OrderId)
    ensures (exists i: nat, more, j: nat :: CanOverturn(steps, i, more, j, o))
            <==> (exists i: nat :: DisplacesAt(steps, i, o))
  {
    if i: nat :| DisplacesAt(steps, i, o) {
      var k := FirstDisplaced(steps, i, o);
      var more, j := DisplacedOverturns(steps, k, o);
    } else {
      forall i: nat, more, j: nat ensures !CanOverturn(steps, i, more, j, o) {
        NothingOverturned(steps, i, more, j, o);
      }
    }
  }

  // ---------- and it is reached ----------

  /** Two requests have read the one pending authorization: the second answers after the order was claimed. */
  lemma AnsweredAfterClaim(s: State, now: int) returns (steps: seq<Step>)
    requires SecondIssuance.BothReading(s, now)
    ensures var s' := Run(s, steps);
            Holds(s', 1, 1) && 1 in s'.orders && s'.orders[1].status == Ready && s'.Calls(1) == 0
  {
    var answer1 := [RespondAuthz(1, now, true, true), RespondOrder(1, true)];
    var claim := [FinalizeRead(1, 1, now), FinalizeClaim(1, now)];
    var answer2 := [RespondAuthz(2, now, true, true), RespondOrder(2, true)];
    SecondIssuance.StaleAnswerReopens(s, 1, now);
    var s1 := Run(s, answer1);
    RunTwo(s1, claim[0], claim[1]);
    var s2 := Run(s1, claim);
    assert s2.AuthzsOf(1) == s1.AuthzsOf(1);
    SecondIssuance.StaleAnswerReopens(s2, 2, now);
    RunSplit(s, answer1, claim);
    RunSplit(s, answer1 + claim, answer2);
    steps := answer1 + claim + answer2;
  }

  /** Two interleaved challenge requests and two finalize requests have a valid order changed, with one call to the signer. */
  lemma ChallengeRaceOverturns(name: string, expires: int, now: int)
    requires now < expires
    ensures exists steps, j: nat :: Overturned(steps, j, 1) && Run(Initial(), steps).Calls(1) == 1
  {
    var head := SecondIssuance.TwoLook(name, expires);
    SecondIssuance.TwoReadOnePending(name, expires, now);
    var race := AnsweredAfterClaim(Run(Initial(), head), now);
    RunSplit(Initial(), head, race);
    var issue, more := HeldAndReadyOverturns(Run(Initial(), head + race), 1, 1);
    RunThree(Initial(), head + race, issue, more);
    assert Overturned(head + race + (issue + more), |head + race + issue|, 1);
  }
}
