/**
 Nothing is done for an order or an authorization that has expired: over every
 interleaving of single steps, what was issued was claimed in time, and what is
 proved was looked at in time.
 */
module InTime {
  import opened Prelude
  import opened Orders
  import SecondIssuance

  // ---------- issuance ----------

  ghost predicate Engaged(s: State, o: OrderId) {
    s.Calls(o) > 0 || exists t :: Holds(s, t, o)
  }

  /** The step claims the order, before it expires. */
  predicate ClaimsInTime(s: State, step: Step, o: OrderId) {
    && step.FinalizeClaim? && step.request in s.finalizing && s.finalizing[step.request].order == o
    && o in s.orders && step.now < s.orders[o].expires
  }

  lemma NotEngaged(s: State, s': State, o: OrderId)
    requires !Engaged(s, o) && s'.Calls(o) == s.Calls(o)
    requires forall t :: Holds(s', t, o) ==> Holds(s, t, o)
    ensures !Engaged(s', o)
  {
  }

  lemma NotEngagedBySign(s: State, t: RequestId, cert: Option<CertId>, o: OrderId)
    requires !Engaged(s, o)
    ensures !Engaged(Sign(s, t, cert), o)
  {
    if t in s.finalizing && s.finalizing[t].Claimed? {
      var called := s.finalizing[t].order;
      assert Holds(s, t, called);
      assert multiset(s.signerCalls + [called]) == multiset(s.signerCalls) + multiset{called};
    }
    NotEngaged(s, Sign(s, t, cert), o);
  }

  lemma EngagedByFinalize(s: State, step: Step, o: OrderId)
    requires ByFinalize(step) && !Engaged(s, o) && !ClaimsInTime(s, step, o)
    ensures !Engaged(Next(s, step), o)
  {
    match step
    case FinalizeRead(t, c, now) => NotEngaged(s, Read(s, t, c, now), o);
    case FinalizeClaim(t, now) => NotEngaged(s, Claim(s, t, now), o);
    case FinalizeRefuse(t) => NotEngaged(s, Refuse(s, t), o);
    case FinalizeSign(t, cert) => NotEngagedBySign(s, t, cert, o);
    case FinalizeRecord(t, ok) => NotEngaged(s, Record(s, t, ok), o);
    case FinalizeEnd(t, written) => NotEngaged(s, End(s, t, written), o);
  }

  lemma OthersEngageNobody(s: State, step: Step)
    requires !ByFinalize(step)
    ensures Next(s, step).finalizing == s.finalizing && Next(s, step).signerCalls == s.signerCalls
  {
    if step.RespondAtOnce? {
      AtOnceEffect(s, step.request, step.order, step.index, step.kind, step.now, step.looked,
                   step.authzWritten, step.orderWritten);
    }
  }

  lemma EngagedStep(s: State, step: Step, o: OrderId)
    requires !Engaged(s, o) && Engaged(Next(s, step), o)
    ensures ClaimsInTime(s, step, o)
  {
    if ByFinalize(step) {
      if !ClaimsInTime(s, step, o) {
        EngagedByFinalize(s, step, o);
      }
    } else {
      OthersEngageNobody(s, step);
      NotEngaged(s, Next(s, step), o);
    }
  }

  ghost predicate ClaimedInTime(steps: seq<Step>, k: nat, o: OrderId) {
    k < |steps| && ClaimsInTime(Run(Initial(), steps[..k]), steps[k], o)
  }

  lemma {:induction false} EngagedSince(steps: seq<Step>, o: OrderId, n: nat) returns (k: nat)
    requires n <= |steps| && Engaged(Run(Initial(), steps[..n]), o)
    ensures k < n && ClaimedInTime(steps, k, o)
  {
    assert !Engaged(Initial(), o) && steps[..0] == [];
    SecondIssuance.PrefixStep(steps, n - 1);
    if Engaged(Run(Initial(), steps[..n - 1]), o) {
      k := EngagedSince(steps, o, n - 1);
    } else {
      EngagedStep(Run(Initial(), steps[..n - 1]), steps[n - 1], o);
      k := n - 1;
    }
  }

  /** The signer is called only for orders that some request claimed before they expired. */
  lemma IssuedInTime(steps: seq<Step>, o: OrderId)
    requires Run(Initial(), steps).Calls(o) > 0
    ensures o in Run(Initial(), steps).orders
    ensures exists k: nat :: k < |steps| && steps[k].FinalizeClaim? && steps[k].now < Run(Initial(), steps).orders[o].expires
                             && ClaimedInTime(steps, k, o)
  {
    assert steps[..|steps|] == steps;
    var k := EngagedSince(steps, o, |steps|);
    SameFrom(steps, k, o);
    assert ClaimedInTime(steps, k, o);
  }

  // ---------- proof ----------

  /** The request's copies are of this order's authorizations. */
  predicate CopyAged(s: State, r: Respond) {
    match r
    case Opening(o, _) => o in s.orders
    case Checking(o, _, read, _, _) =>
      && o in s.orders && |read| == |s.AuthzsOf(o)|
      && forall i :: 0 <= i < |read| ==> read[i].expires == s.AuthzsOf(o)[i].expires
    case Deciding(_, _) => true
  }

  predicate CopiesAged(s: State) {
    forall t :: t in s.responding ==> CopyAged(s, s.responding[t])
  }

  /** A step makes no copy but of what is in the store. */
  lemma CopiesFrom(s: State, step: Step, t: RequestId)
    requires (t in s.responding ==> CopyAged(s, s.responding[t])) && t in Next(s, step).responding && !step.RespondAtOnce?
    ensures var r := Next(s, step).responding[t];
            || (t in s.responding && r == s.responding[t])
            || r.Deciding? || (r.Opening? && r.order in s.orders)
            || (r.Checking? && r.order in s.orders && r.all == s.AuthzsOf(r.order))
  {
  }

  lemma CopiesStayAged(s: State, step: Step)
    requires CopiesAged(s)
    ensures CopiesAged(Next(s, step))
  {
    var s' := Next(s, step);
    forall t | t in s'.responding ensures CopyAged(s', s'.responding[t]) {
      var o := s'.responding[t].order;
      if step.RespondAtOnce? {
        AtOnceEffect(s, step.request, step.order, step.index, step.kind, step.now, step.looked,
                     step.authzWritten, step.orderWritten);
        assert CopyAged(s, s.responding[t]);
      } else {
        assert t in s.responding ==> CopyAged(s, s.responding[t]);
        CopiesFrom(s, step, t);
      }
      if o in s.orders {
        StaysSame(s, step, o);
      }
    }
  }

  /** The step looks at authorization i of the order, finds what it looks for, and it has not expired. */
  predicate LooksInTime(s: State, step: Step, o: OrderId, i: nat)
    requires i < |s.AuthzsOf(o)|
  {
    || (step.RespondAuthz? && step.looked && step.now < s.AuthzsOf(o)[i].expires
        && step.request in s.responding && s.responding[step.request].Checking?
        && s.responding[step.request].order == o && s.responding[step.request].index == i)
    || (step.RespondAtOnce? && step.looked && step.now < s.AuthzsOf(o)[i].expires && step.order == o && step.index == i)
  }

  predicate ProvedAt(s: State, o: OrderId, i: nat) {
    i < |s.AuthzsOf(o)| && s.AuthzsOf(o)[i].status == Proved
  }

  lemma ProvedByDecide(s: State, step: Step, o: OrderId, i: nat)
    requires CopiesAged(s) && step.RespondAuthz? && !ProvedAt(s, o, i) && ProvedAt(Next(s, step), o, i)
    ensures o in s.orders && i < |s.AuthzsOf(o)| && LooksInTime(s, step, o, i)
  {
    assert CopyAged(s, s.responding[step.request]);
  }

  lemma ProvedByAtOnce(s: State, step: Step, o: OrderId, i: nat)
    requires step.RespondAtOnce? && !ProvedAt(s, o, i) && ProvedAt(Next(s, step), o, i)
    ensures o in s.orders && i < |s.AuthzsOf(o)| && LooksInTime(s, step, o, i)
  {
    AtOnceEffect(s, step.request, step.order, step.index, step.kind, step.now, step.looked,
                 step.authzWritten, step.orderWritten);
  }

  lemma ProvedNoOtherWay(s: State, step: Step, o: OrderId, i: nat)
    requires !step.RespondAuthz? && !step.RespondAtOnce? && !step.NewOrder? && !ProvedAt(s, o, i)
    ensures !ProvedAt(Next(s, step), o, i)
  {
    assert Next(s, step).authzs == s.authzs;
  }

  lemma CreatedUnproved(s: State, c: OrderId, ids: seq<string>, p: bool, e: int, m: nat, d: bool, o: OrderId, i: nat)
    requires !ProvedAt(s, o, i)
    ensures !ProvedAt(Create(s, c, ids, p, e, m, d), o, i)
  {
  }

  lemma ProvedStep(s: State, step: Step, o: OrderId, i: nat)
    requires CopiesAged(s) && !ProvedAt(s, o, i) && ProvedAt(Next(s, step), o, i)
    ensures o in s.orders && i < |s.AuthzsOf(o)| && LooksInTime(s, step, o, i)
  {
    if step.RespondAuthz? {
      ProvedByDecide(s, step, o, i);
    } else if step.RespondAtOnce? {
      ProvedByAtOnce(s, step, o, i);
    } else if step.NewOrder? {
      CreatedUnproved(s, step.order, step.identifiers, step.requiresProof, step.expires, step.made, step.ended, o, i);
    } else {
      ProvedNoOtherWay(s, step, o, i);
    }
  }

  ghost predicate LookedInTime(steps: seq<Step>, k: nat, o: OrderId, i: nat) {
    k < |steps| &&
    var s := Run(Initial(), steps[..k]);
    o in s.orders && i < |s.AuthzsOf(o)| && LooksInTime(s, steps[k], o, i)
  }

  lemma {:induction false} AgedUpTo(steps: seq<Step>, n: nat)
    requires n <= |steps|
    ensures CopiesAged(Run(Initial(), steps[..n]))
  {
    if n > 0 {
      AgedUpTo(steps, n - 1);
      SecondIssuance.PrefixStep(steps, n - 1);
      CopiesStayAged(Run(Initial(), steps[..n - 1]), steps[n - 1]);
    } else {
      assert steps[..0] == [];
    }
  }

  lemma ProvedHere(steps: seq<Step>, o: OrderId, i: nat, k: nat)
    requires k < |steps| && !ProvedAt(Run(Initial(), steps[..k]), o, i) && ProvedAt(Run(Initial(), steps[..k + 1]), o, i)
    ensures LookedInTime(steps, k, o, i)
  {
    SecondIssuance.PrefixStep(steps, k);
    AgedUpTo(steps, k);
    ProvedStep(Run(Initial(), steps[..k]), steps[k], o, i);
  }

  lemma {:induction false} ProvedSince(steps: seq<Step>, o: OrderId, i: nat, n: nat) returns (k: nat)
    requires n <= |steps| && ProvedAt(Run(Initial(), steps[..n]), o, i)
    ensures k < n && LookedInTime(steps, k, o, i)
  {
    assert !ProvedAt(Initial(), o, i) && steps[..0] == [];
    if ProvedAt(Run(Initial(), steps[..n - 1]), o, i) {
      k := ProvedSince(steps, o, i, n - 1);
    } else {
      ProvedHere(steps, o, i, n - 1);
      k := n - 1;
    }
  }

  /** An authorization counts as proved only by a challenge found answered before it expired. */
  lemma ProvedInTime(steps: seq<Step>, o: OrderId, i: nat)
    requires ProvedAt(Run(Initial(), steps), o, i)
    ensures exists k: nat :: LookedInTime(steps, k, o, i) && (steps[k].RespondAuthz? || steps[k].RespondAtOnce?)
                             && steps[k].now < Run(Initial(), steps).AuthzsOf(o)[i].expires
  {
    assert steps[..|steps|] == steps;
    var k := ProvedSince(steps, o, i, |steps|);
    SameFrom(steps, k, o);
    assert LookedInTime(steps, k, o, i);
  }
}
