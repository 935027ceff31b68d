/**
 What an order's authorizations guarantee, with challenge requests handled each
 as a whole: every name of an order that goes on to issue has been proved.
 */
module Authorizations {
  import opened Prelude
  import opened Orders
  import OrderServer

  /** The status changes of RFC 8555 section 7.1.6 that the server makes. */
  predicate Moves(from: OrderStatus, to: OrderStatus) {
    || from == to
    || (from == Pending && (to == Ready || to == Invalid))
    || (from == Ready && to == Processing)
    || (from == Processing && (to == Valid || to == Invalid))
  }

  /**
   The step leaves no order with some of its authorizations but not all, unless
   marked invalid: creating them succeeded, or failed at the first, or was recorded.
   */
  predicate CreatesWhole(step: Step) {
    step.NewOrder? && step.requiresProof ==>
      step.made == |step.identifiers| || step.made == 0 || step.ended
  }

  predicate Handled(step: Step) {
    !ByRespond(step) && CreatesWhole(step)
  }

  predicate AllHandled(steps: seq<Step>) {
    forall i :: 0 <= i < |steps| ==> Handled(steps[i])
  }

  /** The order write that follows a decision was not lost. */
  predicate Recorded(step: Step) {
    step.RespondAtOnce? ==> step.orderWritten
  }

  predicate AllRecorded(steps: seq<Step>) {
    forall i :: 0 <= i < |steps| ==> Recorded(steps[i])
  }

  /**
   The authorization is for this identifier: of a wildcard the name below it, proved
   in its zone or not at all; of any other name that name, proved by any challenge.
   */
  predicate For(a: Authz, identifier: string) {
    && (if "*." <= identifier then a.wildcard && a.value == identifier[2..]
        else !a.wildcard && a.value == identifier)
    && (a.status == Proved ==> if a.wildcard then a.validatedWith == Some(Dns01) else a.validatedWith.Some?)
  }

  ghost predicate Backed(s: State, o: OrderId)
    requires o in s.orders
  {
    var order, all := s.orders[o], s.AuthzsOf(o);
    && |all| <= |order.identifiers|
    && (forall i :: 0 <= i < |all| ==> For(all[i], order.identifiers[i]))
    && (order.status in {Ready, Processing, Valid} ==> |all| == |order.identifiers| && AllProved(all))
    && (s.Calls(o) > 0 ==> |all| == |order.identifiers| && AllProved(all))
    && (order.status == Pending ==> |all| == |order.identifiers| || all == [])
  }

  /** One refused authorization means an invalid order; all proved, an order past pending. */
  ghost predicate Followed(s: State, o: OrderId)
    requires o in s.orders
  {
    var order, all := s.orders[o], s.AuthzsOf(o);
    && ((exists i :: 0 <= i < |all| && all[i].status == Refused) ==> order.status == Invalid)
    && (all != [] && order.status == Pending ==> !AllProved(all))
  }

  ghost predicate Inv(s: State, o: OrderId, recorded: bool) {
    && Safe(s, o)
    && (o in s.proof ==> o in s.orders && Backed(s, o) && (recorded ==> Followed(s, o)))
  }

  /** A step that leaves the order, its authorizations and its calls alone. */
  lemma InvUntouched(s: State, s': State, o: OrderId, recorded: bool)
    requires Inv(s, o, recorded) && Safe(s', o)
    requires o in s'.proof <==> o in s.proof
    requires o in s.proof ==>
               o in s'.orders && s'.orders[o] == s.orders[o] && s'.AuthzsOf(o) == s.AuthzsOf(o)
               && s'.Calls(o) == s.Calls(o)
    ensures Inv(s', o, recorded)
  {
  }

  lemma InvCreated(s: State, ids: seq<string>, e: int, m: nat, d: bool, o: OrderId, recorded: bool)
    requires Inv(s, o, recorded) && o !in s.orders && m <= |ids| && (m == |ids| || m == 0 || d)
    requires Safe(Create(s, o, ids, true, e, m, d), o)
    ensures Inv(Create(s, o, ids, true, e, m, d), o, recorded)
  {
    var all := Authorizations(ids, e, m);
    assert Create(s, o, ids, true, e, m, d).AuthzsOf(o) == all;
    forall i | 0 <= i < m ensures For(all[i], ids[i]) && all[i].status == Undecided {
      assert all[i] == AuthzFor(ids[i], e);
    }
  }

  lemma InvCreate(s: State, c: OrderId, ids: seq<string>, p: bool, e: int, m: nat, d: bool, o: OrderId, recorded: bool)
    requires Inv(s, o, recorded) && (p ==> m == |ids| || m == 0 || d)
    ensures Inv(Create(s, c, ids, p, e, m, d), o, recorded)
  {
    SafeCreate(s, c, ids, p, e, m, d, o);
    if c == o && o !in s.orders && m <= |ids| && p {
      InvCreated(s, ids, e, m, d, o, recorded);
    } else {
      InvUntouched(s, Create(s, c, ids, p, e, m, d), o, recorded);
    }
  }

  /** An answered challenge is the one change to an order's authorizations. */
  lemma InvAnswer(s: State, s': State, o: OrderId, i: nat, kind: Kind, proved: bool, written: bool, recorded: bool)
    requires Inv(s, o, recorded) && Answerable(s, o, i, kind) && o in s.proof && (recorded ==> written)
    requires Safe(s', o) && o in s'.orders && s'.proof == s.proof && s'.signerCalls == s.signerCalls
    requires s'.AuthzsOf(o) == s.AuthzsOf(o)[i := Decided(s.AuthzsOf(o)[i], kind, proved)]
    requires s'.orders[o] == if written then s.orders[o].(status := StatusAfter(s.orders[o], s'.AuthzsOf(o), proved))
                             else s.orders[o]
    ensures Inv(s', o, recorded)
  {
    var all, all' := s.AuthzsOf(o), s'.AuthzsOf(o);
    assert all'[i].status == if proved then Proved else Refused;
    forall k | 0 <= k < |all'| ensures For(all'[k], s'.orders[o].identifiers[k]) {
      assert For(all[k], s.orders[o].identifiers[k]);
    }
    if recorded && proved {
      assert forall k :: 0 <= k < |all| ==> all[k].status != Refused;
    }
  }

  predicate Decides(s: State, step: Step, o: OrderId)
    requires step.RespondAtOnce?
  {
    step.order == o && step.request !in s.responding && Answerable(s, o, step.index, step.kind) && step.authzWritten
  }

  lemma InvAnswered(s: State, step: Step, o: OrderId, recorded: bool)
    requires Inv(s, o, recorded) && step.RespondAtOnce? && (recorded ==> step.orderWritten)
    requires Decides(s, step, o) && o in s.proof && Safe(Next(s, step), o)
    ensures Inv(Next(s, step), o, recorded)
  {
    AtOnceEffect(s, step.request, o, step.index, step.kind, step.now, step.looked, true, step.orderWritten);
    var proved := step.looked && s.authzs[o][step.index].expires > step.now;
    InvAnswer(s, Next(s, step), o, step.index, step.kind, proved, step.orderWritten, recorded);
  }

  lemma InvUnanswered(s: State, step: Step, o: OrderId, recorded: bool)
    requires Inv(s, o, recorded) && step.RespondAtOnce? && Safe(Next(s, step), o)
    requires !Decides(s, step, o) || o !in s.proof
    ensures Inv(Next(s, step), o, recorded)
  {
    AtOnceEffect(s, step.request, step.order, step.index, step.kind, step.now, step.looked,
                 step.authzWritten, step.orderWritten);
    InvUntouched(s, Next(s, step), o, recorded);
  }

  /** A finalize step touches no authorization, and the order only as far as its status and certificate. */
  predicate OnlyFinalized(s: State, s': State, o: OrderId)
    requires o in s.orders
  {
    && s'.authzs == s.authzs && s'.proof == s.proof && o in s'.orders
    && s'.orders[o].identifiers == s.orders[o].identifiers
    && (s'.Calls(o) > s.Calls(o) ==> s.orders[o].status == Processing)
    && (s.orders[o].status in {Pending, Invalid} ==> s'.orders[o].status == s.orders[o].status)
    && Moves(s.orders[o].status, s'.orders[o].status)
  }

  lemma FinalizeMoves(s: State, step: Step, o: OrderId)
    requires Safe(s, o) && o in s.orders && ByFinalize(step)
    ensures OnlyFinalized(s, Next(s, step), o)
  {
    match step
    case FinalizeRead(t, c, now) =>
    case FinalizeClaim(t, now) => ClaimMoves(s, t, now, o);
    case FinalizeRefuse(t) =>
    case FinalizeSign(t, cert) => SignMoves(s, t, cert, o);
    case FinalizeRecord(t, ok) =>
    case FinalizeEnd(t, written) => EndMoves(s, t, written, o);
  }

  lemma ClaimMoves(s: State, t: RequestId, now: int, o: OrderId)
    requires o in s.orders
    ensures OnlyFinalized(s, Claim(s, t, now), o)
  {
  }

  lemma SignMoves(s: State, t: RequestId, cert: Option<CertId>, o: OrderId)
    requires Safe(s, o) && o in s.orders
    ensures OnlyFinalized(s, Sign(s, t, cert), o)
  {
    if t in s.finalizing && s.finalizing[t].Claimed? {
      var called := s.finalizing[t].order;
      assert called == o ==> Holds(s, t, o);
      assert multiset(s.signerCalls + [called]) == multiset(s.signerCalls) + multiset{called};
    }
  }

  lemma EndMoves(s: State, t: RequestId, written: bool, o: OrderId)
    requires Safe(s, o) && o in s.orders
    ensures OnlyFinalized(s, End(s, t, written), o)
  {
    if t in s.finalizing && !s.finalizing[t].Claiming? && s.finalizing[t].order == o {
      assert Holds(s, t, o);
    }
  }

  lemma InvFinalize(s: State, step: Step, o: OrderId, recorded: bool)
    requires Inv(s, o, recorded) && ByFinalize(step)
    ensures Inv(Next(s, step), o, recorded)
  {
    SafeFinalize(s, step, o);
    if o in s.orders {
      FinalizeMoves(s, step, o);
    } else {
      ProofKept(s, step);
    }
  }

  lemma ProofKept(s: State, step: Step)
    requires ByFinalize(step)
    ensures Next(s, step).proof == s.proof
  {
  }

  lemma InvNext(s: State, step: Step, o: OrderId, recorded: bool)
    requires Inv(s, o, recorded) && Handled(step) && (recorded ==> Recorded(step))
    ensures Inv(Next(s, step), o, recorded)
  {
    if step.NewOrder? {
      InvCreate(s, step.order, step.identifiers, step.requiresProof, step.expires, step.made, step.ended, o, recorded);
    } else if step.RespondAtOnce? {
      SafeAtOnce(s, step, o);
      if Decides(s, step, o) && o in s.proof {
        InvAnswered(s, step, o, recorded);
      } else {
        InvUnanswered(s, step, o, recorded);
      }
    } else {
      InvFinalize(s, step, o, recorded);
    }
  }

  lemma {:induction false} InvRun(s: State, steps: seq<Step>, o: OrderId, recorded: bool)
    requires Inv(s, o, recorded) && AllHandled(steps) && (recorded ==> AllRecorded(steps))
    ensures Inv(Run(s, steps), o, recorded)
    decreases |steps|
  {
    if steps != [] {
      InvNext(s, steps[0], o, recorded);
      InvRun(Next(s, steps[0]), steps[1..], o, recorded);
    }
  }

  /**
   Proof before issuance: an order that requires proof and is ready or further,
   or for which the signer was ever called, has one authorization per identifier,
   each for that name and proved, a wildcard's in its zone. Lost writes included.
   */
  lemma ProvedBeforeIssuance(steps: seq<Step>, o: OrderId)
    requires AllHandled(steps) && o in Run(Initial(), steps).proof
    ensures var s := Run(Initial(), steps);
            && o in s.orders
            && |s.AuthzsOf(o)| <= |s.orders[o].identifiers|
            && (forall i :: 0 <= i < |s.AuthzsOf(o)| ==>
                  var a, name := s.AuthzsOf(o)[i], s.orders[o].identifiers[i];
                  if "*." <= name then
                    a.wildcard && a.value == name[2..] && (a.status == Proved ==> a.validatedWith == Some(Dns01))
                  else !a.wildcard && a.value == name && (a.status == Proved ==> a.validatedWith.Some?))
            && (s.orders[o].status in {Ready, Processing, Valid} || s.Calls(o) > 0 ==>
                  && |s.AuthzsOf(o)| == |s.orders[o].identifiers|
                  && (forall i :: 0 <= i < |s.AuthzsOf(o)| ==> s.AuthzsOf(o)[i].status == Proved))
  {
    InvRun(Initial(), steps, o, false);
  }

  /** When no write is lost the order follows: invalid with a refused authorization, never pending with all proved. */
  lemma OrderFollows(steps: seq<Step>, o: OrderId)
    requires AllHandled(steps) && AllRecorded(steps) && o in Run(Initial(), steps).proof
    ensures o in Run(Initial(), steps).orders && Followed(Run(Initial(), steps), o)
  {
    InvRun(Initial(), steps, o, true);
  }

  lemma RespondMoves(s: State, step: Step, o: OrderId)
    requires Safe(s, o) && o in s.orders && !Stale(s, step, o)
    requires ByRespond(step)
    ensures o in Next(s, step).orders && Moves(s.orders[o].status, Next(s, step).orders[o].status)
  {
  }

  lemma AtOnceMoves(s: State, step: Step, o: OrderId)
    requires o in s.orders && step.RespondAtOnce?
    ensures o in Next(s, step).orders && Moves(s.orders[o].status, Next(s, step).orders[o].status)
  {
    AtOnceEffect(s, step.request, step.order, step.index, step.kind, step.now, step.looked,
                 step.authzWritten, step.orderWritten);
  }

  /**
   In every state single steps reach, every step moves every order only as section
   7.1.6 has it, as long as challenge requests' order writes find it pending.
   */
  lemma StatusMoves(steps: seq<Step>, step: Step, o: OrderId)
    requires NoneStale(Initial(), steps, o) && !Stale(Run(Initial(), steps), step, o)
    requires o in Run(Initial(), steps).orders
    ensures var s := Run(Initial(), steps);
            o in Next(s, step).orders && Moves(s.orders[o].status, Next(s, step).orders[o].status)
  {
    var s := Run(Initial(), steps);
    assert Safe(Initial(), o);
    SafeRun(Initial(), steps, o);
    if ByFinalize(step) {
      FinalizeMoves(s, step, o);
    } else if step.RespondAtOnce? {
      AtOnceMoves(s, step, o);
    } else if !step.NewOrder? {
      RespondMoves(s, step, o);
    }
  }

  // ---------- decided once ----------

  predicate DecidedIn(s: State, o: OrderId, i: nat, a: Authz) {
    o in s.orders && i < |s.AuthzsOf(o)| && s.AuthzsOf(o)[i] == a && a.status != Undecided
  }

  lemma DecidedStep(s: State, step: Step, o: OrderId, i: nat, a: Authz)
    requires DecidedIn(s, o, i, a) && !ByRespond(step)
    ensures DecidedIn(Next(s, step), o, i, a)
  {
    if step.RespondAtOnce? {
      AtOnceEffect(s, step.request, step.order, step.index, step.kind, step.now, step.looked,
                   step.authzWritten, step.orderWritten);
    }
  }

  lemma {:induction false} DecidedRun(s: State, steps: seq<Step>, o: OrderId, i: nat, a: Authz)
    requires DecidedIn(s, o, i, a) && RespondsAtOnce(steps)
    ensures DecidedIn(Run(s, steps), o, i, a)
    decreases |steps|
  {
    if steps != [] {
      DecidedStep(s, steps[0], o, i, a);
      DecidedRun(Next(s, steps[0]), steps[1..], o, i, a);
    }
  }

  /** With challenge requests handled each as a whole, an authorization is decided once: it never changes again. */
  lemma DecidedOnce(before: seq<Step>, after: seq<Step>, o: OrderId, i: nat)
    requires RespondsAtOnce(after) && o in Run(Initial(), before).orders
    requires i < |Run(Initial(), before).AuthzsOf(o)| && Run(Initial(), before).AuthzsOf(o)[i].status != Undecided
    ensures i < |Run(Initial(), before + after).AuthzsOf(o)|
    ensures Run(Initial(), before + after).AuthzsOf(o)[i] == Run(Initial(), before).AuthzsOf(o)[i]
  {
    RunSplit(Initial(), before, after);
    DecidedRun(Run(Initial(), before), after, o, i, Run(Initial(), before).AuthzsOf(o)[i]);
  }

  // ---------- orders created in part ----------

  /** Authorization i answered at once, in its zone. */
  function Answer(o: OrderId, i: nat, now: int): Step {
    RespondAtOnce(0, o, i, Dns01, now, true, true, true)
  }

  /** Each of the first n authorizations answered in turn. */
  function Answers(o: OrderId, n: nat, now: int): seq<Step> {
    if n == 0 then [] else Answers(o, n - 1, now) + [Answer(o, n - 1, now)]
  }

  /** The order as it stands with its first n authorizations proved and the rest still to do. */
  predicate ProvedUpTo(s: State, o: OrderId, n: nat, now: int) {
    && s.responding == map[] && o in s.orders && 0 < |s.AuthzsOf(o)| && n <= |s.AuthzsOf(o)|
    && s.orders[o].status == (if n == |s.AuthzsOf(o)| then Ready else Pending)
    && (forall i :: 0 <= i < n ==> s.AuthzsOf(o)[i].status == Proved)
    && (forall i :: n <= i < |s.AuthzsOf(o)| ==>
          s.AuthzsOf(o)[i].status == Undecided && s.AuthzsOf(o)[i].expires > now)
  }

  /** The first n authorizations of the order as it was in s are proved in s'. */
  predicate Answered(s: State, s': State, o: OrderId, n: nat, now: int)
    requires o in s.orders
  {
    ProvedUpTo(s', o, n, now) && SameOrder(s, s', o) && s'.proof == s.proof
  }

  lemma ProvedOneMore(s: State, mid: State, o: OrderId, n: nat, now: int)
    requires o in s.orders && Answered(s, mid, o, n, now) && n < |s.AuthzsOf(o)|
    ensures Answered(s, Next(mid, Answer(o, n, now)), o, n + 1, now)
  {
    AtOnceEffect(mid, 0, o, n, Dns01, now, true, true, true);
    var all := mid.AuthzsOf(o)[n := Decided(mid.AuthzsOf(o)[n], Dns01, true)];
    if n + 1 < |all| {
      assert all[n + 1].status == Undecided;
    }
  }

  lemma OneMoreAnswer(s: State, answers: seq<Step>, o: OrderId, n: nat, now: int)
    requires o in s.orders && Answered(s, Run(s, answers), o, n, now) && n < |s.AuthzsOf(o)|
    ensures Answered(s, Run(s, answers + [Answer(o, n, now)]), o, n + 1, now)
  {
    ProvedOneMore(s, Run(s, answers), o, n, now);
    RunMore(s, answers, Answer(o, n, now));
  }

  lemma {:induction false} AnswersProve(s: State, o: OrderId, n: nat, now: int)
    requires ProvedUpTo(s, o, 0, now) && n <= |s.AuthzsOf(o)|
    ensures Answered(s, Run(s, Answers(o, n, now)), o, n, now)
  {
    if n > 0 {
      AnswersProve(s, o, n - 1, now);
      OneMoreAnswer(s, Answers(o, n - 1, now), o, n - 1, now);
    }
  }

  lemma {:induction false} AnswersHandled(o: OrderId, n: nat, now: int)
    ensures AllHandled(Answers(o, n, now))
  {
    if n > 0 {
      AnswersHandled(o, n - 1, now);
    }
  }

  /** An order that requires proof is ready although not every name it asks for is proved. */
  predicate ReadyUnproved(s: State, o: OrderId) {
    && o in s.proof && o in s.orders && s.orders[o].status == Ready
    && !(|s.AuthzsOf(o)| == |s.orders[o].identifiers| && AllProved(s.AuthzsOf(o)))
  }

  lemma CreatedInPart(s: State, step: Step) returns (after: seq<Step>)
    requires s.responding == map[] && step.NewOrder? && step.order !in s.orders
    requires step.made <= |step.identifiers| && !CreatesWhole(step)
    ensures AllHandled(after) && ReadyUnproved(Run(Next(s, step), after), step.order)
  {
    var now := step.expires - 1;
    var s' := Next(s, step);
    var all := Authorizations(step.identifiers, step.expires, step.made);
    assert s'.AuthzsOf(step.order) == all;
    forall i | 0 <= i < |all| ensures all[i].status == Undecided && all[i].expires > now {
      assert all[i] == AuthzFor(step.identifiers[i], step.expires);
    }
    AnswersProve(s', step.order, step.made, now);
    AnswersHandled(step.order, step.made, now);
    after := Answers(step.order, step.made, now);
  }

  lemma CreatedWhole(before: seq<Step>, step: Step, after: seq<Step>)
    requires AllHandled(before) && Handled(step) && AllHandled(after) && step.NewOrder?
    ensures !ReadyUnproved(Run(Next(Run(Initial(), before), step), after), step.order)
  {
    var s := Run(Initial(), before);
    InvRun(Initial(), before, step.order, false);
    InvNext(s, step, step.order, false);
    InvRun(Next(s, step), after, step.order, false);
  }

  /**
   CreatesWhole is exactly what it takes: from any state handlers reach, a new order
   can go on to be ready with a name unproved if and only if it was created in part,
   some of its authorizations stored, not all, and it not marked invalid.
   */
  lemma ReadyUnprovedExactly(before: seq<Step>, step: Step)
    requires AllHandled(before) && step.NewOrder? && step.order !in Run(Initial(), before).orders
    requires step.made <= |step.identifiers|
    ensures (exists after :: AllHandled(after)
                             && ReadyUnproved(Run(Next(Run(Initial(), before), step), after), step.order))
            <==> !CreatesWhole(step)
  {
    var s := Run(Initial(), before);
    if CreatesWhole(step) {
      forall after | AllHandled(after) ensures !ReadyUnproved(Run(Next(s, step), after), step.order) {
        CreatedWhole(before, step, after);
      }
    } else {
      NobodyResponding(Initial(), before, step.order);
      var after := CreatedInPart(s, step);
    }
  }

  // ---------- an order that goes through ----------

  /** No request is touched, no signer called, and of the order only its status. */
  predicate StatusAside(s: State, s': State, o: OrderId)
    requires o in s.orders
  {
    && s'.finalizing == s.finalizing && s'.signerCalls == s.signerCalls
    && o in s'.orders && s'.orders[o] == s.orders[o].(status := s'.orders[o].status)
  }

  lemma OneAnswerAside(s: State, mid: State, o: OrderId, i: nat, now: int)
    requires o in s.orders && StatusAside(s, mid, o)
    ensures StatusAside(s, Next(mid, Answer(o, i, now)), o)
  {
    AtOnceEffect(mid, 0, o, i, Dns01, now, true, true, true);
  }

  lemma MoreAnswersAside(s: State, answers: seq<Step>, o: OrderId, i: nat, now: int)
    requires o in s.orders && StatusAside(s, Run(s, answers), o)
    ensures StatusAside(s, Run(s, answers + [Answer(o, i, now)]), o)
  {
    OneAnswerAside(s, Run(s, answers), o, i, now);
    RunMore(s, answers, Answer(o, i, now));
  }

  lemma {:induction false} AnswersAside(s: State, o: OrderId, n: nat, now: int)
    requires o in s.orders
    ensures StatusAside(s, Run(s, Answers(o, n, now)), o)
  {
    if n > 0 {
      AnswersAside(s, o, n - 1, now);
      MoreAnswersAside(s, Answers(o, n - 1, now), o, n - 1, now);
    }
  }

  lemma CreatedAndProved(s: State, o: OrderId, ids: seq<string>, requiresProof: bool, expires: int, now: int)
    returns (after: seq<Step>)
    requires s.responding == map[] && o !in s.orders && ids != [] && now < expires
    ensures var s' := Run(Next(s, NewOrder(o, ids, requiresProof, expires, |ids|, false)), after);
            && AllHandled(after) && s'.finalizing == s.finalizing && s'.signerCalls == s.signerCalls
            && o in s'.orders && s'.orders[o] == Order(Ready, ids, expires, None)
  {
    var s1 := Next(s, NewOrder(o, ids, requiresProof, expires, |ids|, false));
    if !requiresProof {
      return [];
    }
    var all := Orders.Authorizations(ids, expires, |ids|);
    assert s1.AuthzsOf(o) == all;
    forall i | 0 <= i < |all| ensures all[i].status == Undecided && all[i].expires > now {
      assert all[i] == AuthzFor(ids[i], expires);
    }
    AnswersProve(s1, o, |ids|, now);
    AnswersHandled(o, |ids|, now);
    AnswersAside(s1, o, |ids|, now);
    after := Answers(o, |ids|, now);
  }

  /**
   From every state handlers reach, a new order goes through: with every challenge that
   is required answered, a finalize that nothing is against makes it valid with the
   certificate signed, by one call to the signer.
   */
  lemma OrderGoesThrough(before: seq<Step>, o: OrderId, ids: seq<string>, requiresProof: bool, expires: int, now: int,
                         t: RequestId, cert: CertId)
    requires AllHandled(before) && ids != [] && now < expires
    requires o !in Run(Initial(), before).orders && t !in Run(Initial(), before).finalizing
    ensures var s1 := Next(Run(Initial(), before), NewOrder(o, ids, requiresProof, expires, |ids|, false));
            exists after ::
              && AllHandled(after)
              && var s2 := Run(Run(s1, after), OrderServer.ItsSteps(t, o, now, false, Some(cert), true, true));
                 && o in s2.orders && s2.orders[o] == Order(Valid, ids, expires, Some(cert))
                 && s2.signerCalls == Run(Initial(), before).signerCalls + [o]
  {
    var s := Run(Initial(), before);
    NobodyResponding(Initial(), before, o);
    var after := CreatedAndProved(s, o, ids, requiresProof, expires, now);
    var ready := Run(Next(s, NewOrder(o, ids, requiresProof, expires, |ids|, false)), after);
    OrderServer.FinalizedAloneIsItsSteps(ready, t, o, now, false, Some(cert), true, true);
  }
}
