/**
 What authorizations guarantee whatever interleaves: single store steps, stale
 copies and lost writes included. A name may be refused after it was proved, but the
 signer is never called for one that never was.
 */
module EverProved {
  import opened Prelude
  import opened Orders
  import opened Authorizations
  import SecondIssuance

  /** The authorizations that are proved now, by index. */
  function ProvedNow(all: seq<Authz>): (proved: set<nat>)
    ensures forall i: nat :: i in proved <==> i < |all| && all[i].status == Proved
  {
    set i: nat | i < |all| && all[i].status == Proved
  }

  predicate Covers(ever: set<nat>, n: nat) {
    forall i: nat :: i < n ==> i in ever
  }

  /**
   How many of an order's names have to be proved: all that are stored and, where
   orders are created whole, all that there are.
   */
  function Needs(s: State, o: OrderId, whole: bool): nat {
    if whole && o in s.orders && o in s.proof then |s.orders[o].identifiers| else |s.AuthzsOf(o)|
  }

  /** A pending order with anything to answer stores as many as it needs. */
  predicate Enough(status: OrderStatus, all: seq<Authz>, needs: nat) {
    status == Pending && all != [] ==> |all| == needs
  }

  /** A request's copies say nothing was proved that never was. */
  predicate CopyHonest(r: Respond, all: seq<Authz>, needs: nat, ever: set<nat>) {
    match r
    case Opening(_, copy) => Enough(copy.status, all, needs)
    case Checking(_, copy, read, index, kind) =>
      && copy.status == Pending && |read| == |all| == needs && index < |all| && kind in ChallengeTypes(all[index])
      && ProvedNow(read) <= ever
    case Deciding(_, copy) => copy.status in {Pending, Invalid} || (copy.status == Ready && Covers(ever, needs))
  }

  /** Authorizations as they are created and decided, for these names. */
  predicate AllFor(all: seq<Authz>, identifiers: seq<string>) {
    |all| <= |identifiers| && forall i :: 0 <= i < |all| ==> For(all[i], identifiers[i])
  }

  predicate AtWork(s: State, t: RequestId, o: OrderId) {
    t in s.finalizing && s.finalizing[t].order == o
  }

  /** The order is past pending and not invalid, or is being finalized, or the signer was called for it. */
  ghost predicate Due(s: State, o: OrderId) {
    (o in s.orders && s.orders[o].status in {Ready, Processing, Valid}) || s.Calls(o) > 0 || exists t :: AtWork(s, t, o)
  }

  /** Of an order that does not exist, there is nothing. */
  ghost predicate Absent(s: State, o: OrderId) {
    && Unknown(s, o) && o !in s.proof && forall t :: t in s.responding ==> s.responding[t].order != o
  }

  /** ever holds what was ever proved; an order that is due is covered by it. */
  ghost predicate Honest(s: State, o: OrderId, whole: bool, ever: set<nat>) {
    var all, needs := s.AuthzsOf(o), Needs(s, o, whole);
    && (o !in s.orders ==> Absent(s, o))
    && (Due(s, o) ==> Covers(ever, needs))
    && ProvedNow(all) <= ever
    && (o in s.orders ==> AllFor(all, s.orders[o].identifiers) && Enough(s.orders[o].status, all, needs))
    && (forall t :: t in s.responding && s.responding[t].order == o ==> CopyHonest(s.responding[t], all, needs, ever))
  }

  /** A step that leaves the order's authorizations alone, and does not make it due or pending. */
  lemma HonestElsewhere(s: State, s': State, o: OrderId, whole: bool, ever: set<nat>)
    requires Honest(s, o, whole, ever)
    requires s'.AuthzsOf(o) == s.AuthzsOf(o) && (o in s'.proof <==> o in s.proof)
    requires o in s'.orders <==> o in s.orders
    requires o in s.orders ==> s'.orders[o].identifiers == s.orders[o].identifiers
                               && (s'.orders[o].status == Pending ==> s.orders[o].status == Pending)
    requires Due(s', o) ==> Due(s, o) || Covers(ever, Needs(s, o, whole))
    requires o !in s.orders ==> s'.Calls(o) == s.Calls(o) && forall t :: !AtWork(s', t, o)
    requires forall t :: t in s'.responding && s'.responding[t].order == o ==>
               (t in s.responding && s'.responding[t] == s.responding[t])
               || (o in s.orders && CopyHonest(s'.responding[t], s.AuthzsOf(o), Needs(s, o, whole), ever))
    ensures Honest(s', o, whole, ever)
  {
    if o !in s.orders {
      forall t | t in s'.finalizing ensures s'.finalizing[t].order != o {
        assert !AtWork(s', t, o);
      }
    }
  }

  lemma HonestRead(s: State, t: RequestId, c: OrderId, now: int, o: OrderId, whole: bool, ever: set<nat>)
    requires Honest(s, o, whole, ever)
    ensures Honest(Read(s, t, c, now), o, whole, ever)
  {
    var s' := Read(s, t, c, now);
    if !Due(s, o) {
      forall u ensures !AtWork(s', u, o) {
        assert !AtWork(s, u, o);
      }
    }
    HonestElsewhere(s, s', o, whole, ever);
  }

  /** A later step of a finalize request makes nothing due that was not. */
  lemma HonestGoesOn(s: State, s': State, t: RequestId, o: OrderId, whole: bool, ever: set<nat>)
    requires Honest(s, o, whole, ever)
    requires s'.authzs == s.authzs && s'.responding == s.responding && s'.proof == s.proof
    requires s'.finalizing.Keys <= s.finalizing.Keys
    requires forall u :: u in s'.finalizing ==> s'.finalizing[u].order == s.finalizing[u].order
    requires o in s'.orders <==> o in s.orders
    requires o in s.orders ==> s'.orders[o].identifiers == s.orders[o].identifiers
                               && (s'.orders[o].status == Pending ==> s.orders[o].status == Pending)
    requires s' == s || (t in s.finalizing && (s.finalizing[t].order == o
                         || (s'.Calls(o) == s.Calls(o) && (o in s.orders ==> s'.orders[o] == s.orders[o]))))
    ensures Honest(s', o, whole, ever)
  {
    assert forall u :: AtWork(s', u, o) ==> AtWork(s, u, o);
    assert s' == s || AtWork(s, t, o) || s.finalizing[t].order != o;
    HonestElsewhere(s, s', o, whole, ever);
  }

  lemma HonestSign(s: State, t: RequestId, cert: Option<CertId>, o: OrderId, whole: bool, ever: set<nat>)
    requires Honest(s, o, whole, ever)
    ensures Honest(Sign(s, t, cert), o, whole, ever)
  {
    var s' := Sign(s, t, cert);
    if t in s.finalizing && s.finalizing[t].Claimed? {
      assert multiset(s'.signerCalls) == multiset(s.signerCalls) + multiset{s.finalizing[t].order};
    }
    HonestGoesOn(s, s', t, o, whole, ever);
  }

  lemma HonestClaim(s: State, t: RequestId, now: int, o: OrderId, whole: bool, ever: set<nat>)
    requires Honest(s, o, whole, ever)
    ensures Honest(Claim(s, t, now), o, whole, ever)
  {
    HonestGoesOn(s, Claim(s, t, now), t, o, whole, ever);
  }

  lemma HonestRefuse(s: State, t: RequestId, o: OrderId, whole: bool, ever: set<nat>)
    requires Honest(s, o, whole, ever)
    ensures Honest(Refuse(s, t), o, whole, ever)
  {
    HonestGoesOn(s, Refuse(s, t), t, o, whole, ever);
  }

  lemma HonestRecord(s: State, t: RequestId, ok: bool, o: OrderId, whole: bool, ever: set<nat>)
    requires Honest(s, o, whole, ever)
    ensures Honest(Record(s, t, ok), o, whole, ever)
  {
    HonestGoesOn(s, Record(s, t, ok), t, o, whole, ever);
  }

  lemma HonestEnd(s: State, t: RequestId, written: bool, o: OrderId, whole: bool, ever: set<nat>)
    requires Honest(s, o, whole, ever)
    ensures Honest(End(s, t, written), o, whole, ever)
  {
    HonestGoesOn(s, End(s, t, written), t, o, whole, ever);
  }

  lemma HonestFinalize(s: State, step: Step, o: OrderId, whole: bool, ever: set<nat>)
    requires Honest(s, o, whole, ever) && ByFinalize(step)
    ensures Honest(Next(s, step), o, whole, ever)
  {
    match step
    case FinalizeRead(t, c, now) => HonestRead(s, t, c, now, o, whole, ever);
    case FinalizeClaim(t, now) => HonestClaim(s, t, now, o, whole, ever);
    case FinalizeRefuse(t) => HonestRefuse(s, t, o, whole, ever);
    case FinalizeSign(t, cert) => HonestSign(s, t, cert, o, whole, ever);
    case FinalizeRecord(t, ok) => HonestRecord(s, t, ok, o, whole, ever);
    case FinalizeEnd(t, written) => HonestEnd(s, t, written, o, whole, ever);
  }

  /** A step that changes one challenge request, or ends it. */
  lemma HonestResponds(s: State, s': State, t: RequestId, o: OrderId, whole: bool, ever: set<nat>)
    requires Honest(s, o, whole, ever) && s' == s.(responding := s'.responding)
    requires s'.responding - {t} == s.responding - {t}
    requires t in s'.responding && s'.responding[t].order == o ==>
               o in s.orders && CopyHonest(s'.responding[t], s.AuthzsOf(o), Needs(s, o, whole), ever)
    ensures Honest(s', o, whole, ever)
  {
    assert forall u :: AtWork(s', u, o) ==> AtWork(s, u, o);
    forall u | u in s'.responding && u != t ensures u in s.responding && s'.responding[u] == s.responding[u] {
      assert u in s'.responding - {t};
    }
  }

  lemma HonestOpen(s: State, t: RequestId, c: OrderId, o: OrderId, whole: bool, ever: set<nat>)
    requires Honest(s, o, whole, ever)
    ensures Honest(Open(s, t, c), o, whole, ever)
  {
    if t !in s.responding {
      HonestResponds(s, Open(s, t, c), t, o, whole, ever);
    }
  }

  lemma HonestLook(s: State, t: RequestId, i: nat, kind: Kind, o: OrderId, whole: bool, ever: set<nat>)
    requires Honest(s, o, whole, ever)
    ensures Honest(Look(s, t, i, kind), o, whole, ever)
  {
    if t in s.responding && s.responding[t].Opening? {
      HonestResponds(s, Look(s, t, i, kind), t, o, whole, ever);
    }
  }

  lemma HonestSettle(s: State, t: RequestId, written: bool, o: OrderId, whole: bool, ever: set<nat>)
    requires Honest(s, o, whole, ever)
    ensures Honest(Settle(s, t, written), o, whole, ever)
  {
    var s' := Settle(s, t, written);
    assert forall u :: AtWork(s', u, o) ==> AtWork(s, u, o);
    HonestElsewhere(s, s', o, whole, ever);
  }

  /** One authorization decided: proved for good, or not. */
  lemma DecidedFor(all: seq<Authz>, identifiers: seq<string>, i: nat, kind: Kind, proved: bool)
    requires AllFor(all, identifiers) && i < |all| && kind in ChallengeTypes(all[i])
    ensures AllFor(all[i := Decided(all[i], kind, proved)], identifiers)
  {
    var all' := all[i := Decided(all[i], kind, proved)];
    forall k | 0 <= k < |all'| ensures For(all'[k], identifiers[k]) {
      assert For(all[k], identifiers[k]);
    }
  }

  lemma CopyStaysHonest(r: Respond, all: seq<Authz>, all': seq<Authz>, needs: nat,
                         ever: set<nat>, ever': set<nat>)
    requires CopyHonest(r, all, needs, ever) && ever <= ever' && |all'| == |all|
    requires forall i :: 0 <= i < |all| ==> all'[i].wildcard == all[i].wildcard
    ensures CopyHonest(r, all', needs, ever')
  {
  }

  /** The request's copies, with its own decision in them, say only what was proved or is now. */
  lemma DecidedHonest(read: seq<Authz>, all: seq<Authz>, i: nat, kind: Kind, proved: bool, ever: set<nat>)
    requires |read| == |all| && i < |all| && ProvedNow(read) <= ever
    ensures var row := Decided(all[i], kind, proved);
            proved && AllProved(read[i := Decided(read[i], kind, proved)]) ==>
              Covers(ever + ProvedNow(all[i := row]), |all|)
  {
    var read', all' := read[i := Decided(read[i], kind, proved)], all[i := Decided(all[i], kind, proved)];
    if proved && AllProved(read') {
      forall k: nat | k < |all'| ensures k in ever + ProvedNow(all') {
        assert read'[k].status == Proved;
      }
    }
  }

  predicate Decides(s: State, t: RequestId, written: bool) {
    && t in s.responding && s.responding[t].Checking? && written
    && s.responding[t].index < |s.AuthzsOf(s.responding[t].order)| && s.responding[t].index < |s.responding[t].all|
  }

  lemma HonestDecided(s: State, t: RequestId, now: int, looked: bool, whole: bool, ever: set<nat>)
    requires Decides(s, t, true) && Honest(s, s.responding[t].order, whole, ever)
    ensures var s', o := Decide(s, t, now, looked, true), s.responding[t].order;
            Honest(s', o, whole, ever + ProvedNow(s'.AuthzsOf(o)))
  {
    var r := s.responding[t];
    var o, s' := r.order, Decide(s, t, now, looked, true);
    var all, all' := s.AuthzsOf(o), s'.AuthzsOf(o);
    var ever' := ever + ProvedNow(all');
    var proved := looked && r.all[r.index].expires > now;
    DecidedHonest(r.all, all, r.index, r.kind, proved, ever);
    DecidedFor(all, s.orders[o].identifiers, r.index, r.kind, proved);
    assert forall u :: AtWork(s', u, o) ==> AtWork(s, u, o);
    var needs := Needs(s, o, whole);
    forall u | u in s'.responding && s'.responding[u].order == o
      ensures CopyHonest(s'.responding[u], all', needs, ever')
    {
      if u != t {
        CopyStaysHonest(s.responding[u], all, all', needs, ever, ever');
      }
    }
  }

  lemma HonestDecide(s: State, t: RequestId, now: int, looked: bool, written: bool, o: OrderId, whole: bool, ever: set<nat>)
    requires Honest(s, o, whole, ever)
    ensures var s' := Decide(s, t, now, looked, written); Honest(s', o, whole, ever + ProvedNow(s'.AuthzsOf(o)))
  {
    var s' := Decide(s, t, now, looked, written);
    if Decides(s, t, written) && s.responding[t].order == o {
      HonestDecided(s, t, now, looked, whole, ever);
    } else {
      assert forall u :: AtWork(s', u, o) ==> AtWork(s, u, o);
      HonestElsewhere(s, s', o, whole, ever);
      assert ever + ProvedNow(s'.AuthzsOf(o)) == ever;
    }
  }

  lemma HonestCreated(s: State, ids: seq<string>, p: bool, e: int, m: nat, d: bool, o: OrderId, whole: bool,
                      ever: set<nat>)
    requires Honest(s, o, whole, ever) && o !in s.orders && m <= |ids|
    requires whole && p ==> m == |ids| || m == 0 || d
    ensures Honest(Create(s, o, ids, p, e, m, d), o, whole, ever)
  {
    var s' := Create(s, o, ids, p, e, m, d);
    var all := Orders.Authorizations(ids, e, m);
    forall i | 0 <= i < m ensures For(all[i], ids[i]) && all[i].status == Undecided {
      assert all[i] == AuthzFor(ids[i], e);
    }
    assert forall t :: !AtWork(s', t, o);
  }

  lemma HonestNotCreated(s: State, c: OrderId, ids: seq<string>, p: bool, e: int, m: nat, d: bool, o: OrderId,
                         whole: bool, ever: set<nat>)
    requires Honest(s, o, whole, ever) && (c != o || o in s.orders || m > |ids|)
    ensures Honest(Create(s, c, ids, p, e, m, d), o, whole, ever)
  {
    var s' := Create(s, c, ids, p, e, m, d);
    assert forall t :: AtWork(s', t, o) <==> AtWork(s, t, o);
    assert o !in s.orders ==> forall t :: !AtWork(s, t, o);
    HonestElsewhere(s, s', o, whole, ever);
  }

  lemma HonestCreate(s: State, c: OrderId, ids: seq<string>, p: bool, e: int, m: nat, d: bool, o: OrderId,
                     whole: bool, ever: set<nat>)
    requires Honest(s, o, whole, ever) && (whole && p ==> m == |ids| || m == 0 || d)
    ensures Honest(Create(s, c, ids, p, e, m, d), o, whole, ever)
  {
    if c == o && o !in s.orders && m <= |ids| {
      HonestCreated(s, ids, p, e, m, d, o, whole, ever);
    } else {
      HonestNotCreated(s, c, ids, p, e, m, d, o, whole, ever);
    }
  }

  lemma HonestAnswered(s: State, t: RequestId, now: int, looked: bool, authzWritten: bool, orderWritten: bool,
                       o: OrderId, whole: bool, ever: set<nat>)
    requires Honest(s, o, whole, ever)
    ensures var s' := Settle(Decide(s, t, now, looked, authzWritten), t, orderWritten);
            Honest(s', o, whole, ever + ProvedNow(s'.AuthzsOf(o)))
  {
    var mid := Decide(s, t, now, looked, authzWritten);
    HonestDecide(s, t, now, looked, authzWritten, o, whole, ever);
    HonestSettle(mid, t, orderWritten, o, whole, ever + ProvedNow(mid.AuthzsOf(o)));
    SettleAuthzs(mid, t, orderWritten, o);
  }

  lemma SettleAuthzs(s: State, t: RequestId, written: bool, o: OrderId)
    ensures Settle(s, t, written).AuthzsOf(o) == s.AuthzsOf(o)
  {
  }

  lemma HonestReads(s: State, t: RequestId, c: OrderId, i: nat, kind: Kind, o: OrderId, whole: bool, ever: set<nat>)
    requires Honest(s, o, whole, ever)
    ensures Honest(Look(Open(s, t, c), t, i, kind), o, whole, ever)
  {
    HonestOpen(s, t, c, o, whole, ever);
    HonestLook(Open(s, t, c), t, i, kind, o, whole, ever);
  }

  lemma NothingMore(s: State, o: OrderId, whole: bool, ever: set<nat>)
    requires Honest(s, o, whole, ever)
    ensures ever + ProvedNow(s.AuthzsOf(o)) == ever
  {
  }

  lemma HonestAtOnce(s: State, t: RequestId, c: OrderId, i: nat, kind: Kind, now: int, looked: bool,
                     authzWritten: bool, orderWritten: bool, o: OrderId, whole: bool, ever: set<nat>)
    requires Honest(s, o, whole, ever)
    ensures var s' := AtOnce(s, t, c, i, kind, now, looked, authzWritten, orderWritten);
            Honest(s', o, whole, ever + ProvedNow(s'.AuthzsOf(o)))
  {
    if t in s.responding {
      NothingMore(s, o, whole, ever);
    } else {
      HonestReads(s, t, c, i, kind, o, whole, ever);
      HonestAnswered(Look(Open(s, t, c), t, i, kind), t, now, looked, authzWritten, orderWritten, o, whole, ever);
    }
  }

  lemma HonestRespond(s: State, step: Step, o: OrderId, whole: bool, ever: set<nat>)
    requires Honest(s, o, whole, ever) && ByRespond(step) && !step.RespondAuthz?
    ensures Honest(Next(s, step), o, whole, ever)
  {
    match step
    case RespondOpen(t, c) => HonestOpen(s, t, c, o, whole, ever);
    case RespondRead(t, i, kind) => HonestLook(s, t, i, kind, o, whole, ever);
    case RespondOrder(t, written) => HonestSettle(s, t, written, o, whole, ever);
  }

  lemma HonestNext(s: State, step: Step, o: OrderId, whole: bool, ever: set<nat>)
    requires Honest(s, o, whole, ever) && (whole ==> CreatesWhole(step))
    ensures Honest(Next(s, step), o, whole, ever + ProvedNow(Next(s, step).AuthzsOf(o)))
  {
    if step.RespondAuthz? {
      HonestDecide(s, step.request, step.now, step.looked, step.written, o, whole, ever);
    } else if step.RespondAtOnce? {
      HonestAtOnce(s, step.request, step.order, step.index, step.kind, step.now, step.looked, step.authzWritten,
                   step.orderWritten, o, whole, ever);
    } else {
      if ByFinalize(step) {
        HonestFinalize(s, step, o, whole, ever);
      } else if step.NewOrder? {
        HonestCreate(s, step.order, step.identifiers, step.requiresProof, step.expires, step.made, step.ended,
                     o, whole, ever);
      } else {
        HonestRespond(s, step, o, whole, ever);
      }
      NothingMore(Next(s, step), o, whole, ever);
    }
  }

  // ---------- over runs ----------

  /** The order's authorizations that were proved at any point of the first n steps. */
  function Ever(steps: seq<Step>, o: OrderId, n: nat): set<nat>
    requires n <= |steps|
  {
    if n == 0 then {} else Ever(steps, o, n - 1) + ProvedNow(Run(Initial(), steps[..n]).AuthzsOf(o))
  }

  predicate AllWhole(steps: seq<Step>) {
    forall i :: 0 <= i < |steps| ==> CreatesWhole(steps[i])
  }

  lemma {:induction false} HonestRun(steps: seq<Step>, o: OrderId, n: nat, whole: bool)
    requires n <= |steps| && (whole ==> AllWhole(steps))
    ensures Honest(Run(Initial(), steps[..n]), o, whole, Ever(steps, o, n))
  {
    if n == 0 {
      assert steps[..0] == [];
      assert forall t :: !AtWork(Initial(), t, o);
    } else {
      HonestRun(steps, o, n - 1, whole);
      SecondIssuance.PrefixStep(steps, n - 1);
      HonestNext(Run(Initial(), steps[..n - 1]), steps[n - 1], o, whole, Ever(steps, o, n - 1));
    }
  }

  /** After k steps authorization i of the order, for this name, was proved by a challenge it offers. */
  ghost predicate WasProved(steps: seq<Step>, k: nat, o: OrderId, i: nat, name: string) {
    k <= |steps| &&
    var s := Run(Initial(), steps[..k]);
    && o in s.orders && i < |s.AuthzsOf(o)| <= |s.orders[o].identifiers| && s.orders[o].identifiers[i] == name
    && var a := s.AuthzsOf(o)[i];
       && a.status == Proved
       && if "*." <= name then a.wildcard && a.value == name[2..] && a.validatedWith == Some(Dns01)
          else !a.wildcard && a.value == name && a.validatedWith.Some?
  }

  ghost predicate OnceProved(steps: seq<Step>, o: OrderId, i: nat, name: string) {
    exists k: nat :: WasProved(steps, k, o, i, name)
  }

  lemma {:induction false} EverWhen(steps: seq<Step>, o: OrderId, n: nat, i: nat) returns (k: nat)
    requires n <= |steps| && i in Ever(steps, o, n)
    ensures k <= n && i in ProvedNow(Run(Initial(), steps[..k]).AuthzsOf(o))
  {
    if i in ProvedNow(Run(Initial(), steps[..n]).AuthzsOf(o)) {
      return n;
    }
    k := EverWhen(steps, o, n - 1, i);
  }

  lemma ProvedAtStep(steps: seq<Step>, k: nat, o: OrderId, i: nat)
    requires k <= |steps| && i in ProvedNow(Run(Initial(), steps[..k]).AuthzsOf(o))
    ensures var s := Run(Initial(), steps[..k]);
            && o in s.orders && i < |s.AuthzsOf(o)| && i < |s.orders[o].identifiers|
            && WasProved(steps, k, o, i, s.orders[o].identifiers[i])
  {
    HonestRun(steps, o, k, false);
    var s := Run(Initial(), steps[..k]);
    assert o in s.orders;
    assert For(s.AuthzsOf(o)[i], s.orders[o].identifiers[i]);
  }

  lemma ProvedThen(steps: seq<Step>, o: OrderId, i: nat)
    requires i in Ever(steps, o, |steps|)
    ensures var s := Run(Initial(), steps);
            && o in s.orders && i < |s.AuthzsOf(o)| && i < |s.orders[o].identifiers|
            && OnceProved(steps, o, i, s.orders[o].identifiers[i])
  {
    var k := EverWhen(steps, o, |steps|, i);
    ProvedAtStep(steps, k, o, i);
    SameFrom(steps, k, o);
  }

  /**
   Over any interleaving of single steps: by the time an order is past pending and
   not invalid, or any finalize request is at work on it, or the signer has been
   called for it, each of its stored authorizations was at some point proved, for
   its name and by a challenge it offers.
   */
  lemma EveryNameWasProved(steps: seq<Step>, o: OrderId)
    requires Due(Run(Initial(), steps), o)
    ensures var s := Run(Initial(), steps);
            && o in s.orders && |s.AuthzsOf(o)| <= |s.orders[o].identifiers|
            && forall i: nat :: i < |s.AuthzsOf(o)| ==> OnceProved(steps, o, i, s.orders[o].identifiers[i])
  {
    var s := Run(Initial(), steps);
    assert steps[..|steps|] == steps;
    HonestRun(steps, o, |steps|, false);
    forall i: nat | i < |s.AuthzsOf(o)| ensures OnceProved(steps, o, i, s.orders[o].identifiers[i]) {
      ProvedThen(steps, o, i);
    }
  }

  /** With no order created in part, that is every name of an order that requires proof. */
  lemma EveryNameWasProvedWhole(steps: seq<Step>, o: OrderId)
    requires AllWhole(steps) && Due(Run(Initial(), steps), o) && o in Run(Initial(), steps).proof
    ensures var s := Run(Initial(), steps);
            && o in s.orders && |s.AuthzsOf(o)| == |s.orders[o].identifiers|
            && forall i: nat :: i < |s.orders[o].identifiers| ==> OnceProved(steps, o, i, s.orders[o].identifiers[i])
  {
    var s := Run(Initial(), steps);
    assert steps[..|steps|] == steps;
    EveryNameWasProved(steps, o);
    HonestRun(steps, o, |steps|, true);
    if |s.AuthzsOf(o)| < |s.orders[o].identifiers| {
      ProvedThen(steps, o, |s.AuthzsOf(o)|);
    }
  }

  /** What can be answered, from the name alone: below a wildcard in its zone only, else in any way. */
  lemma OfferedByName(steps: seq<Step>, o: OrderId, i: nat, kind: Kind)
    requires i < |Run(Initial(), steps).AuthzsOf(o)|
    ensures var s := Run(Initial(), steps);
            && o in s.orders && i < |s.orders[o].identifiers|
            && (kind in ChallengeTypes(s.AuthzsOf(o)[i]) <==> kind == Dns01 || !("*." <= s.orders[o].identifiers[i]))
  {
    assert steps[..|steps|] == steps;
    HonestRun(steps, o, |steps|, false);
    var s := Run(Initial(), steps);
    assert For(s.AuthzsOf(o)[i], s.orders[o].identifiers[i]);
  }
}
