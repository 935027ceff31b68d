/**
 ACME orders, their authorizations, and the requests that work on them (RFC 8555
 sections 7.1.6, 7.4 and 7.5).

 Requests run at once on any number of replicas. A step is one read or write of
 the store, one call to the signer, or, for the handlers whose store calls are
 not conditional, the whole request.
 */
module Orders {
  import opened Prelude

  type OrderId = nat
  type CertId = nat
  type RequestId = nat

  datatype OrderStatus = Pending | Ready | Processing | Valid | Invalid

  datatype AuthzStatus = Undecided | Proved | Refused

  datatype Kind = Http01 | Dns01 | TlsAlpn01

  datatype Order = Order(status: OrderStatus, identifiers: seq<string>, expires: int, certificate: Option<CertId>)

  datatype Authz = Authz(value: string, wildcard: bool, status: AuthzStatus, validatedWith: Option<Kind>, expires: int)

  function AuthzFor(identifier: string, expires: int): Authz {
    if "*." <= identifier then Authz(identifier[2..], true, Undecided, None, expires)
    else Authz(identifier, false, Undecided, None, expires)
  }

  /** A wildcard is proved in its zone, or not at all. */
  function ChallengeTypes(a: Authz): set<Kind> {
    if a.wildcard then {Dns01} else {Http01, Dns01, TlsAlpn01}
  }

  function Decided(a: Authz, kind: Kind, proved: bool): Authz {
    a.(status := if proved then Proved else Refused, validatedWith := Some(kind))
  }

  predicate AllProved(all: seq<Authz>) {
    forall i :: 0 <= i < |all| ==> all[i].status == Proved
  }

  /** A finalize request: what it has done, and the copy of the order it read. */
  datatype Finalize =
    | Claiming(order: OrderId, copy: Order)
    | Claimed(order: OrderId, copy: Order)
    | Signed(order: OrderId, copy: Order, cert: CertId)
    | Recorded(order: OrderId, copy: Order, cert: CertId)
    | Failing(order: OrderId, copy: Order)

  /** A challenge request: the order it read, then its authorizations too, then the order status it decided on. */
  datatype Respond =
    | Opening(order: OrderId, copy: Order)
    | Checking(order: OrderId, copy: Order, all: seq<Authz>, index: nat, kind: Kind)
    | Deciding(order: OrderId, copy: Order)

  /**
   orders and authzs are the store's; authorizations are in index order. proof
   holds the orders made from a credential that requires challenges, and
   signerCalls every order the signer was called for.
   */
  datatype State = State(
    orders: map<OrderId, Order>,
    authzs: map<OrderId, seq<Authz>>,
    finalizing: map<RequestId, Finalize>,
    responding: map<RequestId, Respond>,
    proof: set<OrderId>,
    signerCalls: seq<OrderId>)
  {
    function AuthzsOf(o: OrderId): seq<Authz> {
      if o in authzs then authzs[o] else []
    }

    function Calls(o: OrderId): nat {
      multiset(signerCalls)[o]
    }
  }

  function Initial(): State {
    State(map[], map[], map[], map[], {}, [])
  }

  datatype Step =
    // new-order: `made` authorizations were stored before one failed; `ended` says
    // whether the order was then marked invalid.
    | NewOrder(order: OrderId, identifiers: seq<string>, requiresProof: bool, expires: int, made: nat, ended: bool)
    | FinalizeRead(request: RequestId, order: OrderId, now: int)
    | FinalizeClaim(request: RequestId, now: int)
    | FinalizeRefuse(request: RequestId)
    | FinalizeSign(request: RequestId, cert: Option<CertId>)
    | FinalizeRecord(request: RequestId, ok: bool)
    | FinalizeEnd(request: RequestId, written: bool)
    | RespondOpen(request: RequestId, order: OrderId)
    | RespondRead(request: RequestId, index: nat, kind: Kind)
    | RespondAuthz(request: RequestId, now: int, looked: bool, written: bool)
    | RespondOrder(request: RequestId, written: bool)
    // the four together, as one step
    | RespondAtOnce(request: RequestId, order: OrderId, index: nat, kind: Kind, now: int, looked: bool,
                    authzWritten: bool, orderWritten: bool)

  function Authorizations(identifiers: seq<string>, expires: int, n: nat): (all: seq<Authz>)
    requires n <= |identifiers|
    ensures |all| == n
    ensures forall i :: 0 <= i < n ==> all[i] == AuthzFor(identifiers[i], expires)
  {
    if n == 0 then [] else Authorizations(identifiers, expires, n - 1) + [AuthzFor(identifiers[n - 1], expires)]
  }

  /** UpdateACMEOrder: status and certificate are written whatever the row says now. */
  function Written(s: State, o: OrderId, copy: Order): State {
    if o in s.orders then
      s.(orders := s.orders[o := s.orders[o].(status := copy.status, certificate := copy.certificate)])
    else s
  }

  predicate Claimable(s: State, o: OrderId, now: int) {
    o in s.orders && s.orders[o].status == Ready && s.orders[o].expires > now
  }

  function Create(s: State, o: OrderId, ids: seq<string>, requiresProof: bool, expires: int, made: nat, ended: bool): State {
    if o in s.orders || made > |ids| then s
    else if !requiresProof then
      s.(orders := s.orders[o := Order(Ready, ids, expires, None)], authzs := s.authzs[o := []])
    else
      s.(orders := s.orders[o := Order(if made == |ids| || !ended then Pending else Invalid, ids, expires, None)],
         authzs := s.authzs[o := Authorizations(ids, expires, made)],
         proof := s.proof + {o})
  }

  function Read(s: State, t: RequestId, o: OrderId, now: int): State {
    if t in s.finalizing || !Claimable(s, o, now) then s
    else s.(finalizing := s.finalizing[t := Claiming(o, s.orders[o])])
  }

  /** ClaimACMEOrderForFinalize: the conditional write, against the row as it is now. */
  function Claim(s: State, t: RequestId, now: int): State {
    if t !in s.finalizing || !s.finalizing[t].Claiming? then s
    else
      var f := s.finalizing[t];
      if !Claimable(s, f.order, now) then s.(finalizing := s.finalizing - {t})
      else s.(orders := s.orders[f.order := s.orders[f.order].(status := Processing)],
              finalizing := s.finalizing[t := Claimed(f.order, f.copy)])
  }

  function Refuse(s: State, t: RequestId): State {
    if t !in s.finalizing || !s.finalizing[t].Claimed? then s
    else s.(finalizing := s.finalizing[t := Failing(s.finalizing[t].order, s.finalizing[t].copy)])
  }

  function Sign(s: State, t: RequestId, cert: Option<CertId>): State {
    if t !in s.finalizing || !s.finalizing[t].Claimed? then s
    else
      var f := s.finalizing[t];
      s.(signerCalls := s.signerCalls + [f.order],
         finalizing := s.finalizing[t := if cert.None? then Failing(f.order, f.copy)
                                         else Signed(f.order, f.copy, cert.value)])
  }

  function Record(s: State, t: RequestId, ok: bool): State {
    if t !in s.finalizing || !s.finalizing[t].Signed? then s
    else
      var f := s.finalizing[t];
      s.(finalizing := s.finalizing[t := if ok then Recorded(f.order, f.copy, f.cert) else Failing(f.order, f.copy)])
  }

  /** What a finalize that is over writes: valid with its certificate, or invalid. */
  function Outcome(f: Finalize): Order
    requires f.Recorded? || f.Failing?
  {
    if f.Recorded? then f.copy.(status := Valid, certificate := Some(f.cert)) else f.copy.(status := Invalid)
  }

  function End(s: State, t: RequestId, written: bool): State {
    if t !in s.finalizing || !(s.finalizing[t].Recorded? || s.finalizing[t].Failing?) then s
    else
      var done := s.(finalizing := s.finalizing - {t});
      if written then Written(done, s.finalizing[t].order, Outcome(s.finalizing[t])) else done
  }

  /** The challenge exists, and its authorization is not decided yet. */
  predicate Offered(all: seq<Authz>, i: nat, kind: Kind) {
    i < |all| && kind in ChallengeTypes(all[i]) && all[i].status == Undecided
  }

  predicate Answerable(s: State, o: OrderId, i: nat, kind: Kind) {
    o in s.orders && s.orders[o].status == Pending && Offered(s.AuthzsOf(o), i, kind)
  }

  function Open(s: State, t: RequestId, o: OrderId): State {
    if t in s.responding || o !in s.orders then s
    else s.(responding := s.responding[t := Opening(o, s.orders[o])])
  }

  /** The authorizations as they are now; the order as it was when it was read. */
  function Look(s: State, t: RequestId, i: nat, kind: Kind): State {
    if t !in s.responding || !s.responding[t].Opening? then s
    else
      var r := s.responding[t];
      if r.copy.status != Pending || !Offered(s.AuthzsOf(r.order), i, kind) then s.(responding := s.responding - {t})
      else s.(responding := s.responding[t := Checking(r.order, r.copy, s.AuthzsOf(r.order), i, kind)])
  }

  /** The order's status after one authorization is decided, from the copies read. */
  function StatusAfter(copy: Order, all: seq<Authz>, proved: bool): OrderStatus {
    if !proved then Invalid else if AllProved(all) then Ready else copy.status
  }

  function Decide(s: State, t: RequestId, now: int, looked: bool, written: bool): State {
    if t !in s.responding || !s.responding[t].Checking? then s
    else
      var r := s.responding[t];
      if !written || r.index >= |s.AuthzsOf(r.order)| || r.index >= |r.all| then
        s.(responding := s.responding - {t})
      else
        var proved := looked && r.all[r.index].expires > now;
        var all := r.all[r.index := Decided(r.all[r.index], r.kind, proved)];
        var row := Decided(s.AuthzsOf(r.order)[r.index], r.kind, proved);
        s.(authzs := s.authzs[r.order := s.AuthzsOf(r.order)[r.index := row]],
           responding := s.responding[t := Deciding(r.order, r.copy.(status := StatusAfter(r.copy, all, proved)))])
  }

  function Settle(s: State, t: RequestId, written: bool): State {
    if t !in s.responding || !s.responding[t].Deciding? then s
    else
      var r := s.responding[t];
      var done := s.(responding := s.responding - {t});
      if r.copy.status == Pending || !written then done else Written(done, r.order, r.copy)
  }

  function Next(s: State, step: Step): State {
    match step
    case NewOrder(o, ids, requiresProof, expires, made, ended) => Create(s, o, ids, requiresProof, expires, made, ended)
    case FinalizeRead(t, o, now) => Read(s, t, o, now)
    case FinalizeClaim(t, now) => Claim(s, t, now)
    case FinalizeRefuse(t) => Refuse(s, t)
    case FinalizeSign(t, cert) => Sign(s, t, cert)
    case FinalizeRecord(t, ok) => Record(s, t, ok)
    case FinalizeEnd(t, written) => End(s, t, written)
    case RespondOpen(t, o) => Open(s, t, o)
    case RespondRead(t, i, kind) => Look(s, t, i, kind)
    case RespondAuthz(t, now, looked, written) => Decide(s, t, now, looked, written)
    case RespondOrder(t, written) => Settle(s, t, written)
    case RespondAtOnce(t, o, i, kind, now, looked, authzWritten, orderWritten) =>
      AtOnce(s, t, o, i, kind, now, looked, authzWritten, orderWritten)
  }

  function AtOnce(s: State, t: RequestId, o: OrderId, i: nat, kind: Kind, now: int, looked: bool,
                  authzWritten: bool, orderWritten: bool): State
  {
    if t in s.responding then s
    else Settle(Decide(Look(Open(s, t, o), t, i, kind), t, now, looked, authzWritten), t, orderWritten)
  }

  function Run(s: State, steps: seq<Step>): State
    decreases |steps|
  {
    if steps == [] then s else Run(Next(s, steps[0]), steps[1..])
  }

  lemma {:induction false} RunSplit(s: State, a: seq<Step>, b: seq<Step>)
    ensures Run(s, a + b) == Run(Run(s, a), b)
    decreases |a|
  {
    if a == [] {
      assert a + b == b;
    } else {
      assert (a + b)[0] == a[0] && (a + b)[1..] == a[1..] + b;
      RunSplit(Next(s, a[0]), a[1..], b);
    }
  }

  lemma RunOne(s: State, a: Step)
    ensures Run(s, [a]) == Next(s, a)
  {
    assert [a][1..] == [];
    assert Run(Next(s, a), []) == Next(s, a);
  }

  lemma RunTwo(s: State, a: Step, b: Step)
    ensures Run(s, [a, b]) == Next(Next(s, a), b)
  {
    assert [a, b][1..] == [b] && [b][1..] == [];
    assert Run(Next(s, a), [b]) == Run(Next(Next(s, a), b), []);
  }

  lemma RunMore(s: State, steps: seq<Step>, last: Step)
    ensures Run(s, steps + [last]) == Next(Run(s, steps), last)
  {
    RunSplit(s, steps, [last]);
    RunOne(Run(s, steps), last);
  }

  // ---------- at most one issuance ----------

  /** The request has claimed the order and not yet ended. */
  predicate Holds(s: State, t: RequestId, o: OrderId) {
    t in s.finalizing && s.finalizing[t].order == o && !s.finalizing[t].Claiming?
  }

  /** No challenge request has got further than reading the order. */
  predicate Quiet(s: State, o: OrderId) {
    forall t :: t in s.responding && s.responding[t].order == o ==> s.responding[t].Opening?
  }

  /** Past reading, a challenge request's copy of the order is one it found pending, with the status it decided on. */
  predicate CopiesOpen(s: State, o: OrderId) {
    forall t :: t in s.responding && s.responding[t].order == o ==> CopyOpen(s.responding[t])
  }

  predicate CopyOpen(r: Respond) {
    r.Opening? || r.copy.status in {Pending, Ready, Invalid}
  }

  /**
   The request's order write lands on a row that is no longer pending: what a
   conditional update would refuse, and the store's does not.
   */
  predicate Stale(s: State, step: Step, o: OrderId) {
    && step.RespondOrder? && step.written
    && step.request in s.responding && s.responding[step.request].Deciding?
    && s.responding[step.request].order == o && s.responding[step.request].copy.status != Pending
    && o in s.orders && s.orders[o].status != Pending
  }

  ghost predicate Exclusive(s: State, o: OrderId)
    requires o in s.orders
  {
    && CopiesOpen(s, o)
    && (forall t :: Holds(s, t, o) ==> s.orders[o].status == Processing)
    && (forall t, u :: Holds(s, t, o) && Holds(s, u, o) ==> t == u)
    && (forall t :: Holds(s, t, o) && s.finalizing[t].Claimed? ==> s.Calls(o) == 0)
    && (s.orders[o].status in {Pending, Ready} ==> s.Calls(o) == 0)
    && (forall t :: Holds(s, t, o) && (s.finalizing[t].Signed? || s.finalizing[t].Recorded?) ==> s.Calls(o) == 1)
    && (s.orders[o].status == Valid ==> s.Calls(o) == 1 && s.orders[o].certificate.Some?)
    && s.Calls(o) <= 1
  }

  /** Nothing is known of an order that does not exist yet. */
  ghost predicate Unknown(s: State, o: OrderId) {
    o !in s.orders ==> s.Calls(o) == 0 && s.AuthzsOf(o) == [] && Quiet(s, o) && forall t :: t in s.finalizing ==> s.finalizing[t].order != o
  }

  ghost predicate Safe(s: State, o: OrderId) {
    Unknown(s, o) && (o in s.orders ==> Exclusive(s, o))
  }

  /** The step keeps the order safe, and leaves it alone once it is valid. */
  ghost predicate Keeps(s: State, s': State, o: OrderId) {
    && Safe(s', o)
    && (o in s.orders && s.orders[o].status == Valid ==> o in s'.orders && s'.orders[o] == s.orders[o])
  }

  /** An order a step leaves alone stays as safe as it was. */
  lemma SafeElsewhere(s: State, s': State, o: OrderId)
    requires Safe(s, o)
    requires o in s'.orders <==> o in s.orders
    requires o in s.orders ==> s'.orders[o] == s.orders[o]
    requires s'.Calls(o) == s.Calls(o)
    requires |s'.AuthzsOf(o)| == |s.AuthzsOf(o)|
    requires forall t :: t in s'.responding && s'.responding[t].order == o ==>
               (t in s.responding && s'.responding[t] == s.responding[t])
               || (CopyOpen(s'.responding[t]) && (o in s.orders || s'.responding[t].Opening?))
    requires forall t :: t in s'.finalizing && s'.finalizing[t].order == o ==>
               (t in s.finalizing && s'.finalizing[t] == s.finalizing[t]) || (o in s.orders && s'.finalizing[t].Claiming?)
    ensures Safe(s', o)
  {
    forall t | Holds(s', t, o) ensures Holds(s, t, o) && s'.finalizing[t] == s.finalizing[t] {
    }
  }

  /** The claim is won: nobody held the order, and now this request does. */
  lemma SafeClaimWon(s: State, t: RequestId, now: int)
    requires t in s.finalizing && s.finalizing[t].Claiming?
    requires var o := s.finalizing[t].order; Safe(s, o) && Claimable(s, o, now)
    ensures Safe(Claim(s, t, now), s.finalizing[t].order)
  {
    var o := s.finalizing[t].order;
    forall u ensures Holds(Claim(s, t, now), u, o) <==> u == t {
      assert !Holds(s, u, o);
    }
  }

  lemma SafeClaim(s: State, t: RequestId, now: int, o: OrderId)
    requires Safe(s, o)
    ensures Keeps(s, Claim(s, t, now), o)
  {
    if t in s.finalizing && s.finalizing[t].Claiming? && s.finalizing[t].order == o && Claimable(s, o, now) {
      SafeClaimWon(s, t, now);
    } else {
      SafeElsewhere(s, Claim(s, t, now), o);
    }
  }

  /** A claim that is lost, because the order is not ready or has expired by now, ends the request and changes no order. */
  lemma LostClaimEnds(s: State, t: RequestId, now: int)
    requires t in s.finalizing && s.finalizing[t].Claiming?
    requires var o := s.finalizing[t].order; o in s.orders && (s.orders[o].status != Ready || s.orders[o].expires <= now)
    ensures t !in Claim(s, t, now).finalizing && Claim(s, t, now).orders == s.orders
  {
  }

  /** A request past its claim moves on: refused, to the signer, or to its record. */
  lemma SafeSign(s: State, t: RequestId, cert: Option<CertId>, o: OrderId)
    requires Safe(s, o)
    ensures Keeps(s, Sign(s, t, cert), o)
  {
    var s' := Sign(s, t, cert);
    if t in s.finalizing && s.finalizing[t].Claimed? {
      var f := s.finalizing[t];
      assert multiset(s'.signerCalls) == multiset(s.signerCalls) + multiset{f.order};
      if f.order == o {
        assert Holds(s, t, o);
        forall u ensures Holds(s', u, o) <==> Holds(s, u, o) {
        }
        assert forall u :: Holds(s', u, o) ==> u == t;
      } else {
        SafeElsewhere(s, s', o);
      }
    }
  }

  lemma SafeRefuse(s: State, t: RequestId, o: OrderId)
    requires Safe(s, o)
    ensures Keeps(s, Refuse(s, t), o)
  {
    if t in s.finalizing && s.finalizing[t].Claimed? && s.finalizing[t].order == o {
      assert Holds(s, t, o);
      forall u ensures Holds(Refuse(s, t), u, o) <==> Holds(s, u, o) {
      }
    } else {
      SafeElsewhere(s, Refuse(s, t), o);
    }
  }

  lemma SafeRecord(s: State, t: RequestId, ok: bool, o: OrderId)
    requires Safe(s, o)
    ensures Keeps(s, Record(s, t, ok), o)
  {
    if t in s.finalizing && s.finalizing[t].Signed? && s.finalizing[t].order == o {
      assert Holds(s, t, o);
      forall u ensures Holds(Record(s, t, ok), u, o) <==> Holds(s, u, o) {
      }
    } else {
      SafeElsewhere(s, Record(s, t, ok), o);
    }
  }

  lemma SafeEnd(s: State, t: RequestId, written: bool, o: OrderId)
    requires Safe(s, o)
    ensures Keeps(s, End(s, t, written), o)
  {
    var s' := End(s, t, written);
    if t in s.finalizing && (s.finalizing[t].Recorded? || s.finalizing[t].Failing?) && s.finalizing[t].order == o {
      assert Holds(s, t, o);
      forall u ensures !Holds(s', u, o) {
        assert Holds(s, u, o) ==> u == t;
      }
    } else {
      SafeElsewhere(s, s', o);
    }
  }

  lemma SafeSettle(s: State, t: RequestId, written: bool, o: OrderId)
    requires Safe(s, o) && !Stale(s, RespondOrder(t, written), o)
    ensures Keeps(s, Settle(s, t, written), o)
  {
    var s' := Settle(s, t, written);
    if o in s.orders && s'.orders[o] != s.orders[o] {
      assert s.orders[o].status == Pending;
      forall u ensures !Holds(s', u, o) {
        assert !Holds(s, u, o);
      }
    } else {
      SafeElsewhere(s, s', o);
    }
  }

  /** A challenge handled at once leaves everything but orders and authorizations as it was. */
  predicate Aside(s: State, s': State) {
    && s'.finalizing == s.finalizing && s'.responding == s.responding
    && s'.proof == s.proof && s'.signerCalls == s.signerCalls
  }

  function Checked(s: State, t: RequestId, o: OrderId, i: nat, kind: Kind): State
    requires o in s.orders
  {
    s.(responding := s.responding[t := Checking(o, s.orders[o], s.AuthzsOf(o), i, kind)])
  }

  lemma BothReads(s: State, t: RequestId, o: OrderId, i: nat, kind: Kind)
    requires t !in s.responding
    ensures Look(Open(s, t, o), t, i, kind) == if Answerable(s, o, i, kind) then Checked(s, t, o, i, kind) else s
  {
    if o in s.orders {
      assert s.responding[t := Opening(o, s.orders[o])] - {t} == s.responding;
      var checking := Checking(o, s.orders[o], s.AuthzsOf(o), i, kind);
      assert s.responding[t := Opening(o, s.orders[o])][t := checking] == s.responding[t := checking];
    }
  }

  lemma DecidesAndSettles(s: State, t: RequestId, o: OrderId, i: nat, kind: Kind, now: int, looked: bool,
                          authzWritten: bool, orderWritten: bool)
    requires t !in s.responding && Answerable(s, o, i, kind)
    ensures var s' := Settle(Decide(Checked(s, t, o, i, kind), t, now, looked, authzWritten), t, orderWritten);
            if !authzWritten then s' == s
            else
              var proved := looked && s.authzs[o][i].expires > now;
              var all := s.authzs[o][i := Decided(s.authzs[o][i], kind, proved)];
              var status := StatusAfter(s.orders[o], all, proved);
              && s'.authzs == s.authzs[o := all]
              && s'.orders == (if orderWritten then s.orders[o := s.orders[o].(status := status)] else s.orders)
              && Aside(s, s')
  {
    var s1 := Checked(s, t, o, i, kind);
    var s2 := Decide(s1, t, now, looked, authzWritten);
    assert s1.responding - {t} == s.responding;
    assert s2.responding - {t} == s.responding;
    assert s.orders[o := s.orders[o]] == s.orders;
  }

  /** Handled at once, a challenge changes one order at most, from pending to ready or invalid. */
  lemma AtOnceEffect(s: State, t: RequestId, o: OrderId, i: nat, kind: Kind, now: int, looked: bool,
                     authzWritten: bool, orderWritten: bool)
    ensures var s' := AtOnce(s, t, o, i, kind, now, looked, authzWritten, orderWritten);
            if t in s.responding || !Answerable(s, o, i, kind) || !authzWritten then
              s'.orders == s.orders && s'.authzs == s.authzs && Aside(s, s')
            else
              var proved := looked && s.authzs[o][i].expires > now;
              var all := s.authzs[o][i := Decided(s.authzs[o][i], kind, proved)];
              var status := StatusAfter(s.orders[o], all, proved);
              && s'.authzs == s.authzs[o := all]
              && s'.orders == (if orderWritten then s.orders[o := s.orders[o].(status := status)] else s.orders)
              && Aside(s, s')
  {
    if t !in s.responding {
      BothReads(s, t, o, i, kind);
      if Answerable(s, o, i, kind) {
        DecidesAndSettles(s, t, o, i, kind, now, looked, authzWritten, orderWritten);
      }
    }
  }

  /** An order's row that moved from pending to ready or invalid. */
  lemma SafeDecided(s: State, s': State, o: OrderId)
    requires Safe(s, o) && o in s.orders && o in s'.orders
    requires s.orders[o].status == Pending && s'.orders[o].status in {Pending, Ready, Invalid}
    requires Aside(s, s')
    ensures Safe(s', o)
  {
    forall u ensures !Holds(s', u, o) {
      assert !Holds(s, u, o);
    }
  }

  lemma SafeAtOnce(s: State, step: Step, o: OrderId)
    requires Safe(s, o) && step.RespondAtOnce?
    ensures Keeps(s, Next(s, step), o)
  {
    AtOnceEffect(s, step.request, step.order, step.index, step.kind, step.now, step.looked,
                 step.authzWritten, step.orderWritten);
    var s' := Next(s, step);
    if o in s.orders && s'.orders[o] != s.orders[o] {
      SafeDecided(s, s', o);
    } else {
      SafeElsewhere(s, s', o);
    }
  }

  lemma SafeCreate(s: State, c: OrderId, ids: seq<string>, p: bool, e: int, m: nat, d: bool, o: OrderId)
    requires Safe(s, o)
    ensures Keeps(s, Create(s, c, ids, p, e, m, d), o)
  {
    var s' := Create(s, c, ids, p, e, m, d);
    if c == o && o !in s.orders {
      forall t ensures !Holds(s', t, o) {
      }
    } else {
      SafeElsewhere(s, s', o);
    }
  }

  lemma SafeRead(s: State, t: RequestId, c: OrderId, now: int, o: OrderId)
    requires Safe(s, o)
    ensures Keeps(s, Read(s, t, c, now), o)
  {
    SafeElsewhere(s, Read(s, t, c, now), o);
  }

  lemma SafeOpen(s: State, t: RequestId, c: OrderId, o: OrderId)
    requires Safe(s, o)
    ensures Keeps(s, Open(s, t, c), o)
  {
    SafeElsewhere(s, Open(s, t, c), o);
  }

  lemma SafeLook(s: State, t: RequestId, i: nat, kind: Kind, o: OrderId)
    requires Safe(s, o)
    ensures Keeps(s, Look(s, t, i, kind), o)
  {
    SafeElsewhere(s, Look(s, t, i, kind), o);
  }

  lemma SafeDecide(s: State, t: RequestId, now: int, looked: bool, written: bool, o: OrderId)
    requires Safe(s, o)
    ensures Keeps(s, Decide(s, t, now, looked, written), o)
  {
    SafeElsewhere(s, Decide(s, t, now, looked, written), o);
  }

  predicate ByFinalize(step: Step) {
    step.FinalizeRead? || step.FinalizeClaim? || step.FinalizeRefuse? || step.FinalizeSign? || step.FinalizeRecord?
    || step.FinalizeEnd?
  }

  lemma SafeFinalize(s: State, step: Step, o: OrderId)
    requires Safe(s, o) && ByFinalize(step)
    ensures Keeps(s, Next(s, step), o)
  {
    match step
    case FinalizeRead(t, c, now) => SafeRead(s, t, c, now, o);
    case FinalizeClaim(t, now) => SafeClaim(s, t, now, o);
    case FinalizeRefuse(t) => SafeRefuse(s, t, o);
    case FinalizeSign(t, cert) => SafeSign(s, t, cert, o);
    case FinalizeRecord(t, ok) => SafeRecord(s, t, ok, o);
    case FinalizeEnd(t, written) => SafeEnd(s, t, written, o);
  }

  predicate ByRespond(step: Step) {
    step.RespondOpen? || step.RespondRead? || step.RespondAuthz? || step.RespondOrder?
  }

  lemma SafeRespond(s: State, step: Step, o: OrderId)
    requires Safe(s, o) && ByRespond(step) && !Stale(s, step, o)
    ensures Keeps(s, Next(s, step), o)
  {
    match step
    case RespondOpen(t, c) => SafeOpen(s, t, c, o);
    case RespondRead(t, i, kind) => SafeLook(s, t, i, kind, o);
    case RespondAuthz(t, now, looked, written) => SafeDecide(s, t, now, looked, written, o);
    case RespondOrder(t, written) => SafeSettle(s, t, written, o);
  }

  lemma SafeNext(s: State, step: Step, o: OrderId)
    requires Safe(s, o) && !Stale(s, step, o)
    ensures Keeps(s, Next(s, step), o)
  {
    if ByFinalize(step) {
      SafeFinalize(s, step, o);
    } else if step.NewOrder? {
      SafeCreate(s, step.order, step.identifiers, step.requiresProof, step.expires, step.made, step.ended, o);
    } else if step.RespondAtOnce? {
      SafeAtOnce(s, step, o);
    } else {
      SafeRespond(s, step, o);
    }
  }

  /** The same order: its identifiers and expiry, and authorizations of the same expiries. */
  predicate SameOrder(s: State, s': State, o: OrderId)
    requires o in s.orders
  {
    && o in s'.orders
    && s'.orders[o].identifiers == s.orders[o].identifiers && s'.orders[o].expires == s.orders[o].expires
    && |s'.AuthzsOf(o)| == |s.AuthzsOf(o)|
    && forall i :: 0 <= i < |s.AuthzsOf(o)| ==> s'.AuthzsOf(o)[i].expires == s.AuthzsOf(o)[i].expires
  }

  /** Authorizations are stored when the order is made; what becomes of them is their status. */
  lemma StaysSame(s: State, step: Step, o: OrderId)
    requires o in s.orders
    ensures SameOrder(s, Next(s, step), o)
  {
    if step.RespondAtOnce? {
      AtOnceEffect(s, step.request, step.order, step.index, step.kind, step.now, step.looked,
                   step.authzWritten, step.orderWritten);
    } else {
      StaysSameSingle(s, step, o);
    }
  }

  lemma StaysSameSingle(s: State, step: Step, o: OrderId)
    requires o in s.orders && !step.RespondAtOnce?
    ensures SameOrder(s, Next(s, step), o)
  {
  }

  lemma {:induction false} StaysSameRun(s: State, steps: seq<Step>, o: OrderId)
    ensures o in s.orders ==> SameOrder(s, Run(s, steps), o)
    decreases |steps|
  {
    if steps != [] && o in s.orders {
      StaysSame(s, steps[0], o);
      StaysSameRun(Next(s, steps[0]), steps[1..], o);
    }
  }

  /** The order is from step k on the same as in the end. */
  lemma SameFrom(steps: seq<Step>, k: nat, o: OrderId)
    requires k <= |steps| && o in Run(Initial(), steps[..k]).orders
    ensures SameOrder(Run(Initial(), steps[..k]), Run(Initial(), steps), o)
  {
    assert steps == steps[..k] + steps[k..];
    RunSplit(Initial(), steps[..k], steps[k..]);
    StaysSameRun(Run(Initial(), steps[..k]), steps[k..], o);
  }

  /** Every order write of a challenge request finds its row still pending. */
  predicate NoneStale(s: State, steps: seq<Step>, o: OrderId)
    decreases |steps|
  {
    steps == [] || (!Stale(s, steps[0], o) && NoneStale(Next(s, steps[0]), steps[1..], o))
  }

  lemma {:induction false} NoneStaleSplit(s: State, a: seq<Step>, b: seq<Step>, o: OrderId)
    requires NoneStale(s, a + b, o)
    ensures NoneStale(s, a, o) && NoneStale(Run(s, a), b, o)
    decreases |a|
  {
    if a == [] {
      assert a + b == b;
    } else {
      assert (a + b)[0] == a[0] && (a + b)[1..] == a[1..] + b;
      NoneStaleSplit(Next(s, a[0]), a[1..], b, o);
    }
  }

  lemma {:induction false} SafeRun(s: State, steps: seq<Step>, o: OrderId)
    requires Safe(s, o) && NoneStale(s, steps, o)
    ensures Keeps(s, Run(s, steps), o)
    decreases |steps|
  {
    if steps != [] {
      SafeNext(s, steps[0], o);
      SafeRun(Next(s, steps[0]), steps[1..], o);
    }
  }

  /** One call to the signer at most, and an order that was valid is as it was. */
  predicate IssuedOnce(mid: State, end: State, o: OrderId) {
    && end.Calls(o) <= 1
    && (o in mid.orders && mid.orders[o].status == Valid ==>
          o in end.orders && end.orders[o] == mid.orders[o] && mid.orders[o].certificate.Some?)
  }

  /**
   At most one issuance, over any interleaving of the single steps of any number of
   finalize and challenge requests, as long as each challenge request's order write
   finds the order still pending: the signer is called at most once for an order,
   and once the order is valid it never changes again.
   */
  lemma AtMostOneIssuanceUnlessStale(before: seq<Step>, after: seq<Step>, o: OrderId)
    requires NoneStale(Initial(), before + after, o)
    ensures IssuedOnce(Run(Initial(), before), Run(Initial(), before + after), o)
  {
    RunSplit(Initial(), before, after);
    NoneStaleSplit(Initial(), before, after, o);
    assert Safe(Initial(), o);
    SafeRun(Initial(), before, o);
    SafeRun(Run(Initial(), before), after, o);
  }

  /** With nothing stored to prove, no challenge request gets past reading. */
  lemma {:induction false} NothingToProve(s: State, steps: seq<Step>, o: OrderId)
    requires Safe(s, o) && Quiet(s, o) && Run(s, steps).AuthzsOf(o) == []
    ensures NoneStale(s, steps, o)
    decreases |steps|
  {
    if steps != [] {
      StaysSameRun(s, steps, o);
      SafeNext(s, steps[0], o);
      StaysQuiet(s, steps[0], o);
      NothingToProve(Next(s, steps[0]), steps[1..], o);
    }
  }

  lemma StaysQuiet(s: State, step: Step, o: OrderId)
    requires Quiet(s, o) && s.AuthzsOf(o) == []
    ensures Quiet(Next(s, step), o)
  {
    if step.RespondAtOnce? {
      AtOnceEffect(s, step.request, step.order, step.index, step.kind, step.now, step.looked,
                   step.authzWritten, step.orderWritten);
    }
  }

  /** So it holds, over any interleaving, of an order with no stored authorizations. */
  lemma AtMostOneIssuance(before: seq<Step>, after: seq<Step>, o: OrderId)
    requires Run(Initial(), before + after).AuthzsOf(o) == []
    ensures IssuedOnce(Run(Initial(), before), Run(Initial(), before + after), o)
  {
    assert Safe(Initial(), o);
    NothingToProve(Initial(), before + after, o);
    AtMostOneIssuanceUnlessStale(before, after, o);
  }

  /** The steps of challenge requests handled each as a whole. */
  predicate RespondsAtOnce(steps: seq<Step>) {
    forall i :: 0 <= i < |steps| ==> !ByRespond(steps[i])
  }

  lemma {:induction false} NobodyResponding(s: State, steps: seq<Step>, o: OrderId)
    requires s.responding == map[] && RespondsAtOnce(steps)
    ensures NoneStale(s, steps, o) && Run(s, steps).responding == map[]
    decreases |steps|
  {
    if steps != [] {
      var step := steps[0];
      if step.RespondAtOnce? {
        AtOnceEffect(s, step.request, step.order, step.index, step.kind, step.now, step.looked,
                     step.authzWritten, step.orderWritten);
      }
      NobodyResponding(Next(s, step), steps[1..], o);
    }
  }

  /** And of every order, proof required or not, when challenge requests are handled each as a whole. */
  lemma AtMostOneIssuanceAtOnce(before: seq<Step>, after: seq<Step>, o: OrderId)
    requires RespondsAtOnce(before + after)
    ensures IssuedOnce(Run(Initial(), before), Run(Initial(), before + after), o)
  {
    NobodyResponding(Initial(), before + after, o);
    AtMostOneIssuanceUnlessStale(before, after, o);
  }
}
