/** The order handlers as they run, one request at a time, over the store's tables. */
module OrderServer {
  import opened Prelude
  import opened Orders

  /** Writing a new order's row and its authorizations twice is writing them once. */
  lemma Overwritten(s: State, o: OrderId, first: Order, last: Order, made: nat)
    requires made <= |last.identifiers|
    ensures s.orders[o := first][o := last] == s.orders[o := last]
    ensures var all := Authorizations(last.identifiers, last.expires, made);
            s.authzs[o := []][o := all] == s.authzs[o := all]
  {
  }

  class Server {
    var acmeOrders: map<OrderId, Order>
    var acmeAuthzs: map<OrderId, seq<Authz>>
    ghost var finalizing: map<RequestId, Finalize>
    ghost var responding: map<RequestId, Respond>
    ghost var proof: set<OrderId>
    ghost var signerCalls: seq<OrderId>

    ghost function View(): State
      reads this
    {
      State(acmeOrders, acmeAuthzs, finalizing, responding, proof, signerCalls)
    }

    constructor ()
      ensures View() == Initial()
    {
      acmeOrders, acmeAuthzs := map[], map[];
      finalizing, responding, proof, signerCalls := map[], map[], {}, [];
    }

    // ---------- the store's calls ----------

    method ClaimACMEOrderForFinalize(id: OrderId, now: int) returns (claimed: bool)
      modifies `acmeOrders
      ensures claimed <==> Claimable(old(View()), id, now)
      ensures acmeOrders == if claimed then old(acmeOrders)[id := old(acmeOrders)[id].(status := Processing)]
                            else old(acmeOrders)
    {
      if id !in acmeOrders || acmeOrders[id].status != Ready || acmeOrders[id].expires <= now {
        return false;
      }
      acmeOrders := acmeOrders[id := acmeOrders[id].(status := Processing)];
      return true;
    }

    method UpdateACMEOrder(id: OrderId, copy: Order) returns (found: bool)
      modifies `acmeOrders
      ensures View() == Written(old(View()), id, copy)
      ensures found <==> id in old(acmeOrders)
    {
      if id !in acmeOrders {
        return false;
      }
      acmeOrders := acmeOrders[id := acmeOrders[id].(status := copy.status, certificate := copy.certificate)];
      return true;
    }

    // ---------- the handlers ----------

    /**
     new-order, under an identifier the store has not used. Storing authorization
     number `made` fails, if there is one; `ended` says whether the order could
     then be marked invalid.
     */
    method NewOrder(o: OrderId, identifiers: seq<string>, requiresProof: bool, expires: int, made: nat, ended: bool)
      requires o !in acmeOrders && made <= |identifiers|
      modifies this
      ensures View() == Next(old(View()), Step.NewOrder(o, identifiers, requiresProof, expires, made, ended))
    {
      ghost var before := View();
      var order := Order(Ready, identifiers, expires, None);
      if requiresProof {
        order := order.(status := Pending);
        proof := proof + {o};
      }
      acmeOrders := acmeOrders[o := order];
      acmeAuthzs := acmeAuthzs[o := []];
      if requiresProof {
        var created := CreateAuthorizations(o, order, made);
        if !created && ended {
          order := order.(status := Invalid);
          var _ := UpdateACMEOrder(o, order);
        }
        Overwritten(before, o, Order(Pending, identifiers, expires, None), order, made);
      }
    }

    method CreateAuthorizations(o: OrderId, order: Order, made: nat) returns (ok: bool)
      requires made <= |order.identifiers| && o in acmeAuthzs && acmeAuthzs[o] == []
      modifies `acmeAuthzs
      ensures ok <==> made == |order.identifiers|
      ensures acmeAuthzs == old(acmeAuthzs)[o := Authorizations(order.identifiers, order.expires, made)]
      ensures |acmeAuthzs[o]| == made
      ensures forall i :: 0 <= i < made ==>
                var a, name := acmeAuthzs[o][i], order.identifiers[i];
                && a.wildcard == ("*." <= name) && a.value == (if "*." <= name then name[2..] else name)
                && a.status == Undecided && a.validatedWith == None && a.expires == order.expires
    {
      var i := 0;
      while i < |order.identifiers|
        invariant 0 <= i <= made
        invariant acmeAuthzs == old(acmeAuthzs)[o := Authorizations(order.identifiers, order.expires, i)]
      {
        if i == made {
          return false;
        }
        var value, wildcard := order.identifiers[i], false;
        if "*." <= value {
          value, wildcard := value[2..], true;
        }
        var authz := Authz(value, wildcard, Undecided, None, order.expires);
        acmeAuthzs := acmeAuthzs[o := acmeAuthzs[o] + [authz]];
        i := i + 1;
      }
      return true;
    }

    /** allValid, counting the one just decided as it is now. */
    method AllValid(all: seq<Authz>, index: nat, just: Authz) returns (valid: bool)
      requires index < |all|
      ensures valid <==> AllProved(all[index := just])
    {
      ghost var after := all[index := just];
      var i := 0;
      while i < |all|
        invariant 0 <= i <= |all|
        invariant forall k :: 0 <= k < i ==> after[k].status == Proved
      {
        var status := all[i].status;
        if i == index {
          status := just.status;
        }
        if status != Proved {
          assert after[i].status != Proved;
          return false;
        }
        i := i + 1;
      }
      return true;
    }

    /**
     A challenge response. looked is what the validation found; the two flags say
     whether the authorization and the order could be written.
     */
    method RespondToChallenge(ghost t: RequestId, o: OrderId, index: nat, kind: Kind, now: int, looked: bool,
                              authzWritten: bool, orderWritten: bool)
      requires t !in responding && o in acmeOrders
      modifies this
      ensures View() == Next(old(View()),
                             RespondAtOnce(t, o, index, kind, now, looked, authzWritten, orderWritten))
    {
      AtOnceEffect(View(), t, o, index, kind, now, looked, authzWritten, orderWritten);
      var all := if o in acmeAuthzs then acmeAuthzs[o] else [];
      if index >= |all| || kind !in ChallengeTypes(all[index]) {
        return;
      }
      var order, authz := acmeOrders[o], all[index];
      if authz.status != Undecided || order.status != Pending {
        return;
      }
      var proved := false;
      if authz.expires > now {
        proved := looked;
      }
      authz := authz.(validatedWith := Some(kind), status := if proved then Proved else Refused);
      if !authzWritten {
        return;
      }
      acmeAuthzs := acmeAuthzs[o := acmeAuthzs[o][index := authz]];
      var valid := AllValid(all, index, authz);
      if authz.status == Refused {
        order := order.(status := Invalid);
      } else if valid {
        order := order.(status := Ready);
      }
      if order.status != Pending && orderWritten {
        var _ := UpdateACMEOrder(o, order);
      }
    }

    /**
     Finalize. refused is what the checks after the claim found, cert what the
     signer returned, recorded and written whether those writes succeeded.
     */
    method Finalize(o: OrderId, now: int, refused: bool, cert: Option<CertId>, recorded: bool, written: bool)
      modifies this
      ensures View() == FinalizedAlone(old(View()), o, now, refused, cert, recorded, written)
    {
      if o !in acmeOrders {
        return;
      }
      var order := acmeOrders[o];
      if order.status != Ready || order.expires <= now {
        return;
      }
      var claimed := ClaimACMEOrderForFinalize(o, now);
      if !claimed {
        return;
      }
      if refused {
        order := order.(status := Invalid);
      } else {
        signerCalls := signerCalls + [o];
        if cert.None? || !recorded {
          order := order.(status := Invalid);
        } else {
          order := order.(status := Valid, certificate := Some(cert.value));
        }
      }
      if written {
        var _ := UpdateACMEOrder(o, order);
      }
    }
  }

  /** What one finalize request leaves when nothing else runs. */
  function FinalizedAlone(s: State, o: OrderId, now: int, refused: bool, cert: Option<CertId>,
                          recorded: bool, written: bool): State
  {
    if !Claimable(s, o, now) then s
    else
      var copy := s.orders[o];
      var issued := !refused && cert.Some? && recorded;
      var end := if issued then copy.(status := Valid, certificate := cert) else copy.(status := Invalid);
      var called := s.(signerCalls := if refused then s.signerCalls else s.signerCalls + [o]);
      if written then Written(called, o, end)
      else called.(orders := s.orders[o := copy.(status := Processing)])
  }

  lemma ReadAndClaimed(s: State, t: RequestId, o: OrderId, now: int)
    requires t !in s.finalizing && Claimable(s, o, now)
    ensures Claim(Read(s, t, o, now), t, now)
            == s.(orders := s.orders[o := s.orders[o].(status := Processing)],
                  finalizing := s.finalizing[t := Claimed(o, s.orders[o])])
  {
    assert s.finalizing[t := Claiming(o, s.orders[o])][t := Claimed(o, s.orders[o])]
        == s.finalizing[t := Claimed(o, s.orders[o])];
  }

  /** How a request that has claimed o stands when it is about to end. */
  function Ending(o: OrderId, copy: Order, refused: bool, cert: Option<CertId>, recorded: bool): Finalize {
    if refused || cert.None? || !recorded then Failing(o, copy) else Orders.Recorded(o, copy, cert.value)
  }

  lemma Proceeded(s: State, t: RequestId, o: OrderId, copy: Order, refused: bool, cert: Option<CertId>, recorded: bool)
    requires t in s.finalizing && s.finalizing[t] == Claimed(o, copy)
    ensures Record(if refused then Refuse(s, t) else Sign(s, t, cert), t, recorded)
            == s.(finalizing := s.finalizing[t := Ending(o, copy, refused, cert, recorded)],
                  signerCalls := if refused then s.signerCalls else s.signerCalls + [o])
  {
    if !refused && cert.Some? {
      var f := Ending(o, copy, refused, cert, recorded);
      assert s.finalizing[t := Signed(o, copy, cert.value)][t := f] == s.finalizing[t := f];
    }
  }

  lemma Ended(s: State, t: RequestId, written: bool, rest: map<RequestId, Finalize>)
    requires t !in rest && t in s.finalizing && s.finalizing == rest[t := s.finalizing[t]]
    requires s.finalizing[t].Failing? || s.finalizing[t].Recorded?
    ensures var done := s.(finalizing := rest);
            End(s, t, written) == if written then Written(done, s.finalizing[t].order, Outcome(s.finalizing[t])) else done
  {
    assert s.finalizing - {t} == rest;
  }

  lemma AloneWhenClaimable(s: State, t: RequestId, o: OrderId, now: int, refused: bool, cert: Option<CertId>,
                           recorded: bool, written: bool)
    requires t !in s.finalizing && Claimable(s, o, now)
    ensures var s2 := Claim(Read(s, t, o, now), t, now);
            FinalizedAlone(s, o, now, refused, cert, recorded, written)
            == End(Record(if refused then Refuse(s2, t) else Sign(s2, t, cert), t, recorded), t, written)
  {
    var copy := s.orders[o];
    ReadAndClaimed(s, t, o, now);
    var s2 := Claim(Read(s, t, o, now), t, now);
    Proceeded(s2, t, o, copy, refused, cert, recorded);
    var s4 := Record(if refused then Refuse(s2, t) else Sign(s2, t, cert), t, recorded);
    var f := Ending(o, copy, refused, cert, recorded);
    assert s4.finalizing == s.finalizing[t := f];
    Ended(s4, t, written, s.finalizing);
    assert s.orders[o := copy.(status := Processing)][o := Outcome(f)] == s.orders[o := Outcome(f)];
  }

  /** Of an order that cannot be claimed, no step makes anything. */
  lemma NothingClaimed(s: State, t: RequestId, o: OrderId, now: int, third: Step, recorded: bool, written: bool)
    requires t !in s.finalizing && !Claimable(s, o, now)
    requires (third.FinalizeRefuse? || third.FinalizeSign?) && third.request == t
    ensures Read(s, t, o, now) == s && Claim(s, t, now) == s && Next(s, third) == s
    ensures Record(s, t, recorded) == s && End(s, t, written) == s
  {
  }

  function ItsSteps(t: RequestId, o: OrderId, now: int, refused: bool, cert: Option<CertId>, recorded: bool,
                    written: bool): seq<Step>
  {
    [FinalizeRead(t, o, now), FinalizeClaim(t, now), if refused then FinalizeRefuse(t) else FinalizeSign(t, cert),
     FinalizeRecord(t, recorded), FinalizeEnd(t, written)]
  }

  /** And it is the five steps of the protocol, one after another. */
  lemma FinalizedAloneIsItsSteps(s: State, t: RequestId, o: OrderId, now: int, refused: bool, cert: Option<CertId>,
                                 recorded: bool, written: bool)
    requires t !in s.finalizing
    ensures FinalizedAlone(s, o, now, refused, cert, recorded, written)
            == Run(s, ItsSteps(t, o, now, refused, cert, recorded, written))
  {
    var third := if refused then FinalizeRefuse(t) else FinalizeSign(t, cert);
    RunFive(s, FinalizeRead(t, o, now), FinalizeClaim(t, now), third, FinalizeRecord(t, recorded),
            FinalizeEnd(t, written));
    if Claimable(s, o, now) {
      AloneWhenClaimable(s, t, o, now, refused, cert, recorded, written);
      var s2 := Claim(Read(s, t, o, now), t, now);
      assert Next(s2, third) == if refused then Refuse(s2, t) else Sign(s2, t, cert);
    } else {
      NothingClaimed(s, t, o, now, third, recorded, written);
    }
  }

  lemma RunFive(s: State, a: Step, b: Step, c: Step, d: Step, e: Step)
    ensures Run(s, [a, b, c, d, e]) == Next(Next(Next(Next(Next(s, a), b), c), d), e)
  {
    var s1 := Next(s, a);
    var s2 := Next(s1, b);
    var s3 := Next(s2, c);
    var s4 := Next(s3, d);
    assert [a, b, c, d, e][1..] == [b, c, d, e];
    assert [b, c, d, e][1..] == [c, d, e];
    assert [c, d, e][1..] == [d, e];
    assert [d, e][1..] == [e] && [e][1..] == [];
    assert Run(s4, [e]) == Run(Next(s4, e), []);
    assert Run(s3, [d, e]) == Run(s4, [e]);
    assert Run(s2, [c, d, e]) == Run(s3, [d, e]);
    assert Run(s1, [b, c, d, e]) == Run(s2, [c, d, e]);
  }
}
