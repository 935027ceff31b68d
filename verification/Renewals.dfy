/**
 Renewal over a record: a valid order for names the account already holds a live
 certificate for takes that certificate's record over, and counts one renewal.

 Each handler is one step and its writes succeed. A record's template is its
 account's, an account belonging to one template.
 */
module Renewals {
  import opened Prelude

  type OrderId = string
  type RecordId = string
  type AccountId = string

  /** What a new order said it replaces: the record, and which of its certificates. */
  datatype Replacement = Replacement(record: RecordId, serial: nat)

  datatype Order = Order(account: AccountId, names: set<string>, valid: bool, record: Option<RecordId>,
                         replacing: Option<Replacement>)

  /** live is one of ISSUED, EXPIRING and RENEWAL_FAILED; owner is the account it was first issued to. */
  datatype Record = Record(owner: AccountId, names: set<string>, keyType: string, live: bool, serial: nat,
                           notAfter: int, renewalCount: nat)

  datatype State = State(orders: map<OrderId, Order>, records: map<RecordId, Record>)

  function Initial(): State {
    State(map[], map[])
  }

  /** The certificate the CA returned. */
  datatype Issued = Issued(names: set<string>, keyType: string, serial: nat, notAfter: int)

  // ---------- which record an order renews ----------

  /** Orders of the account that ended in this record. */
  predicate NamedBy(s: State, account: AccountId, r: RecordId) {
    exists o :: o in s.orders && s.orders[o].account == account && s.orders[o].record == Some(r)
  }

  /** A live record of the account with these names and this key type. */
  predicate Candidate(s: State, account: AccountId, names: set<string>, keyType: string, r: RecordId) {
    && NamedBy(s, account, r) && r in s.records && s.records[r].live
    && s.records[r].keyType == keyType && s.records[r].names == names
  }

  /** The order's own target: a live record whose serial is yet the one named, or none. */
  function Replaced(s: State, order: Order): Option<RecordId> {
    if order.replacing.None? || order.replacing.value.record !in s.records then None
    else
      var r := order.replacing.value.record;
      if s.records[r].live && s.records[r].serial == order.replacing.value.serial then Some(r) else None
  }

  /** What finalize may pick: the replaced record first, then a latest candidate, else none. */
  ghost predicate Picks(s: State, order: Order, keyType: string, prev: Option<RecordId>) {
    if Replaced(s, order).Some? then prev == Replaced(s, order)
    else
      match prev
      case None => forall r :: !Candidate(s, order.account, order.names, keyType, r)
      case Some(p) =>
        && Candidate(s, order.account, order.names, keyType, p)
        && forall r :: Candidate(s, order.account, order.names, keyType, r) ==>
             s.records[r].notAfter <= s.records[p].notAfter
  }

  // ---------- steps ----------

  datatype Step =
    | NewOrder(order: OrderId, account: AccountId, names: set<string>, replacing: Option<Replacement>)
    | Finalize(order: OrderId, keyType: string, prev: Option<RecordId>, newId: RecordId, cert: Issued)
    | Retire(record: RecordId)
    | Delete(record: RecordId)

  /** Some order has replaced the certificate already. */
  predicate AlreadyReplaced(s: State, serial: nat) {
    exists o :: o in s.orders && s.orders[o].valid
                && s.orders[o].replacing.Some? && s.orders[o].replacing.value.serial == serial
  }

  /** new-order refuses to replace a certificate twice, another account's, or an unrelated one. */
  predicate MayReplace(s: State, account: AccountId, names: set<string>, p: Replacement) {
    && !AlreadyReplaced(s, p.serial)
    && p.record in s.records && s.records[p.record].serial == p.serial
    && NamedBy(s, account, p.record)
    && s.records[p.record].names * names != {}
  }

  /** Identifiers are never used twice: no record has it, and no order ever referred to it. */
  predicate Unused(s: State, r: RecordId) {
    r !in s.records && forall o :: o in s.orders ==>
      s.orders[o].record != Some(r) && (s.orders[o].replacing.Some? ==> s.orders[o].replacing.value.record != r)
  }

  function Renewed(prev: Record, cert: Issued): Record {
    Record(prev.owner, cert.names, cert.keyType, true, cert.serial, cert.notAfter, prev.renewalCount + 1)
  }

  function Fresh(owner: AccountId, cert: Issued): Record {
    Record(owner, cert.names, cert.keyType, true, cert.serial, cert.notAfter, 0)
  }

  ghost predicate Enabled(s: State, step: Step) {
    match step
    case NewOrder(o, account, names, replacing) =>
      o !in s.orders && (replacing.Some? ==> MayReplace(s, account, names, replacing.value))
    case Finalize(o, keyType, prev, newId, cert) =>
      o in s.orders && !s.orders[o].valid && Picks(s, s.orders[o], keyType, prev) && Unused(s, newId)
    case Retire(r) => r in s.records
    case Delete(r) => r in s.records
  }

  function Next(s: State, step: Step): State
    requires step.Finalize? ==> step.order in s.orders && (step.prev.Some? ==> step.prev.value in s.records)
    requires step.Retire? ==> step.record in s.records
  {
    match step
    case NewOrder(o, account, names, replacing) =>
      s.(orders := s.orders[o := Order(account, names, false, None, replacing)])
    case Finalize(o, keyType, prev, newId, cert) =>
      var order := s.orders[o];
      var r := if prev.Some? then prev.value else newId;
      var record := if prev.Some? then Renewed(s.records[prev.value], cert) else Fresh(order.account, cert);
      State(s.orders[o := order.(valid := true, record := Some(r))], s.records[r := record])
    case Retire(r) => s.(records := s.records[r := s.records[r].(live := false)])
    case Delete(r) => s.(records := s.records - {r})
  }

  lemma EnabledFits(s: State, step: Step)
    requires Enabled(s, step)
    ensures step.Finalize? ==> step.order in s.orders && (step.prev.Some? ==> step.prev.value in s.records)
  {
  }

  /** The states runs can reach: a run is the list of its states and the steps between them. */
  ghost predicate IsRun(states: seq<State>, steps: seq<Step>) {
    && |states| == |steps| + 1 && states[0] == Initial()
    && forall i :: 0 <= i < |steps| ==> Takes(states[i], steps[i], states[i + 1])
  }

  ghost predicate Takes(s: State, step: Step, s': State) {
    Enabled(s, step) && (EnabledFits(s, step); s' == Next(s, step))
  }

  // ---------- conservation ----------

  /** The valid orders that name the record. */
  function Naming(s: State, r: RecordId): set<OrderId> {
    set o | o in s.orders && s.orders[o].valid && s.orders[o].record == Some(r)
  }

  ghost predicate Counted(s: State) {
    forall r :: r in s.records ==> s.records[r].renewalCount + 1 == |Naming(s, r)|
  }

  /** Orders belong to the account of the record they name, or say they replace. */
  ghost predicate OneOwner(s: State) {
    && (forall o :: o in s.orders ==> (s.orders[o].valid <==> s.orders[o].record.Some?))
    && (forall o, r :: o in s.orders && r in s.records && s.orders[o].record == Some(r) ==>
          s.orders[o].account == s.records[r].owner)
    && (forall o :: o in s.orders && s.orders[o].replacing.Some? && s.orders[o].replacing.value.record in s.records ==>
          s.records[s.orders[o].replacing.value.record].owner == s.orders[o].account)
  }

  ghost predicate Inv(s: State) {
    OneOwner(s) && Counted(s)
  }

  lemma PickIsOwned(s: State, order: Order, keyType: string, prev: Option<RecordId>)
    requires Inv(s) && Picks(s, order, keyType, prev) && prev.Some?
    requires order.replacing.Some? && order.replacing.value.record in s.records ==>
               s.records[order.replacing.value.record].owner == order.account
    ensures prev.value in s.records && s.records[prev.value].owner == order.account && s.records[prev.value].live
  {
  }

  lemma NamingAfterFinalize(s: State, s': State, o: OrderId, r: RecordId)
    requires o in s.orders && !s.orders[o].valid
    requires s'.orders == s.orders[o := s.orders[o].(valid := true, record := Some(r))]
    ensures Naming(s', r) == Naming(s, r) + {o} && o !in Naming(s, r)
    ensures forall q :: q != r ==> Naming(s', q) == Naming(s, q)
  {
  }

  /** Order o has become valid with record r, written over or new, and nothing else changed. */
  ghost predicate Wrote(s: State, s': State, o: OrderId, r: RecordId) {
    && o in s.orders && !s.orders[o].valid
    && s'.orders == s.orders[o := s.orders[o].(valid := true, record := Some(r))]
    && s'.records.Keys == s.records.Keys + {r}
    && (forall q :: q in s.records && q != r ==> s'.records[q] == s.records[q])
    && s'.records[r].owner == s.orders[o].account
    && (r in s.records ==>
          s'.records[r].renewalCount == s.records[r].renewalCount + 1 && s.records[r].owner == s.orders[o].account)
    && (r !in s.records ==> s'.records[r].renewalCount == 0 && Unused(s, r))
  }

  lemma FinalizeWrites(s: State, step: Step) returns (r: RecordId)
    requires Inv(s) && Enabled(s, step) && step.Finalize?
    ensures step.prev.Some? ==> step.prev.value in s.records
    ensures Wrote(s, Next(s, step), step.order, r)
  {
    if step.prev.Some? {
      PickIsOwned(s, s.orders[step.order], step.keyType, step.prev);
      return step.prev.value;
    }
    return step.newId;
  }

  lemma CountedAfter(s: State, s': State, o: OrderId, r: RecordId)
    requires Counted(s) && Wrote(s, s', o, r)
    ensures Counted(s')
  {
    NamingAfterFinalize(s, s', o, r);
    if r !in s.records {
      assert Naming(s, r) == {};
    }
    forall q | q in s'.records ensures s'.records[q].renewalCount + 1 == |Naming(s', q)| {
      if q == r {
        assert |Naming(s', r)| == |Naming(s, r)| + 1;
      } else {
        assert q in s.records && Naming(s', q) == Naming(s, q);
      }
    }
  }

  lemma OneOwnerAfter(s: State, s': State, o: OrderId, r: RecordId)
    requires OneOwner(s) && Wrote(s, s', o, r)
    ensures OneOwner(s')
  {
    forall p, q | p in s'.orders && q in s'.records && s'.orders[p].record == Some(q)
      ensures s'.orders[p].account == s'.records[q].owner
    {
      assert p != o ==> s'.orders[p] == s.orders[p];
      assert p != o ==> q in s.records;
    }
    forall p | p in s'.orders && s'.orders[p].replacing.Some? && s'.orders[p].replacing.value.record in s'.records
      ensures s'.records[s'.orders[p].replacing.value.record].owner == s'.orders[p].account
    {
      assert s.orders[p].replacing == s'.orders[p].replacing;
      assert s.orders[p].replacing.value.record in s.records;
    }
  }

  lemma InvFinalize(s: State, step: Step)
    requires Inv(s) && Enabled(s, step) && step.Finalize?
    ensures step.prev.Some? ==> step.prev.value in s.records
    ensures Inv(Next(s, step))
  {
    var r := FinalizeWrites(s, step);
    CountedAfter(s, Next(s, step), step.order, r);
    OneOwnerAfter(s, Next(s, step), step.order, r);
  }

  lemma InvElse(s: State, step: Step)
    requires Inv(s) && Enabled(s, step) && !step.Finalize?
    ensures Inv(Next(s, step))
  {
    var s' := Next(s, step);
    forall r | r in s'.records ensures s'.records[r].renewalCount + 1 == |Naming(s', r)| {
      assert r in s.records;
      assert Naming(s', r) == Naming(s, r);
    }
    if step.NewOrder? && step.replacing.Some? {
      var r := step.replacing.value.record;
      var o :| o in s.orders && s.orders[o].account == step.account && s.orders[o].record == Some(r);
    }
  }

  lemma {:induction false} InvRun(states: seq<State>, steps: seq<Step>, n: nat)
    requires IsRun(states, steps) && n <= |steps|
    ensures Inv(states[n])
  {
    if n > 0 {
      InvRun(states, steps, n - 1);
      assert Takes(states[n - 1], steps[n - 1], states[n]);
      if steps[n - 1].Finalize? {
        InvFinalize(states[n - 1], steps[n - 1]);
      } else {
        InvElse(states[n - 1], steps[n - 1]);
      }
    }
  }

  /**
   Renewal conservation: in every reachable state each record's renewal count plus
   one is the number of valid orders that name it, and they are all its owner's.
   */
  lemma RenewalsAreCounted(states: seq<State>, steps: seq<Step>, n: nat, r: RecordId)
    requires IsRun(states, steps) && n <= |steps| && r in states[n].records
    ensures states[n].records[r].renewalCount + 1 == |Naming(states[n], r)|
    ensures forall o :: o in Naming(states[n], r) ==> states[n].orders[o].account == states[n].records[r].owner
  {
    InvRun(states, steps, n);
  }

  // ---------- one live record ----------

  /** The order carries no replaces, and the CA issues the names and key type asked for. */
  predicate Plain(s: State, step: Step) {
    && (step.NewOrder? ==> step.replacing.None?)
    && (step.Finalize? && step.order in s.orders ==>
          step.cert.names == s.orders[step.order].names && step.cert.keyType == step.keyType)
  }

  /** No two live records share account, names and key type. */
  ghost predicate NoTwins(s: State) {
    forall q, r :: q in s.records && r in s.records && q != r && s.records[q].live && s.records[r].live ==>
      !(s.records[q].owner == s.records[r].owner && s.records[q].names == s.records[r].names
        && s.records[q].keyType == s.records[r].keyType)
  }

  ghost predicate OneLive(s: State) {
    NoTwins(s) && forall o :: o in s.orders ==> s.orders[o].replacing.None?
  }

  /** Every live record of the account with these names is a candidate: some order of the account names it. */
  lemma RecordIsCandidate(s: State, r: RecordId)
    requires Inv(s) && r in s.records && s.records[r].live
    ensures Candidate(s, s.records[r].owner, s.records[r].names, s.records[r].keyType, r)
  {
    assert |Naming(s, r)| > 0;
    var o :| o in Naming(s, r);
    assert s.orders[o].account == s.records[r].owner;
  }

  lemma OneLiveFinalize(s: State, step: Step)
    requires Inv(s) && OneLive(s) && Enabled(s, step) && Plain(s, step) && step.Finalize?
    ensures step.prev.Some? ==> step.prev.value in s.records
    ensures OneLive(Next(s, step))
  {
    var order := s.orders[step.order];
    var s' := Next(s, step);
    var p := if step.prev.Some? then step.prev.value else step.newId;
    if step.prev.Some? {
      PickIsOwned(s, order, step.keyType, step.prev);
    }
    forall q | q in s'.records && q != p && s'.records[q].live
      ensures !(s'.records[q].owner == order.account && s'.records[q].names == order.names
                && s'.records[q].keyType == step.keyType)
    {
      assert s'.records[q] == s.records[q];
      RecordIsCandidate(s, q);
    }
  }

  lemma {:induction false} OneLiveRun(states: seq<State>, steps: seq<Step>, n: nat)
    requires IsRun(states, steps) && n <= |steps|
    requires forall i :: 0 <= i < |steps| ==> Plain(states[i], steps[i])
    ensures OneLive(states[n])
  {
    if n > 0 {
      OneLiveRun(states, steps, n - 1);
      InvRun(states, steps, n - 1);
      assert Takes(states[n - 1], steps[n - 1], states[n]);
      if steps[n - 1].Finalize? {
        OneLiveFinalize(states[n - 1], steps[n - 1]);
      }
    }
  }

  /**
   With no order carrying replaces, and a CA that issues what is asked for, no two
   live records share account, names and key type: renewing never piles up records.
   */
  lemma NoTwoLiveRecords(states: seq<State>, steps: seq<Step>, n: nat, q: RecordId, r: RecordId)
    requires IsRun(states, steps) && n <= |steps|
    requires forall i :: 0 <= i < |steps| ==> Plain(states[i], steps[i])
    requires q in states[n].records && r in states[n].records && states[n].records[q].live && states[n].records[r].live
    requires states[n].records[q].owner == states[n].records[r].owner
    requires states[n].records[q].names == states[n].records[r].names
    requires states[n].records[q].keyType == states[n].records[r].keyType
    ensures q == r
  {
    OneLiveRun(states, steps, n);
  }

  // ---------- exactly when ----------

  /** Searching for what was issued, not for what was ordered, finds nothing but the record about to be written. */
  ghost predicate Clear(s: State, step: Step) {
    step.Finalize? && step.order in s.orders ==>
      forall q :: Candidate(s, s.orders[step.order].account, step.cert.names, step.cert.keyType, q) ==>
        step.prev == Some(q)
  }

  lemma FinalizeTwins(s: State, step: Step)
    requires Inv(s) && NoTwins(s) && Enabled(s, step) && step.Finalize?
    ensures step.prev.Some? ==> step.prev.value in s.records
    ensures NoTwins(Next(s, step)) <==> Clear(s, step)
  {
    var account, p := s.orders[step.order].account, if step.prev.Some? then step.prev.value else step.newId;
    if step.prev.Some? {
      PickIsOwned(s, s.orders[step.order], step.keyType, step.prev);
    }
    var s' := Next(s, step);
    assert s'.records[p].owner == account;
    if Clear(s, step) {
      forall q | q in s'.records && q != p && s'.records[q].live
        ensures !(s'.records[q].owner == account && s'.records[q].names == step.cert.names
                  && s'.records[q].keyType == step.cert.keyType)
      {
        RecordIsCandidate(s, q);
      }
    } else {
      var q :| Candidate(s, account, step.cert.names, step.cert.keyType, q) && step.prev != Some(q);
      assert s'.records[q] == s.records[q];
    }
  }

  lemma OtherStepsTwins(s: State, step: Step)
    requires NoTwins(s) && Enabled(s, step) && !step.Finalize?
    ensures NoTwins(Next(s, step))
  {
  }

  /** Twin-free so far, and every record written was clear: the two stop being true together. */
  lemma {:induction false} TwinsAppearWhenNotClear(states: seq<State>, steps: seq<Step>, n: nat)
    requires IsRun(states, steps) && n <= |steps|
    ensures (forall i :: 0 <= i <= n ==> NoTwins(states[i])) <==> (forall i :: 0 <= i < n ==> Clear(states[i], steps[i]))
  {
    if n > 0 {
      TwinsAppearWhenNotClear(states, steps, n - 1);
      InvRun(states, steps, n - 1);
      assert Takes(states[n - 1], steps[n - 1], states[n]);
      if NoTwins(states[n - 1]) {
        if steps[n - 1].Finalize? {
          FinalizeTwins(states[n - 1], steps[n - 1]);
        } else {
          OtherStepsTwins(states[n - 1], steps[n - 1]);
        }
      }
    }
  }

  /**
   replaces is what breaks it: an order for a's names that replaces b turns b into
   a second live record for them.
   */
  lemma ReplacesMakesTwo(s: State, o: OrderId, a: RecordId, b: RecordId, newId: RecordId, serial: nat, notAfter: int)
    requires Inv(s) && a != b && a in s.records && b in s.records && s.records[a].live && s.records[b].live
    requires s.records[a].owner == s.records[b].owner && s.records[a].names * s.records[b].names != {}
    requires o !in s.orders && Unused(s, newId) && !AlreadyReplaced(s, s.records[b].serial)
    ensures var account, names, keyType := s.records[a].owner, s.records[a].names, s.records[a].keyType;
            var ask := NewOrder(o, account, names, Some(Replacement(b, s.records[b].serial)));
            && Enabled(s, ask)
            && (var s1 := Next(s, ask);
                var finish := Finalize(o, keyType, Some(b), newId, Issued(names, keyType, serial, notAfter));
                && Enabled(s1, finish)
                && (var s2 := Next(s1, finish);
                    && s2.records[a] == s.records[a] && s2.records[b].live
                    && s2.records[b].owner == account && s2.records[b].names == names
                    && s2.records[b].keyType == keyType))
  {
    RecordIsCandidate(s, b);
    assert s.records[b].names * s.records[a].names == s.records[a].names * s.records[b].names;
  }

  // ---------- what is written over what ----------

  /** The record a finalize writes. */
  predicate WritesTo(step: Step, r: RecordId) {
    step.Finalize? && r == if step.prev.Some? then step.prev.value else step.newId
  }

  predicate Holds(record: Record, cert: Issued) {
    && record.names == cert.names && record.keyType == cert.keyType
    && record.serial == cert.serial && record.notAfter == cert.notAfter
  }

  /** Over every run, a record holds the certificate last issued to it, until it is deleted. */
  lemma {:induction false} HoldsLastIssued(states: seq<State>, steps: seq<Step>, i: nat, n: nat, r: RecordId)
    requires IsRun(states, steps) && i < n <= |steps| && WritesTo(steps[i], r) && r in states[n].records
    requires forall k :: i < k < n ==> !WritesTo(steps[k], r)
    ensures Holds(states[n].records[r], steps[i].cert)
    ensures steps[i].order in states[n].orders && states[n].orders[steps[i].order].valid
    ensures states[n].orders[steps[i].order].record == Some(r)
  {
    assert Takes(states[n - 1], steps[n - 1], states[n]);
    if n > i + 1 {
      HoldsLastIssued(states, steps, i, n - 1, r);
    }
  }

  /** A valid order is not touched again. */
  lemma {:induction false} ValidOrderStays(states: seq<State>, steps: seq<Step>, i: nat, n: nat, o: OrderId)
    requires IsRun(states, steps) && i <= n <= |steps| && o in states[i].orders && states[i].orders[o].valid
    ensures o in states[n].orders && states[n].orders[o] == states[i].orders[o]
  {
    if i < n {
      ValidOrderStays(states, steps, i, n - 1, o);
      assert Takes(states[n - 1], steps[n - 1], states[n]);
    }
  }

  /** Once an order that replaces a certificate has been issued, no later order is accepted that replaces it. */
  lemma NeverReplacedAgain(states: seq<State>, steps: seq<Step>, i: nat, n: nat, serial: nat)
    requires IsRun(states, steps) && i < n < |steps|
    requires steps[i].Finalize? && steps[i].order in states[i].orders
    requires states[i].orders[steps[i].order].replacing.Some?
    requires states[i].orders[steps[i].order].replacing.value.serial == serial
    requires steps[n].NewOrder? && steps[n].replacing.Some?
    ensures steps[n].replacing.value.serial != serial
  {
    assert Takes(states[i], steps[i], states[i + 1]);
    ValidOrderStays(states, steps, i + 1, n, steps[i].order);
    assert Takes(states[n], steps[n], states[n + 1]);
  }

  lemma OwnersOrder(s: State, r: RecordId)
    requires Inv(s) && r in s.records
    ensures forall account :: NamedBy(s, account, r) <==> account == s.records[r].owner
  {
    assert |Naming(s, r)| > 0;
    var o :| o in Naming(s, r);
    assert s.orders[o].account == s.records[r].owner;
  }

  /** An order that replaces it has been issued. */
  predicate Taken(s: State, serial: nat) {
    exists o :: && o in s.orders && s.orders[o].valid && s.orders[o].replacing.Some?
                && s.orders[o].replacing.value.serial == serial
  }

  /**
   Over every run, a new order is accepted exactly under an unused identifier and, where
   it is to replace a certificate, when a record of its own account holds that
   certificate now, they share a name, and no order that replaces it has been issued.
   */
  lemma AcceptedExactly(states: seq<State>, steps: seq<Step>, n: nat, o: OrderId, account: AccountId,
                        names: set<string>, replacing: Option<Replacement>)
    requires IsRun(states, steps) && n <= |steps|
    ensures Enabled(states[n], NewOrder(o, account, names, replacing)) <==>
              && o !in states[n].orders
              && (replacing.Some? ==>
                    var s, p := states[n], replacing.value;
                    && p.record in s.records && s.records[p.record].serial == p.serial
                    && s.records[p.record].owner == account
                    && (exists name :: name in names && name in s.records[p.record].names)
                    && !Taken(s, p.serial))
  {
    InvRun(states, steps, n);
    if replacing.Some? && replacing.value.record in states[n].records {
      var r := replacing.value.record;
      OwnersOrder(states[n], r);
      var shared := states[n].records[r].names * names;
      assert shared != {} <==> exists name :: name in shared;
      assert forall name :: name in shared <==> name in names && name in states[n].records[r].names;
    }
  }

  /** An account's first order ends in a record of its own, with the certificate it was issued. */
  lemma FirstOrderMakesRecord(o: OrderId, account: AccountId, names: set<string>, keyType: string, r: RecordId, cert: Issued)
    ensures var ask, finish := NewOrder(o, account, names, None), Finalize(o, keyType, None, r, cert);
            var s1 := Next(Initial(), ask);
            && Takes(Initial(), ask, s1) && Enabled(s1, finish)
            && Next(s1, finish).records == map[r := Fresh(account, cert)]
            && Holds(Fresh(account, cert), cert) && Fresh(account, cert).live && Fresh(account, cert).renewalCount == 0
  {
  }

  /** A record can be retired or deleted whenever it is there, and then is not live, or not there. */
  lemma RetiredOrDeleted(s: State, r: RecordId)
    requires r in s.records
    ensures Enabled(s, Retire(r)) && Enabled(s, Delete(r))
    ensures Next(s, Retire(r)) == State(s.orders, s.records[r := s.records[r].(live := false)])
    ensures r !in Next(s, Delete(r)).records && Next(s, Delete(r)).orders == s.orders
    ensures forall q :: q in s.records && q != r ==>
              q in Next(s, Delete(r)).records && Next(s, Delete(r)).records[q] == s.records[q]
  {
  }

  /** What the order says it replaces, while that is live and still the certificate meant. */
  predicate Stands(s: State, order: Order, r: RecordId) {
    && order.replacing.Some? && order.replacing.value.record == r && r in s.records && s.records[r].live
    && s.records[r].serial == order.replacing.value.serial
  }

  /** A live record of this account with the names ordered and this key type. */
  predicate SameAgain(s: State, order: Order, keyType: string, r: RecordId) {
    && r in s.records && s.records[r].live && s.records[r].owner == order.account
    && s.records[r].names == order.names && s.records[r].keyType == keyType
  }

  /**
   Over every run, what a finalize writes over is what its order replaces, if that
   stands; otherwise a live record of its own account for these names and this key
   type, none of which expires later; and a new record exactly when there is neither.
   */
  lemma WritesOverExactly(states: seq<State>, steps: seq<Step>, i: nat)
    requires IsRun(states, steps) && i < |steps| && steps[i].Finalize?
    ensures steps[i].order in states[i].orders
    ensures var s, order, keyType := states[i], states[i].orders[steps[i].order], steps[i].keyType;
            match steps[i].prev
            case None => forall r :: !Stands(s, order, r) && !SameAgain(s, order, keyType, r)
            case Some(p) =>
              || Stands(s, order, p)
              || ((forall r :: !Stands(s, order, r)) && SameAgain(s, order, keyType, p)
                  && forall r :: SameAgain(s, order, keyType, r) ==> s.records[r].notAfter <= s.records[p].notAfter)
  {
    InvRun(states, steps, i);
    assert Takes(states[i], steps[i], states[i + 1]);
    var s, order, keyType := states[i], states[i].orders[steps[i].order], steps[i].keyType;
    forall r ensures SameAgain(s, order, keyType, r) <==> Candidate(s, order.account, order.names, keyType, r) {
      if SameAgain(s, order, keyType, r) {
        RecordIsCandidate(s, r);
      }
    }
    assert forall r :: Stands(s, order, r) <==> Replaced(s, order) == Some(r);
  }

  // ---------- the search, as it runs ----------

  /**
   The account's orders, in any order, and the inventory: the record they renew.
   A later one is preferred only when it expires later.
   */
  method Renews(orders: seq<Order>, records: map<RecordId, Record>, names: set<string>, keyType: string)
    returns (found: Option<RecordId>)
    ensures found.None? ==> forall r :: !Matches(orders, records, names, keyType, r)
    ensures found.Some? ==>
              && Matches(orders, records, names, keyType, found.value)
              && forall r :: Matches(orders, records, names, keyType, r) ==>
                   records[r].notAfter <= records[found.value].notAfter
  {
    var seen: set<RecordId> := {};
    found := None;
    for i := 0 to |orders|
      invariant forall r :: r in seen <==> Listed(orders[..i], r)
      invariant found.None? ==> forall r :: r in seen ==> !Fits(records, names, keyType, r)
      invariant found.Some? ==>
                  && found.value in seen && Fits(records, names, keyType, found.value)
                  && forall r :: r in seen && Fits(records, names, keyType, r) ==>
                       records[r].notAfter <= records[found.value].notAfter
    {
      ListedStep(orders, i);
      if orders[i].record.None? || orders[i].record.value in seen {
        continue;
      }
      var r := orders[i].record.value;
      seen := seen + {r};
      if r !in records || !records[r].live || records[r].keyType != keyType || records[r].names != names {
        continue;
      }
      if found.None? || records[r].notAfter > records[found.value].notAfter {
        found := Some(r);
      }
    }
    assert orders[..|orders|] == orders;
  }

  predicate Listed(orders: seq<Order>, r: RecordId) {
    exists i :: 0 <= i < |orders| && orders[i].record == Some(r)
  }

  predicate Fits(records: map<RecordId, Record>, names: set<string>, keyType: string, r: RecordId) {
    r in records && records[r].live && records[r].keyType == keyType && records[r].names == names
  }

  predicate Matches(orders: seq<Order>, records: map<RecordId, Record>, names: set<string>, keyType: string, r: RecordId) {
    Listed(orders, r) && Fits(records, names, keyType, r)
  }

  lemma ListedStep(orders: seq<Order>, i: nat)
    requires i < |orders|
    ensures forall r :: Listed(orders[..i + 1], r) <==> Listed(orders[..i], r) || orders[i].record == Some(r)
  {
    forall r ensures Listed(orders[..i + 1], r) <==> Listed(orders[..i], r) || orders[i].record == Some(r) {
      if Listed(orders[..i], r) {
        var k :| 0 <= k < |orders[..i]| && orders[..i][k].record == Some(r);
        assert orders[..i + 1][k].record == Some(r);
      }
      if orders[i].record == Some(r) {
        assert orders[..i + 1][i].record == Some(r);
      }
      if Listed(orders[..i + 1], r) {
        var k :| 0 <= k < |orders[..i + 1]| && orders[..i + 1][k].record == Some(r);
        assert k < i ==> orders[..i][k].record == Some(r);
      }
    }
  }

  /** The account's orders, listed in any order: each, and nothing else. */
  predicate Lists(s: State, account: AccountId, orders: seq<Order>) {
    && (forall i :: 0 <= i < |orders| ==> orders[i].account == account && exists o :: o in s.orders && s.orders[o] == orders[i])
    && (forall o :: o in s.orders && s.orders[o].account == account ==> s.orders[o] in orders)
  }

  /** What the search returns is what finalize may pick. */
  lemma SearchPicks(s: State, order: Order, orders: seq<Order>, keyType: string)
    requires Lists(s, order.account, orders) && Replaced(s, order).None?
    ensures forall r :: Matches(orders, s.records, order.names, keyType, r)
                        <==> Candidate(s, order.account, order.names, keyType, r)
  {
    forall r ensures Listed(orders, r) <==> NamedBy(s, order.account, r) {
      if Listed(orders, r) {
        var i :| 0 <= i < |orders| && orders[i].record == Some(r);
        var o :| o in s.orders && s.orders[o] == orders[i];
      }
      if NamedBy(s, order.account, r) {
        var o :| o in s.orders && s.orders[o].account == order.account && s.orders[o].record == Some(r);
        var i :| 0 <= i < |orders| && orders[i] == s.orders[o];
      }
    }
  }

  class Inventory {
    var acmeOrders: map<OrderId, Order>
    var certificates: map<RecordId, Record>

    ghost function View(): State
      reads this
    {
      State(acmeOrders, certificates)
    }

    constructor ()
      ensures View() == Initial()
    {
      acmeOrders, certificates := map[], map[];
    }

    /**
     The part of finalize after the claim: find what is renewed, write the
     certificate over it or as a new record, and make the order valid.
     */
    method Issue(o: OrderId, listed: seq<Order>, keyType: string, newId: RecordId, cert: Issued)
      returns (ghost prev: Option<RecordId>)
      requires o in acmeOrders && !acmeOrders[o].valid && Unused(View(), newId)
      requires Lists(View(), acmeOrders[o].account, listed)
      modifies this
      ensures Takes(old(View()), Finalize(o, keyType, prev, newId, cert), View())
    {
      var order := acmeOrders[o];
      var found: Option<RecordId> := None;
      if order.replacing.Some? && order.replacing.value.record in certificates {
        var r := order.replacing.value.record;
        if certificates[r].live && certificates[r].serial == order.replacing.value.serial {
          found := Some(r);
        }
      }
      if found.None? {
        SearchPicks(View(), order, listed, keyType);
        found := Renews(listed, certificates, order.names, keyType);
      }
      prev := found;
      assert Enabled(View(), Finalize(o, keyType, prev, newId, cert));
      if found.Some? {
        var record := certificates[found.value];
        record := record.(names := cert.names, keyType := cert.keyType, serial := cert.serial, notAfter := cert.notAfter);
        record := record.(live := true, renewalCount := record.renewalCount + 1);
        certificates := certificates[found.value := record];
        acmeOrders := acmeOrders[o := order.(valid := true, record := found)];
      } else {
        certificates := certificates[newId := Fresh(order.account, cert)];
        acmeOrders := acmeOrders[o := order.(valid := true, record := Some(newId))];
      }
    }
  }
}
