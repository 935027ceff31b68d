/**
 ACME accounts and the credentials that make them (RFC 8555 sections 7.3.4 and
 7.3.5). Uniqueness is proved for any sequence of store calls, so for any
 interleaving of handlers; the life of an account for handlers that are atomic.
 */
module Accounts {
  import opened Prelude

  type Id = string

  datatype Status = Valid | Deactivated

  datatype Credential = Credential(kid: string, template: Id, revoked: bool)

  datatype Account = Account(template: Id, eab: Id, thumbprint: string, status: Status, contacts: seq<string>)

  datatype Registry = Registry(credentials: map<Id, Credential>, accounts: map<Id, Account>)

  datatype Error = NotFound | Revoked | Conflict

  function Empty(): Registry {
    Registry(map[], map[])
  }

  // ---------- store calls ----------

  predicate Clashes(a: Account, template: Id, eab: Id, thumbprint: string) {
    a.eab == eab || (a.template == template && a.thumbprint == thumbprint)
  }

  predicate AnyClash(r: Registry, template: Id, eab: Id, thumbprint: string) {
    exists i :: i in r.accounts && Clashes(r.accounts[i], template, eab, thumbprint)
  }

  predicate KeyTaken(r: Registry, id: Id, thumbprint: string)
    requires id in r.accounts
  {
    exists i :: i in r.accounts && i != id
                && r.accounts[i].template == r.accounts[id].template && r.accounts[i].thumbprint == thumbprint
  }

  /** Every valid account of the credential, deactivated. */
  function DeactivateFor(accounts: map<Id, Account>, eab: Id): map<Id, Account> {
    map i | i in accounts :: if accounts[i].eab == eab then accounts[i].(status := Deactivated) else accounts[i]
  }

  datatype Call =
    | CreateCredential(id: Id, kid: string, template: Id)
    | Revoke(credential: Id)
    | CreateAccount(id: Id, account: Account)
    | UpdateAccount(id: Id, status: Status, contacts: seq<string>)
    | UpdateKey(id: Id, thumbprint: string)

  /** What one store call leaves. A refused call leaves everything as it was. */
  function Apply(r: Registry, call: Call): Registry {
    match call
    case CreateCredential(id, kid, template) =>
      if id in r.credentials || (exists c :: c in r.credentials && r.credentials[c].kid == kid) then r
      else r.(credentials := r.credentials[id := Credential(kid, template, false)])
    case Revoke(c) =>
      if c !in r.credentials then r
      else Registry(r.credentials[c := r.credentials[c].(revoked := true)], DeactivateFor(r.accounts, c))
    case CreateAccount(id, a) =>
      if id in r.accounts || a.eab !in r.credentials || r.credentials[a.eab].revoked
         || AnyClash(r, a.template, a.eab, a.thumbprint) then r
      else r.(accounts := r.accounts[id := a.(status := Valid)])
    case UpdateAccount(id, status, contacts) =>
      if id !in r.accounts then r
      else r.(accounts := r.accounts[id := r.accounts[id].(status := status, contacts := contacts)])
    case UpdateKey(id, thumbprint) =>
      if id !in r.accounts || KeyTaken(r, id, thumbprint) then r
      else r.(accounts := r.accounts[id := r.accounts[id].(thumbprint := thumbprint)])
  }

  function ApplyAll(r: Registry, calls: seq<Call>): Registry
    decreases |calls|
  {
    if calls == [] then r else Apply(ApplyAll(r, calls[..|calls| - 1]), calls[|calls| - 1])
  }

  /** One account per credential, one per template and key, and one credential per key identifier. */
  ghost predicate Unique(r: Registry) {
    && (forall i, j :: i in r.accounts && j in r.accounts && i != j ==>
          && r.accounts[i].eab != r.accounts[j].eab
          && (r.accounts[i].template == r.accounts[j].template ==> r.accounts[i].thumbprint != r.accounts[j].thumbprint))
    && (forall c, d :: c in r.credentials && d in r.credentials && c != d ==>
          r.credentials[c].kid != r.credentials[d].kid)
  }

  lemma UniqueApply(r: Registry, call: Call)
    requires Unique(r)
    ensures Unique(Apply(r, call))
  {
  }

  /** Whatever calls the handlers make, in whatever order, rollover included. */
  lemma {:induction false} AccountsUnique(calls: seq<Call>)
    ensures Unique(ApplyAll(Empty(), calls))
  {
    if calls != [] {
      AccountsUnique(calls[..|calls| - 1]);
      UniqueApply(ApplyAll(Empty(), calls[..|calls| - 1]), calls[|calls| - 1]);
    }
  }

  /** The credential's one account is every account of it. */
  lemma DeactivatesAll(r: Registry, c: Id, i: Id)
    requires Unique(r) && i in r.accounts && r.accounts[i].eab == c
    ensures DeactivateFor(r.accounts, c) == r.accounts[i := r.accounts[i].(status := Deactivated)]
  {
  }

  lemma DeactivatesNone(accounts: map<Id, Account>, c: Id)
    requires forall i :: i in accounts ==> !(accounts[i].eab == c && accounts[i].status == Valid)
    ensures DeactivateFor(accounts, c) == accounts
  {
  }

  // ---------- the store ----------

  class AccountStore {
    var acmeCredentials: map<Id, Credential>
    var acmeAccounts: map<Id, Account>

    ghost function View(): Registry
      reads this
    {
      Registry(acmeCredentials, acmeAccounts)
    }

    constructor ()
      ensures View() == Empty()
    {
      acmeCredentials, acmeAccounts := map[], map[];
    }

    /**
     The loop stops at the first valid account it finds for the credential,
     which is every one there is.
     */
    method RevokeACMEEABCredential(id: Id) returns (r: Option<Id>, found: bool)
      requires Unique(View())
      modifies this
      ensures View() == Apply(old(View()), Call.Revoke(id)) && Unique(View())
      ensures found <==> id in old(acmeCredentials)
      ensures r.Some? ==> r.value in acmeAccounts && acmeAccounts[r.value].eab == id
                          && old(acmeAccounts)[r.value].status == Valid && acmeAccounts[r.value].status == Deactivated
      ensures found && r.None? ==> acmeAccounts == old(acmeAccounts)
    {
      UniqueApply(View(), Call.Revoke(id));
      if id !in acmeCredentials {
        return None, false;
      }
      acmeCredentials := acmeCredentials[id := acmeCredentials[id].(revoked := true)];
      r := ValidAccountOf(id);
      if r.Some? {
        DeactivatesAll(old(View()), id, r.value);
        acmeAccounts := acmeAccounts[r.value := acmeAccounts[r.value].(status := Deactivated)];
      } else {
        DeactivatesNone(acmeAccounts, id);
      }
      return r, true;
    }

    method ValidAccountOf(id: Id) returns (r: Option<Id>)
      ensures r.Some? ==> r.value in acmeAccounts && acmeAccounts[r.value].eab == id && acmeAccounts[r.value].status == Valid
      ensures r.None? ==> forall i :: i in acmeAccounts ==> !(acmeAccounts[i].eab == id && acmeAccounts[i].status == Valid)
    {
      var todo := acmeAccounts.Keys;
      while todo != {}
        invariant todo <= acmeAccounts.Keys
        invariant forall i :: i in acmeAccounts && i !in todo ==>
                    !(acmeAccounts[i].eab == id && acmeAccounts[i].status == Valid)
        decreases todo
      {
        var i :| i in todo;
        todo := todo - {i};
        if acmeAccounts[i].eab == id && acmeAccounts[i].status == Valid {
          return Some(i);
        }
      }
      return None;
    }

    method CreateACMEAccount(id: Id, a: Account) returns (refused: Option<Error>)
      requires Unique(View()) && id !in acmeAccounts
      modifies this
      ensures View() == Apply(old(View()), CreateAccount(id, a)) && Unique(View())
      ensures acmeAccounts == if refused.None? then old(acmeAccounts)[id := a.(status := Valid)] else old(acmeAccounts)
      ensures refused == if a.eab !in acmeCredentials then Some(NotFound)
                         else if acmeCredentials[a.eab].revoked then Some(Error.Revoked)
                         else if AnyClash(old(View()), a.template, a.eab, a.thumbprint) then Some(Conflict)
                         else None
    {
      UniqueApply(View(), CreateAccount(id, a));
      if a.eab !in acmeCredentials {
        return Some(NotFound);
      }
      if acmeCredentials[a.eab].revoked {
        return Some(Error.Revoked);
      }
      var todo := acmeAccounts.Keys;
      while todo != {}
        invariant todo <= acmeAccounts.Keys
        invariant forall i :: i in acmeAccounts && i !in todo ==>
                    !Clashes(acmeAccounts[i], a.template, a.eab, a.thumbprint)
        decreases todo
      {
        var i :| i in todo;
        todo := todo - {i};
        if acmeAccounts[i].eab == a.eab
           || (acmeAccounts[i].template == a.template && acmeAccounts[i].thumbprint == a.thumbprint) {
          assert Clashes(acmeAccounts[i], a.template, a.eab, a.thumbprint);
          return Some(Conflict);
        }
      }
      acmeAccounts := acmeAccounts[id := a.(status := Valid)];
      return None;
    }

    method UpdateACMEAccountKey(id: Id, thumbprint: string) returns (refused: Option<Error>)
      requires Unique(View())
      modifies this
      ensures View() == Apply(old(View()), UpdateKey(id, thumbprint)) && Unique(View())
      ensures refused == if id !in old(acmeAccounts) then Some(NotFound)
                         else if exists i :: && i in old(acmeAccounts) && i != id && old(acmeAccounts)[i].thumbprint == thumbprint
                                             && old(acmeAccounts)[i].template == old(acmeAccounts)[id].template
                           then Some(Conflict)
                         else None
    {
      UniqueApply(View(), UpdateKey(id, thumbprint));
      if id !in acmeAccounts {
        return Some(NotFound);
      }
      var todo := acmeAccounts.Keys;
      while todo != {}
        invariant todo <= acmeAccounts.Keys
        invariant forall i :: i in acmeAccounts && i !in todo ==>
                    !(i != id && acmeAccounts[i].template == acmeAccounts[id].template
                      && acmeAccounts[i].thumbprint == thumbprint)
        decreases todo
      {
        var i :| i in todo;
        todo := todo - {i};
        if i != id && acmeAccounts[i].template == acmeAccounts[id].template
           && acmeAccounts[i].thumbprint == thumbprint {
          return Some(Conflict);
        }
      }
      acmeAccounts := acmeAccounts[id := acmeAccounts[id].(thumbprint := thumbprint)];
      return None;
    }

    method UpdateACMEAccount(id: Id, status: Status, contacts: seq<string>) returns (refused: Option<Error>)
      modifies this
      ensures View() == Apply(old(View()), UpdateAccount(id, status, contacts))
      ensures refused == if id in old(acmeAccounts) then None else Some(NotFound)
    {
      if id !in acmeAccounts {
        return Some(NotFound);
      }
      acmeAccounts := acmeAccounts[id := acmeAccounts[id].(status := status, contacts := contacts)];
      return None;
    }

    /** Map order does not matter: there is at most one to find. */
    method GetACMEAccountByThumbprint(template: Id, thumbprint: string) returns (found: Option<Id>)
      requires Unique(View())
      ensures forall i :: (i in acmeAccounts && acmeAccounts[i].template == template
                           && acmeAccounts[i].thumbprint == thumbprint) <==> found == Some(i)
    {
      var todo := acmeAccounts.Keys;
      while todo != {}
        invariant todo <= acmeAccounts.Keys
        invariant forall i :: i in acmeAccounts && i !in todo ==>
                    !(acmeAccounts[i].template == template && acmeAccounts[i].thumbprint == thumbprint)
        decreases todo
      {
        var i :| i in todo;
        todo := todo - {i};
        if acmeAccounts[i].template == template && acmeAccounts[i].thumbprint == thumbprint {
          return Some(i);
        }
      }
      return None;
    }
  }

  // ---------- handlers ----------

  /**
   The requests. newId is the identifier the store would generate; binding is the
   credential the external account binding names, and accepted whether it verifies
   for this URL and this key.
   */
  datatype Request =
    | AddCredential(newId: Id, kid: string, template: Id)
    | RevokeCredential(credential: Id)
    | NewAccount(newId: Id, template: Id, thumbprint: string, onlyExisting: bool,
                 binding: Option<string>, accepted: bool, contacts: seq<string>)
    | PostAccount(account: Id, newContacts: Option<seq<string>>, status: string)
    | KeyChange(account: Id, thumbprint: string)

  predicate ContactsOk(contacts: seq<string>) {
    |contacts| <= 10 &&
    forall i :: 0 <= i < |contacts| ==> "mailto:" <= contacts[i] && 7 < |contacts[i]| <= 255
  }

  /** cleanContacts: mailto addresses only, kept as they are. */
  method CleanContacts(input: seq<string>) returns (out: seq<string>, ok: bool)
    ensures ok <==> |input| <= 10 && forall i :: 0 <= i < |input| ==> "mailto:" <= input[i] && 8 <= |input[i]| <= 255
    ensures ok <==> ContactsOk(input)
    ensures ok ==> out == input
  {
    if |input| > 10 {
      return [], false;
    }
    out := [];
    for i := 0 to |input|
      invariant out == input[..i]
      invariant forall k :: 0 <= k < i ==> "mailto:" <= input[k] && 7 < |input[k]| <= 255
    {
      if !("mailto:" <= input[i]) || |input[i]| > 255 || |input[i]| == 7 {
        return [], false;
      }
      out := out + [input[i]];
    }
    return out, true;
  }

  predicate Usable(r: Registry, c: Id, template: Id)
    requires c in r.credentials
  {
    && r.credentials[c].template == template && !r.credentials[c].revoked
    && forall i :: i in r.accounts ==> r.accounts[i].eab != c
  }

  predicate HasKey(r: Registry, template: Id, thumbprint: string) {
    exists i :: i in r.accounts && r.accounts[i].template == template && r.accounts[i].thumbprint == thumbprint
  }

  /** The store call a request ends in, if any, when it is handled in one step. */
  function CallOf(r: Registry, q: Request): Option<Call> {
    match q
    case AddCredential(id, kid, template) => Some(CreateCredential(id, kid, template))
    case RevokeCredential(c) => Some(Call.Revoke(c))
    case NewAccount(id, template, thumb, only, binding, accepted, contacts) =>
      if HasKey(r, template, thumb) || only || binding.None? || !ContactsOk(contacts) || !accepted
         || binding.value !in r.credentials || !Usable(r, binding.value, template) then None
      else Some(CreateAccount(id, Account(template, binding.value, thumb, Valid, contacts)))
    case PostAccount(id, contacts, status) =>
      if id !in r.accounts || r.accounts[id].status != Valid then None
      else if contacts.Some? && !ContactsOk(contacts.value) then None
      else if status != "" && status != "deactivated" then None
      else if contacts.None? && status == "" then None
      else Some(UpdateAccount(id, if status == "" then Valid else Deactivated,
                              if contacts.Some? then contacts.value else r.accounts[id].contacts))
    case KeyChange(id, thumb) =>
      if id !in r.accounts || r.accounts[id].status != Valid || r.accounts[id].thumbprint == thumb
         || HasKey(r, r.accounts[id].template, thumb) then None
      else Some(UpdateKey(id, thumb))
  }

  function Handle(r: Registry, q: Request): Registry {
    var call := CallOf(r, q);
    if call.None? then r else Apply(r, call.value)
  }

  function HandleAll(r: Registry, qs: seq<Request>): Registry
    decreases |qs|
  {
    if qs == [] then r else Handle(HandleAll(r, qs[..|qs| - 1]), qs[|qs| - 1])
  }

  /** A revoked credential has no valid account, and every account has its credential. */
  ghost predicate Ended(r: Registry) {
    forall i :: i in r.accounts ==>
      && r.accounts[i].eab in r.credentials
      && (r.credentials[r.accounts[i].eab].revoked ==> r.accounts[i].status == Deactivated)
      && r.credentials[r.accounts[i].eab].template == r.accounts[i].template
  }

  /** What no request undoes. */
  ghost predicate Later(r: Registry, s: Registry) {
    && (forall i :: i in r.accounts ==>
          && i in s.accounts
          && (r.accounts[i].status == Deactivated ==> s.accounts[i].status == Deactivated)
          && s.accounts[i].eab == r.accounts[i].eab && s.accounts[i].template == r.accounts[i].template)
    && (forall c :: c in r.credentials ==>
          c in s.credentials && (r.credentials[c].revoked ==> s.credentials[c].revoked))
  }

  lemma AddCredentialStep(r: Registry, q: Request)
    requires Ended(r) && q.AddCredential?
    ensures Ended(Handle(r, q)) && Later(r, Handle(r, q))
  {
    assert Handle(r, q).accounts == r.accounts;
  }

  lemma RevokeCredentialStep(r: Registry, q: Request)
    requires Ended(r) && q.RevokeCredential?
    ensures Ended(Handle(r, q)) && Later(r, Handle(r, q))
  {
    var s := Handle(r, q);
    assert s.accounts.Keys == r.accounts.Keys && s.credentials.Keys == r.credentials.Keys;
    forall i | i in r.accounts
      ensures s.accounts[i].eab == r.accounts[i].eab && s.accounts[i].template == r.accounts[i].template
              && s.accounts[i].status in {r.accounts[i].status, Deactivated}
    {
    }
  }

  lemma NewAccountStep(r: Registry, q: Request)
    requires Ended(r) && q.NewAccount?
    ensures Ended(Handle(r, q)) && Later(r, Handle(r, q))
  {
  }

  lemma PostAccountStep(r: Registry, q: Request)
    requires Ended(r) && q.PostAccount?
    ensures Ended(Handle(r, q)) && Later(r, Handle(r, q))
  {
    var s := Handle(r, q);
    assert s.credentials == r.credentials && s.accounts.Keys == r.accounts.Keys;
    assert q.account in r.accounts && r.accounts[q.account].status == Deactivated ==> s == r;
  }

  lemma KeyChangeStep(r: Registry, q: Request)
    requires Ended(r) && q.KeyChange?
    ensures Ended(Handle(r, q)) && Later(r, Handle(r, q))
  {
    var s := Handle(r, q);
    assert s.credentials == r.credentials && s.accounts.Keys == r.accounts.Keys;
    forall i | i in r.accounts
      ensures s.accounts[i].status == r.accounts[i].status && s.accounts[i].eab == r.accounts[i].eab
              && s.accounts[i].template == r.accounts[i].template
    {
    }
  }

  lemma HandleStep(r: Registry, q: Request)
    requires Unique(r) && Ended(r)
    ensures Unique(Handle(r, q)) && Ended(Handle(r, q)) && Later(r, Handle(r, q))
  {
    if CallOf(r, q).Some? {
      UniqueApply(r, CallOf(r, q).value);
    }
    match q
    case NewAccount(_, _, _, _, _, _, _) => NewAccountStep(r, q);
    case PostAccount(_, _, _) => PostAccountStep(r, q);
    case KeyChange(_, _) => KeyChangeStep(r, q);
    case AddCredential(_, _, _) => AddCredentialStep(r, q);
    case RevokeCredential(_) => RevokeCredentialStep(r, q);
  }

  lemma {:induction false} HandleRun(r: Registry, qs: seq<Request>)
    requires Unique(r) && Ended(r)
    ensures Unique(HandleAll(r, qs)) && Ended(HandleAll(r, qs)) && Later(r, HandleAll(r, qs))
  {
    if qs != [] {
      HandleRun(r, qs[..|qs| - 1]);
      HandleStep(HandleAll(r, qs[..|qs| - 1]), qs[|qs| - 1]);
    }
  }

  /**
   With atomic handlers: in every reachable state a revoked credential has no
   valid account, and from there on nothing brings back a deactivated account or
   takes back a revocation.
   */
  lemma AccountLife(before: seq<Request>, after: seq<Request>)
    ensures var r := HandleAll(Empty(), before);
            && Unique(r) && Ended(r)
            && Later(r, HandleAll(r, after))
  {
    HandleRun(Empty(), before);
    HandleRun(HandleAll(Empty(), before), after);
  }

  /**
   Atomicity is needed: an account update read before a revocation and written
   after it brings the account back, whatever the registry.
   */
  lemma StaleUpdateRevives(r: Registry, id: Id, contacts: seq<string>)
    requires id in r.accounts && r.accounts[id].status == Valid && r.accounts[id].eab in r.credentials
    requires ContactsOk(contacts)
    ensures CallOf(r, PostAccount(id, Some(contacts), "")) == Some(UpdateAccount(id, Valid, contacts))
    ensures var s := Apply(Apply(r, Call.Revoke(r.accounts[id].eab)), UpdateAccount(id, Valid, contacts));
            s.credentials[s.accounts[id].eab].revoked && s.accounts[id].status == Valid
  {
  }

  // ---------- exactly when ----------

  /** Every account has its credential, and no valid account has a revoked one. */
  ghost predicate NoneRevived(r: Registry) {
    forall i :: i in r.accounts ==>
      && r.accounts[i].eab in r.credentials
      && (r.credentials[r.accounts[i].eab].revoked ==> r.accounts[i].status == Deactivated)
  }

  /** An update that writes valid over an account whose credential is revoked by now. */
  predicate Revives(r: Registry, call: Call) {
    && call.UpdateAccount? && call.status == Valid && call.id in r.accounts
    && r.accounts[call.id].eab in r.credentials && r.credentials[r.accounts[call.id].eab].revoked
  }

  lemma RevivesStep(r: Registry, call: Call)
    requires NoneRevived(r)
    ensures NoneRevived(Apply(r, call)) <==> !Revives(r, call)
  {
    var s := Apply(r, call);
    if Revives(r, call) {
      assert s.accounts[call.id].status == Valid;
    } else {
      forall i | i in s.accounts
        ensures s.accounts[i].eab in s.credentials
                && (s.credentials[s.accounts[i].eab].revoked ==> s.accounts[i].status == Deactivated)
      {
        assert i in r.accounts ==> s.accounts[i].eab == r.accounts[i].eab;
      }
    }
  }

  function After(calls: seq<Call>, n: nat): Registry
    requires n <= |calls|
  {
    ApplyAll(Empty(), calls[..n])
  }

  ghost predicate CleanAt(calls: seq<Call>, i: nat) {
    i <= |calls| && NoneRevived(After(calls, i))
  }

  predicate RevivesAt(calls: seq<Call>, i: nat) {
    i < |calls| && Revives(After(calls, i), calls[i])
  }

  lemma CleanStep(calls: seq<Call>, i: nat)
    requires i < |calls| && CleanAt(calls, i)
    ensures CleanAt(calls, i + 1) <==> !RevivesAt(calls, i)
  {
    assert calls[..i + 1][..i] == calls[..i];
    assert After(calls, i + 1) == Apply(After(calls, i), calls[i]);
    RevivesStep(After(calls, i), calls[i]);
  }

  /**
   Over any store calls in any order: a revoked credential never has a valid account
   if and only if no update writes valid over an account whose credential is revoked.
   */
  lemma {:induction false} RevivedExactly(calls: seq<Call>, n: nat)
    requires n <= |calls|
    ensures (forall i: nat :: i <= n ==> CleanAt(calls, i)) <==> (forall i: nat :: i < n ==> !RevivesAt(calls, i))
  {
    if n == 0 {
      assert CleanAt(calls, 0);
    } else {
      RevivedExactly(calls, n - 1);
      if CleanAt(calls, n - 1) {
        CleanStep(calls, n - 1);
      }
    }
  }

  /** An update that writes valid over an account deactivated by now, whatever its credential. */
  predicate Reactivates(r: Registry, call: Call) {
    call.UpdateAccount? && call.status == Valid && call.id in r.accounts && r.accounts[call.id].status == Deactivated
  }

  /** No account deactivated in r is anything else in s. */
  predicate StaysDeactivated(r: Registry, s: Registry) {
    forall i :: i in r.accounts && r.accounts[i].status == Deactivated ==>
      i in s.accounts && s.accounts[i].status == Deactivated
  }

  lemma ReactivatesStep(r: Registry, call: Call)
    ensures StaysDeactivated(r, Apply(r, call)) <==> !Reactivates(r, call)
  {
  }

  ghost predicate ReactivatesAt(calls: seq<Call>, i: nat) {
    i < |calls| && Reactivates(After(calls, i), calls[i])
  }

  ghost predicate NoneReactivated(calls: seq<Call>, i: nat, j: nat) {
    i <= j <= |calls| && StaysDeactivated(After(calls, i), After(calls, j))
  }

  ghost predicate StaysAt(calls: seq<Call>, k: nat) {
    k < |calls| && NoneReactivated(calls, k, k + 1)
  }

  lemma NextStays(calls: seq<Call>, k: nat)
    requires k < |calls|
    ensures StaysAt(calls, k) <==> !ReactivatesAt(calls, k)
  {
    assert calls[..k + 1][..k] == calls[..k];
    assert After(calls, k + 1) == Apply(After(calls, k), calls[k]);
    ReactivatesStep(After(calls, k), calls[k]);
  }

  lemma StaysTransitive(r: Registry, s: Registry, t: Registry)
    requires StaysDeactivated(r, s) && StaysDeactivated(s, t)
    ensures StaysDeactivated(r, t)
  {
  }

  lemma {:induction false} StaysUntil(calls: seq<Call>, i: nat, j: nat)
    requires i <= j <= |calls| && forall k: nat :: k < |calls| ==> StaysAt(calls, k)
    ensures NoneReactivated(calls, i, j)
  {
    if i < j {
      StaysUntil(calls, i, j - 1);
      assert StaysAt(calls, j - 1);
      StaysTransitive(After(calls, i), After(calls, j - 1), After(calls, j));
    }
  }

  /**
   The other half: over any store calls, no account deactivated at one point is valid
   at a later one if and only if no update writes valid over a deactivated account.
   A credential that still stands does not help: an update read before the client
   deactivated, and written after it, is enough.
   */
  lemma ReactivatedExactly(calls: seq<Call>)
    ensures (forall i: nat, j: nat :: i <= j <= |calls| ==> NoneReactivated(calls, i, j))
            <==> (forall k: nat :: k < |calls| ==> !ReactivatesAt(calls, k))
  {
    forall k: nat | k < |calls| ensures StaysAt(calls, k) <==> !ReactivatesAt(calls, k) {
      NextStays(calls, k);
    }
    if forall k: nat :: k < |calls| ==> !ReactivatesAt(calls, k) {
      forall i: nat, j: nat | i <= j <= |calls| ensures NoneReactivated(calls, i, j) {
        StaysUntil(calls, i, j);
      }
    }
  }

  // ---------- what each request does ----------

  /** Account id alone differs, and it in these two things. */
  predicate Updated(r: Registry, s: Registry, id: Id, status: Status, contacts: seq<string>)
    requires id in r.accounts
  {
    && s.credentials == r.credentials && s.accounts.Keys == r.accounts.Keys
    && s.accounts[id] == r.accounts[id].(status := status, contacts := contacts)
    && forall i :: i in r.accounts && i != id ==> s.accounts[i] == r.accounts[i]
  }

  /** What a post to an account does, for every state of it and every payload. */
  lemma PostAccountExactly(r: Registry, id: Id, contacts: Option<seq<string>>, status: string)
    ensures var s := Handle(r, PostAccount(id, contacts, status));
            var open := id in r.accounts && r.accounts[id].status == Valid;
            var kept := contacts.None? || ContactsOk(contacts.value);
            if open && kept && status == "deactivated" then
              Updated(r, s, id, Deactivated, if contacts.None? then r.accounts[id].contacts else contacts.value)
            else if open && kept && status == "" && contacts.Some? then Updated(r, s, id, Valid, contacts.value)
            else s == r
  {
  }

  /**
   A client's deactivation takes effect and lasts: in any reachable state it ends the
   account, keeps its contacts or takes the new ones, touches no other account, and
   whatever is asked afterwards the account is deactivated.
   */
  lemma DeactivationLasts(before: seq<Request>, id: Id, contacts: Option<seq<string>>, after: seq<Request>)
    requires var r := HandleAll(Empty(), before); id in r.accounts && r.accounts[id].status == Valid
    requires contacts.Some? ==> ContactsOk(contacts.value)
    ensures var r := HandleAll(Empty(), before);
            var s := Handle(r, PostAccount(id, contacts, "deactivated"));
            && Updated(r, s, id, Deactivated, if contacts.None? then r.accounts[id].contacts else contacts.value)
            && id in HandleAll(s, after).accounts && HandleAll(s, after).accounts[id].status == Deactivated
  {
    var r := HandleAll(Empty(), before);
    var q := PostAccount(id, contacts, "deactivated");
    PostAccountExactly(r, id, contacts, "deactivated");
    HandleRun(Empty(), before);
    HandleStep(r, q);
    HandleRun(Handle(r, q), after);
  }

  /**
   A revocation takes effect and lasts: the credential is revoked, its account is
   deactivated and no other is touched, and whatever is asked afterwards no account
   of it is valid.
   */
  lemma RevocationLasts(before: seq<Request>, c: Id, after: seq<Request>)
    requires c in HandleAll(Empty(), before).credentials
    ensures var r := HandleAll(Empty(), before);
            var s := Handle(r, RevokeCredential(c));
            && s.accounts.Keys == r.accounts.Keys
            && (forall i :: i in r.accounts ==>
                  s.accounts[i] == if r.accounts[i].eab == c then r.accounts[i].(status := Deactivated) else r.accounts[i])
            && (forall d :: d in r.credentials && d != c ==> d in s.credentials && s.credentials[d] == r.credentials[d])
            && (var t := HandleAll(s, after);
                && c in t.credentials && t.credentials[c].revoked
                && forall i :: i in t.accounts && t.accounts[i].eab == c ==> t.accounts[i].status == Deactivated)
  {
    var r := HandleAll(Empty(), before);
    var s := Handle(r, RevokeCredential(c));
    assert s.accounts.Keys == r.accounts.Keys;
    HandleRun(Empty(), before);
    HandleStep(r, RevokeCredential(c));
    HandleRun(s, after);
    assert s.credentials[c].revoked;
  }

  /** What a registration has to show. */
  predicate MayRegister(r: Registry, q: Request)
    requires q.NewAccount?
  {
    && !q.onlyExisting && q.accepted && ContactsOk(q.contacts)
    && q.binding.Some? && q.binding.value in r.credentials
    && !r.credentials[q.binding.value].revoked && r.credentials[q.binding.value].template == q.template
    && (forall i :: i in r.accounts ==> r.accounts[i].eab != q.binding.value)
    && (forall i :: i in r.accounts ==> !(r.accounts[i].template == q.template && r.accounts[i].thumbprint == q.thumbprint))
  }

  /**
   An account comes into being exactly by a registration with an accepted binding to
   an unrevoked, unused credential of its template and a key nobody has there; it is
   what was asked for, valid, and changes nothing else.
   */
  lemma RegisteredExactly(r: Registry, q: Request, id: Id)
    requires Unique(r) && Ended(r) && id !in r.accounts
    ensures id in Handle(r, q).accounts <==> q.NewAccount? && q.newId == id && MayRegister(r, q)
    ensures q.NewAccount? && q.newId == id && MayRegister(r, q) ==>
              Handle(r, q) == Registry(r.credentials,
                r.accounts[id := Account(q.template, q.binding.value, q.thumbprint, Valid, q.contacts)])
  {
  }

  /** A key is rolled over exactly to one that is new to the account and nobody has under its template. */
  lemma RolledOverExactly(r: Registry, id: Id, thumbprint: string)
    ensures var s := Handle(r, KeyChange(id, thumbprint));
            if && id in r.accounts && r.accounts[id].status == Valid
               && forall i :: i in r.accounts ==>
                    !(r.accounts[i].template == r.accounts[id].template && r.accounts[i].thumbprint == thumbprint)
            then s == Registry(r.credentials, r.accounts[id := r.accounts[id].(thumbprint := thumbprint)])
            else s == r
  {
  }

  /** A credential is handed out once: unrevoked, under an unused identifier and key identifier. */
  lemma HandedOutExactly(r: Registry, id: Id, kid: string, template: Id)
    ensures var s := Handle(r, AddCredential(id, kid, template));
            if id !in r.credentials && forall c :: c in r.credentials ==> r.credentials[c].kid != kid
            then s == Registry(r.credentials[id := Credential(kid, template, false)], r.accounts)
            else s == r
  {
  }
}
