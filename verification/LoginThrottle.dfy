/** Password sign-in and its lockout, as the in-memory store keeps them. */
module LoginThrottle {
  import opened Prelude

  const MAX_FAILED_LOGINS: int := 8
  /** Fifteen minutes, in nanoseconds. */
  const LOCKOUT_WINDOW: int := 900_000_000_000

  type User = string

  datatype LoginState = LoginState(failed: nat, lockedUntil: Option<int>)

  datatype Outcome = NoSuchAccount | LockedOut | Suspended | NoPasswordSet | WrongPassword | SignedIn

  /**
   What the rest of the system answers during one attempt: whether the address
   has an account, whether it is active, has a password, and whether this is it.
   */
  datatype Account = Account(known: bool, active: bool, hasPassword: bool, matches: bool)

  function StateOf(m: map<User, LoginState>, u: User): LoginState {
    if u in m then m[u] else LoginState(0, None)
  }

  function Decide(s: LoginState, a: Account, now: int): Outcome {
    if !a.known then NoSuchAccount
    else if s.lockedUntil.Some? && now < s.lockedUntil.value then LockedOut
    else if !a.active then Suspended
    else if !a.hasPassword then NoPasswordSet
    else if !a.matches then WrongPassword
    else SignedIn
  }

  function After(s: LoginState, o: Outcome, now: int): LoginState {
    match o
    case WrongPassword =>
      LoginState(s.failed + 1,
                 if s.failed + 1 >= MAX_FAILED_LOGINS then Some(now + LOCKOUT_WINDOW) else s.lockedUntil)
    case SignedIn => LoginState(0, None)
    case _ => s
  }

  class LoginStore {
    var loginFailures: map<User, LoginState>

    constructor ()
      ensures loginFailures == map[]
    {
      loginFailures := map[];
    }

    /** Under one lock from the read of the state to its write. */
    method AuthenticatePassword(u: User, a: Account, now: int) returns (o: Outcome)
      modifies this
      ensures o == Decide(StateOf(old(loginFailures), u), a, now)
      ensures loginFailures == Apply(old(loginFailures), Attempt(u, a, now))
    {
      if !a.known {
        return NoSuchAccount;
      }
      if u !in loginFailures {
        loginFailures := loginFailures[u := LoginState(0, None)];
      }
      var state := loginFailures[u];
      if state.lockedUntil.Some? && now < state.lockedUntil.value {
        return LockedOut;
      }
      if !a.active {
        return Suspended;
      }
      if !a.hasPassword {
        return NoPasswordSet;
      }
      if !a.matches {
        state := state.(failed := state.failed + 1);
        if state.failed >= MAX_FAILED_LOGINS {
          state := state.(lockedUntil := Some(now + LOCKOUT_WINDOW));
        }
        loginFailures := loginFailures[u := state];
        return WrongPassword;
      }
      loginFailures := loginFailures[u := LoginState(0, None)];
      return SignedIn;
    }

    method SetUserPassword(u: User) modifies this
      ensures loginFailures == Apply(old(loginFailures), SetPassword(u))
    {
      loginFailures := loginFailures - {u};
    }
  }

  datatype Op = Attempt(user: User, account: Account, at: int) | SetPassword(user: User)

  function Apply(m: map<User, LoginState>, op: Op): map<User, LoginState> {
    match op
    case Attempt(u, a, now) =>
      if a.known then m[u := After(StateOf(m, u), Decide(StateOf(m, u), a, now), now)] else m
    case SetPassword(u) => m - {u}
  }

  function Run(m: map<User, LoginState>, ops: seq<Op>): map<User, LoginState>
    decreases |ops|
  {
    if ops == [] then m else Apply(Run(m, ops[..|ops| - 1]), ops[|ops| - 1])
  }

  function OutcomeOf(m: map<User, LoginState>, op: Op): Outcome
    requires op.Attempt?
  {
    Decide(StateOf(m, op.user), op.account, op.at)
  }

  /** Attempts on u that ended in a wrong password: the guesses that were checked. */
  function Guesses(m: map<User, LoginState>, ops: seq<Op>, u: User): nat
    decreases |ops|
  {
    if ops == [] then 0
    else
      var front, op := ops[..|ops| - 1], ops[|ops| - 1];
      Guesses(m, front, u)
      + if op.Attempt? && op.user == u && OutcomeOf(Run(m, front), op) == WrongPassword then 1 else 0
  }

  /** No sign-in succeeds on u and nobody sets its password. */
  predicate NoReset(m: map<User, LoginState>, ops: seq<Op>, u: User)
    decreases |ops|
  {
    ops == [] ||
    (var front, op := ops[..|ops| - 1], ops[|ops| - 1];
     && NoReset(m, front, u)
     && (op.user == u ==> op.Attempt? && OutcomeOf(Run(m, front), op) != SignedIn))
  }

  /** The attempts fall in order between two instants. */
  predicate Within(ops: seq<Op>, start: int, end: int) {
    && (forall i :: 0 <= i < |ops| && ops[i].Attempt? ==> start <= ops[i].at <= end)
    && (forall i, j :: 0 <= i < j < |ops| && ops[i].Attempt? && ops[j].Attempt? ==> ops[i].at <= ops[j].at)
  }

  /** The invariant of the span: what n checked guesses have cost. */
  lemma {:induction false} GuessesCost(m: map<User, LoginState>, ops: seq<Op>, u: User, start: int, end: int)
    requires NoReset(m, ops, u) && Within(ops, start, end) && start <= end
    ensures var n, s := Guesses(m, ops, u), StateOf(Run(m, ops), u);
            && s.failed >= n
            && (n >= MAX_FAILED_LOGINS ==>
                  s.lockedUntil.Some? && s.lockedUntil.value >= start + (n - MAX_FAILED_LOGINS + 1) * LOCKOUT_WINDOW)
            && (n > MAX_FAILED_LOGINS ==> end - start >= (n - MAX_FAILED_LOGINS) * LOCKOUT_WINDOW)
  {
    if ops != [] {
      var front, op := ops[..|ops| - 1], ops[|ops| - 1];
      GuessesCost(m, front, u, start, end);
    }
  }

  /**
   The guess rate: from any state, whatever happens to other accounts, a span of
   length T sees at most MaxFailedLogins + floor(T / LockoutWindow) checked guesses.
   */
  lemma GuessRateBound(m: map<User, LoginState>, ops: seq<Op>, u: User, start: int, end: int)
    requires NoReset(m, ops, u) && Within(ops, start, end) && start <= end
    ensures Guesses(m, ops, u) <= 8 + (end - start) / 900_000_000_000
  {
    GuessesCost(m, ops, u, start, end);
  }

  // ---------- the bound is attained ----------

  const WRONG := Account(true, true, true, false)

  /** When the nth guess is made: eight at once, then one as each lockout ends. */
  function GuessAt(n: nat): nat {
    if n <= MAX_FAILED_LOGINS then 0 else (n - MAX_FAILED_LOGINS) * LOCKOUT_WINDOW
  }

  function Persistent(u: User, n: nat): (ops: seq<Op>)
    ensures |ops| == n
  {
    if n == 0 then [] else Persistent(u, n - 1) + [Attempt(u, WRONG, GuessAt(n))]
  }

  lemma {:induction false} PersistentAt(u: User, n: nat)
    ensures forall i :: 0 <= i < n ==> Persistent(u, n)[i] == Attempt(u, WRONG, GuessAt(i + 1))
  {
    if n > 0 {
      PersistentAt(u, n - 1);
    }
  }

  lemma OneMore(m: map<User, LoginState>, front: seq<Op>, op: Op, u: User)
    requires op.Attempt? && op.user == u && OutcomeOf(Run(m, front), op) == WrongPassword
    requires NoReset(m, front, u)
    ensures NoReset(m, front + [op], u)
    ensures Guesses(m, front + [op], u) == Guesses(m, front, u) + 1
    ensures Run(m, front + [op]) == Apply(Run(m, front), op)
  {
    assert (front + [op])[..|front|] == front;
  }

  /** The state an account is in after n guesses made that way. */
  function Guessed(n: nat): LoginState {
    LoginState(n, if n < MAX_FAILED_LOGINS then None else Some(GuessAt(n + 1)))
  }

  lemma GuessIsChecked(n: nat)
    requires n > 0
    ensures Decide(Guessed(n - 1), WRONG, GuessAt(n)) == WrongPassword
    ensures After(Guessed(n - 1), WrongPassword, GuessAt(n)) == Guessed(n)
  {
  }

  lemma NextGuess(m: map<User, LoginState>, u: User, n: nat)
    requires n > 0 && StateOf(m, u) == Guessed(n - 1)
    ensures OutcomeOf(m, Attempt(u, WRONG, GuessAt(n))) == WrongPassword
    ensures StateOf(Apply(m, Attempt(u, WRONG, GuessAt(n))), u) == Guessed(n)
  {
    GuessIsChecked(n);
  }

  lemma {:induction false} EveryGuessIsChecked(m: map<User, LoginState>, u: User, n: nat)
    requires StateOf(m, u) == Guessed(0)
    ensures NoReset(m, Persistent(u, n), u) && Guesses(m, Persistent(u, n), u) == n
    ensures StateOf(Run(m, Persistent(u, n)), u) == Guessed(n)
  {
    if n > 0 {
      EveryGuessIsChecked(m, u, n - 1);
      NextGuess(Run(m, Persistent(u, n - 1)), u, n);
      OneMore(m, Persistent(u, n - 1), Attempt(u, WRONG, GuessAt(n)), u);
    }
  }

  /** The bound cannot be lowered: for every n it is met by a span of exactly n windows. */
  lemma BoundAttained(u: User, n: nat)
    ensures var ops := Persistent(u, MAX_FAILED_LOGINS + n);
            && NoReset(map[], ops, u) && Within(ops, 0, n * 900_000_000_000)
            && Guesses(map[], ops, u) == 8 + n
  {
    PersistentAt(u, MAX_FAILED_LOGINS + n);
    EveryGuessIsChecked(map[], u, MAX_FAILED_LOGINS + n);
  }

  // ---------- signing in ----------

  /** A lockout of the account still runs. */
  predicate Locked(m: map<User, LoginState>, u: User, now: int) {
    u in m && m[u].lockedUntil.Some? && now < m[u].lockedUntil.value
  }

  /**
   Signing in takes a known, active account with this very password, and no lockout
   that still runs; and of the reasons there are against it the first is given.
   */
  lemma SignedInExactly(m: map<User, LoginState>, u: User, a: Account, now: int)
    ensures var o, locked := OutcomeOf(m, Attempt(u, a, now)), Locked(m, u, now);
            && (o == SignedIn <==> a.known && !locked && a.active && a.hasPassword && a.matches)
            && (o == NoSuchAccount <==> !a.known)
            && (o == LockedOut <==> a.known && locked)
            && (o == Suspended <==> a.known && !locked && !a.active)
            && (o == NoPasswordSet <==> a.known && !locked && a.active && !a.hasPassword)
  {
  }

  /** Only a password that was looked at leaves a trace: a wrong one counts, the right one clears the count. */
  lemma OnlyCheckedCounts(m: map<User, LoginState>, u: User, a: Account, now: int)
    ensures var o, s, s' := OutcomeOf(m, Attempt(u, a, now)), StateOf(m, u), StateOf(Apply(m, Attempt(u, a, now)), u);
            if o == WrongPassword then s'.failed == s.failed + 1
            else if o == SignedIn then s'.failed == 0 && s'.lockedUntil == None
            else s' == s
    ensures !a.known ==> Apply(m, Attempt(u, a, now)) == m
  {
  }

  /** Once eight guesses have been checked, nothing gets in for a window, the right password included. */
  lemma LockedOutAfterEight(m: map<User, LoginState>, ops: seq<Op>, u: User, start: int, end: int, a: Account, now: int)
    requires NoReset(m, ops, u) && Within(ops, start, end) && start <= end
    requires Guesses(m, ops, u) >= 8 && a.known && now < start + 900_000_000_000
    ensures OutcomeOf(Run(m, ops), Attempt(u, a, now)) == LockedOut
  {
    GuessesCost(m, ops, u, start, end);
  }

  /** A sign-in, or a new password, gives the account its whole allowance again, whatever went before. */
  lemma ResetRestoresAllowance(m: map<User, LoginState>, op: Op, n: nat)
    requires op.SetPassword? || OutcomeOf(m, op) == SignedIn
    ensures var ops := Persistent(op.user, n);
            NoReset(Apply(m, op), ops, op.user) && Guesses(Apply(m, op), ops, op.user) == n
  {
    EveryGuessIsChecked(Apply(m, op), op.user, n);
  }

  /** What happens to one account is nothing to another. */
  lemma OthersUntouched(m: map<User, LoginState>, op: Op, v: User)
    requires v != op.user
    ensures StateOf(Apply(m, op), v) == StateOf(m, v)
  {
  }
}
