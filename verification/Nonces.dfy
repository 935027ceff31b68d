/**
 ACME nonces (RFC 8555 section 6.5): stateless to mint, stateful to spend.

 Times are nanoseconds since the epoch; a nonce carries its expiry in seconds.
 Spending is two steps, the check and the claim, and a sweep may fall between
 them, as may the steps of any other request.
 */
module Nonces {
  import opened Prelude
  import Base64

  const NONCE_LIFE: int := 600_000_000_000
  const SECOND: int := 1_000_000_000
  const RANDOM_SIZE: nat := 16
  const DATA_SIZE: nat := RANDOM_SIZE + 8
  const KEY_ID_SIZE: nat := 8
  const TAG_SIZE: nat := 32

  datatype Keyring = Keyring(keks: map<Bytes, Bytes>, primary: Bytes, mac: (Bytes, Bytes) -> Bytes)

  ghost predicate ValidKeyring(ring: Keyring) {
    && ring.primary in ring.keks
    && |ring.primary| == KEY_ID_SIZE
    && forall k, d :: |ring.mac(k, d)| == TAG_SIZE
  }

  /** later still holds every key of now. */
  ghost predicate Rotates(now: Keyring, later: Keyring) {
    && later.mac == now.mac
    && forall k :: k in now.keks ==> k in later.keks && later.keks[k] == now.keks[k]
  }

  // ---------- layout ----------

  function ExpirySeconds(now: int): int {
    (now + NONCE_LIFE) / SECOND
  }

  predicate ClockInRange(now: int) {
    IsInt64(ExpirySeconds(now))
  }

  function Data(random: Bytes, now: int): Bytes
    requires ClockInRange(now)
  {
    random + Int64Bytes(ExpirySeconds(now))
  }

  function Mint(ring: Keyring, random: Bytes, now: int): string
    requires ClockInRange(now) && ring.primary in ring.keks
  {
    var data := Data(random, now);
    Base64.Encode(ring.primary + data + ring.mac(ring.keks[ring.primary], data))
  }

  /** The buffer is filled in place: random bytes, then the expiry. */
  method MintNonce(ring: Keyring, random: Bytes, now: int) returns (nonce: string)
    requires ClockInRange(now) && ring.primary in ring.keks && |random| == RANDOM_SIZE
    ensures nonce == Mint(ring, random, now)
  {
    var data := new Byte[DATA_SIZE](_ => 0);
    forall i | 0 <= i < RANDOM_SIZE {
      data[i] := random[i];
    }
    var expiry := Int64Bytes(ExpirySeconds(now));
    forall i | 0 <= i < 8 {
      data[RANDOM_SIZE + i] := expiry[i];
    }
    assert data[..] == Data(random, now);
    var raw := ring.primary + data[..] + ring.mac(ring.keks[ring.primary], data[..]);
    nonce := Base64.Encode(raw);
  }

  /** The expiry of a nonce this keyring authenticates, or None for any other string. */
  function Expiry(ring: Keyring, nonce: string): Option<int> {
    var raw := Base64.Decode(nonce);
    if raw.None? || |raw.value| != KEY_ID_SIZE + DATA_SIZE + TAG_SIZE then None
    else
      var key := raw.value[..KEY_ID_SIZE];
      var data := raw.value[KEY_ID_SIZE..KEY_ID_SIZE + DATA_SIZE];
      var tag := raw.value[KEY_ID_SIZE + DATA_SIZE..];
      if key !in ring.keks || ring.mac(ring.keks[key], data) != tag then None
      else Some(Int64OfBytes(data[RANDOM_SIZE..]) * SECOND)
  }

  /** Parsing undoes the layout, also after the key that minted has been retired. */
  lemma MintedExpiry(ring: Keyring, later: Keyring, random: Bytes, now: int)
    requires ValidKeyring(ring) && Rotates(ring, later)
    requires ClockInRange(now) && |random| == RANDOM_SIZE
    ensures Expiry(later, Mint(ring, random, now)) == Some(ExpirySeconds(now) * SECOND)
    ensures now + 599_000_000_000 < ExpirySeconds(now) * SECOND <= now + 600_000_000_000
  {
    var data := Data(random, now);
    var raw := ring.primary + data + ring.mac(ring.keks[ring.primary], data);
    Base64.RoundTrip(raw);
    assert raw[..KEY_ID_SIZE] == ring.primary;
    assert raw[KEY_ID_SIZE..KEY_ID_SIZE + DATA_SIZE] == data;
    assert raw[KEY_ID_SIZE + DATA_SIZE..] == ring.mac(ring.keks[ring.primary], data);
    assert data[RANDOM_SIZE..] == Int64Bytes(ExpirySeconds(now));
    Int64BytesRoundTrip(ExpirySeconds(now));
  }

  /** A nonce is 64 bytes: the key's identifier, 16 random bytes, the expiry in seconds, and the tag over the last two. */
  lemma MintedLayout(ring: Keyring, random: Bytes, now: int)
    requires ValidKeyring(ring) && ClockInRange(now) && |random| == RANDOM_SIZE
    ensures var raw := Base64.Decode(Mint(ring, random, now));
            && raw.Some? && |raw.value| == 64
            && raw.value[..8] == ring.primary && raw.value[8..24] == random
            && Int64OfBytes(raw.value[24..32]) == (now + 600_000_000_000) / 1_000_000_000
            && raw.value[32..] == ring.mac(ring.keks[ring.primary], raw.value[8..32])
  {
    var data := Data(random, now);
    var tag := ring.mac(ring.keks[ring.primary], data);
    var raw := ring.primary + data + tag;
    Base64.RoundTrip(raw);
    Int64BytesRoundTrip(ExpirySeconds(now));
    assert raw[8..32] == data && raw[32..] == tag && raw[..8] == ring.primary;
    assert raw[8..24] == data[..16] == random;
    assert raw[24..32] == data[16..] == Int64Bytes(ExpirySeconds(now));
  }

  /**
   A nonce is taken for what it says exactly when it is 64 bytes whose tag a held key,
   the one they name, gives over what stands between; anything else is none.
   */
  lemma TakenExactly(ring: Keyring, nonce: string)
    ensures var raw := Base64.Decode(nonce);
            if && raw.Some? && |raw.value| == 64 && raw.value[..8] in ring.keks
               && ring.mac(ring.keks[raw.value[..8]], raw.value[8..32]) == raw.value[32..]
            then Expiry(ring, nonce) == Some(Int64OfBytes(raw.value[24..32]) * 1_000_000_000)
            else Expiry(ring, nonce) == None
  {
    var raw := Base64.Decode(nonce);
    if raw.Some? && |raw.value| == 64 {
      assert raw.value[8..32][16..] == raw.value[24..32];
    }
  }

  // ---------- the claim table ----------

  /** The rows a sweep at `now` leaves. */
  function Swept(rows: map<Bytes, int>, now: int): map<Bytes, int> {
    map h | h in rows && rows[h] > now :: rows[h]
  }

  class NonceTable {
    var acmeNonces: map<Bytes, int>

    constructor ()
      ensures acmeNonces == map[]
    {
      acmeNonces := map[];
    }

    method ClaimACMENonce(hash: Bytes, expiresAt: int) returns (first: bool)
      modifies this
      ensures first <==> hash !in old(acmeNonces)
      ensures acmeNonces == if first then old(acmeNonces)[hash := expiresAt] else old(acmeNonces)
    {
      if hash in acmeNonces {
        return false;
      }
      acmeNonces := acmeNonces[hash := expiresAt];
      return true;
    }

    method SweepACMENonces(now: int) returns (removed: nat)
      modifies this
      ensures acmeNonces == Swept(old(acmeNonces), now)
      ensures removed == |old(acmeNonces)| - |acmeNonces|
    {
      removed := 0;
      var todo := acmeNonces.Keys;
      while todo != {}
        invariant todo <= acmeNonces.Keys <= old(acmeNonces).Keys
        invariant forall h :: h in acmeNonces ==> acmeNonces[h] == old(acmeNonces)[h]
        invariant forall h :: h in acmeNonces && h !in todo ==> acmeNonces[h] > now
        invariant forall h :: h in old(acmeNonces) && h !in acmeNonces ==> old(acmeNonces)[h] <= now
        invariant removed + |acmeNonces| == |old(acmeNonces)|
        decreases todo
      {
        var key :| key in todo;
        todo := todo - {key};
        if acmeNonces[key] <= now {
          assert (acmeNonces - {key}).Keys == acmeNonces.Keys - {key};
          assert |(acmeNonces - {key}).Keys| == |acmeNonces.Keys| - 1;
          acmeNonces := acmeNonces - {key};
          removed := removed + 1;
        }
      }
    }

    /** One request alone: the check, then at once the claim. */
    method SpendNonce(ring: Keyring, hash: string -> Bytes, nonce: string, now: int) returns (ok: bool)
      modifies this
      ensures ok <==> (Expiry(ring, nonce).Some? && Expiry(ring, nonce).value > now
                       && hash(nonce) !in old(acmeNonces))
      ensures acmeNonces == if ok then old(acmeNonces)[hash(nonce) := Expiry(ring, nonce).value]
                            else old(acmeNonces)
    {
      var expires := Expiry(ring, nonce);
      if expires.None? || expires.value <= now {
        return false;
      }
      ok := ClaimACMENonce(hash(nonce), expires.value);
    }
  }

  // ---------- runs ----------

  /** What is fixed over a run. The keyring may be any; the hash is SHA-256 in the source. */
  datatype Config = Config(ring: Keyring, hash: string -> Bytes)

  /**
   rows is the claim table, checked the requests between check and claim, clock
   the latest time read, and accepted the nonces let through, in order.
   */
  datatype State = State(rows: map<Bytes, int>, checked: map<nat, string>, clock: int, accepted: seq<string>)

  /** A sweep carries the instant its pass began at, and deletes what had expired by then. */
  datatype Step =
    | Check(request: nat, nonce: string)
    | Claim(request: nat)
    | Sweep(cut: int)

  /** A step and the clock reading it is made at. */
  datatype Timed = Timed(step: Step, at: int)

  function Initial(): State {
    State(map[], map[], 0, [])
  }

  function Next(c: Config, s: State, t: Timed): State {
    var s := s.(clock := t.at);
    match t.step
    case Check(r, nonce) =>
      var e := Expiry(c.ring, nonce);
      if e.Some? && e.value > t.at then s.(checked := s.checked[r := nonce]) else s
    case Claim(r) =>
      if r !in s.checked then s
      else
        var nonce := s.checked[r];
        var done := s.(checked := s.checked - {r});
        if c.hash(nonce) in s.rows || Expiry(c.ring, nonce).None? then done
        else done.(rows := s.rows[c.hash(nonce) := Expiry(c.ring, nonce).value], accepted := s.accepted + [nonce])
    case Sweep(cut) => s.(rows := Swept(s.rows, cut))
  }

  function Run(c: Config, s: State, ts: seq<Timed>): State
    decreases |ts|
  {
    if ts == [] then s else Next(c, Run(c, s, ts[..|ts| - 1]), ts[|ts| - 1])
  }

  /** The clock does not go back, and no sweep is ahead of it. */
  predicate Timeline(ts: seq<Timed>) {
    && (forall i :: 0 <= i < |ts| ==> 0 <= ts[i].at && (ts[i].step.Sweep? ==> ts[i].step.cut <= ts[i].at))
    && (forall i, j :: 0 <= i < j < |ts| ==> ts[i].at <= ts[j].at)
  }

  /**
   The sweep comes late for somebody: a request stands between check and claim with
   a nonce that was let through already, and has expired by the sweep's instant.
   */
  predicate Late(c: Config, s: State, t: Timed) {
    t.step.Sweep? && exists r :: r in s.checked && Stranded(c, s, s.checked[r], t.step.cut)
  }

  predicate Stranded(c: Config, s: State, n: string, cut: int) {
    n in s.accepted && Expiry(c.ring, n).Some? && Expiry(c.ring, n).value <= cut
  }

  predicate LateAt(c: Config, ts: seq<Timed>, i: nat) {
    i < |ts| && Late(c, Run(c, Initial(), ts[..i]), ts[i])
  }

  predicate NoneLate(c: Config, ts: seq<Timed>) {
    forall i: nat :: i < |ts| ==> !LateAt(c, ts, i)
  }

  predicate Distinct(ns: seq<string>) {
    forall i, j :: 0 <= i < j < |ns| ==> ns[i] != ns[j]
  }

  predicate Authentic(c: Config, n: string) {
    Expiry(c.ring, n).Some?
  }

  /** An accepted nonce is still in the table, or past its expiry and with nobody. */
  predicate Guarded(c: Config, s: State, n: string) {
    && Authentic(c, n)
    && (c.hash(n) in s.rows || (Expiry(c.ring, n).value <= s.clock && n !in s.checked.Values))
  }

  /** Every row is the claim of an accepted nonce, with that nonce's expiry. */
  ghost predicate Accounted(c: Config, s: State, h: Bytes)
    requires h in s.rows
  {
    exists n :: n in s.accepted && c.hash(n) == h && Authentic(c, n) && s.rows[h] == Expiry(c.ring, n).value
  }

  ghost predicate Inv(c: Config, s: State) {
    && Distinct(s.accepted)
    && (forall n :: n in s.accepted ==> Guarded(c, s, n))
    && (forall h :: h in s.rows ==> Accounted(c, s, h))
    && (forall r :: r in s.checked ==> Authentic(c, s.checked[r]))
  }

  /** Distinct nonces have distinct hashes. */
  ghost predicate CollisionFree(c: Config) {
    forall m, n :: c.hash(m) == c.hash(n) ==> m == n
  }

  lemma GuardedCheck(c: Config, s: State, t: Timed, n: string)
    requires Guarded(c, s, n) && s.clock <= t.at && t.step.Check?
    ensures Guarded(c, Next(c, s, t), n)
  {
    assert Next(c, s, t).checked.Values <= s.checked.Values + {t.step.nonce};
  }

  lemma InvCheck(c: Config, s: State, t: Timed)
    requires Inv(c, s) && s.clock <= t.at && t.step.Check?
    ensures Inv(c, Next(c, s, t))
  {
    var s' := Next(c, s, t);
    forall n | n in s'.accepted ensures Guarded(c, s', n) {
      GuardedCheck(c, s, t, n);
    }
    forall h | h in s'.rows ensures Accounted(c, s', h) {
      assert Accounted(c, s, h);
    }
  }

  /** Time passes, and a request lets go of what it checked: what is guarded stays so. */
  lemma GuardedLater(c: Config, s: State, s': State, n: string)
    requires Guarded(c, s, n) && s.clock <= s'.clock
    requires s.rows.Keys <= s'.rows.Keys && s'.checked.Values <= s.checked.Values
    ensures Guarded(c, s', n)
  {
  }

  lemma InvUnclaimed(c: Config, s: State, s': State)
    requires Inv(c, s) && s.clock <= s'.clock
    requires s'.rows == s.rows && s'.accepted == s.accepted
    requires forall r :: r in s'.checked ==> r in s.checked && s'.checked[r] == s.checked[r]
    ensures Inv(c, s')
  {
    assert s'.checked.Values <= s.checked.Values;
    forall n | n in s'.accepted ensures Guarded(c, s', n) {
      GuardedLater(c, s, s', n);
    }
    forall h | h in s'.rows ensures Accounted(c, s', h) {
      assert Accounted(c, s, h);
    }
  }

  lemma InvClaimed(c: Config, s: State, t: Timed)
    requires Inv(c, s) && s.clock <= t.at && t.step.Claim? && t.step.request in s.checked
    requires c.hash(s.checked[t.step.request]) !in s.rows
    ensures Inv(c, Next(c, s, t))
  {
    var s' := Next(c, s, t);
    var nonce := s.checked[t.step.request];
    assert nonce in s.checked.Values && s'.checked.Values <= s.checked.Values;
    assert nonce !in s.accepted;
    assert s'.accepted == s.accepted + [nonce];
    forall n | n in s'.accepted ensures Guarded(c, s', n) {
      if n in s.accepted {
        GuardedLater(c, s, s', n);
      }
    }
    forall h | h in s'.rows ensures Accounted(c, s', h) {
      if h in s.rows {
        assert Accounted(c, s, h);
        var n :| n in s.accepted && c.hash(n) == h && Authentic(c, n) && s.rows[h] == Expiry(c.ring, n).value;
        assert n in s'.accepted;
      } else {
        assert nonce in s'.accepted;
      }
    }
  }

  lemma InvSweep(c: Config, s: State, t: Timed)
    requires CollisionFree(c) && Inv(c, s) && s.clock <= t.at && t.step.Sweep? && t.step.cut <= t.at
    requires !Late(c, s, t)
    ensures Inv(c, Next(c, s, t))
  {
    var s' := Next(c, s, t);
    forall n | n in s'.accepted ensures Guarded(c, s', n) {
      assert Guarded(c, s, n);
      if c.hash(n) in s.rows && c.hash(n) !in s'.rows {
        assert Accounted(c, s, c.hash(n));
        assert Stranded(c, s, n, t.step.cut);
      }
    }
    forall h | h in s'.rows ensures Accounted(c, s', h) {
      assert Accounted(c, s, h);
    }
  }

  lemma InvNext(c: Config, s: State, t: Timed)
    requires CollisionFree(c) && Inv(c, s) && s.clock <= t.at && !Late(c, s, t)
    requires t.step.Sweep? ==> t.step.cut <= t.at
    ensures Inv(c, Next(c, s, t))
  {
    match t.step
    case Check(_, _) => InvCheck(c, s, t);
    case Claim(r) =>
      if r in s.checked && c.hash(s.checked[r]) !in s.rows {
        InvClaimed(c, s, t);
      } else {
        InvUnclaimed(c, s, Next(c, s, t));
      }
    case Sweep(_) => InvSweep(c, s, t);
  }

  lemma RunOneMore(c: Config, ts: seq<Timed>, n: nat)
    requires n < |ts|
    ensures Run(c, Initial(), ts[..n + 1]) == Next(c, Run(c, Initial(), ts[..n]), ts[n])
    ensures Run(c, Initial(), ts[..n + 1]).clock == ts[n].at
  {
    assert ts[..n + 1][..n] == ts[..n];
  }

  lemma {:induction false} InvUpTo(c: Config, ts: seq<Timed>, n: nat)
    requires CollisionFree(c) && Timeline(ts) && n <= |ts| && forall i: nat :: i < n ==> !LateAt(c, ts, i)
    ensures Inv(c, Run(c, Initial(), ts[..n]))
    ensures Run(c, Initial(), ts[..n]).clock == if n == 0 then 0 else ts[n - 1].at
  {
    if n > 0 {
      InvUpTo(c, ts, n - 1);
      RunOneMore(c, ts, n - 1);
      assert !LateAt(c, ts, n - 1);
      InvNext(c, Run(c, Initial(), ts[..n - 1]), ts[n - 1]);
    }
  }

  /** Single use: however requests and sweeps interleave, no nonce string is let through twice unless a sweep is late. */
  lemma SingleUse(c: Config, ts: seq<Timed>)
    requires CollisionFree(c) && Timeline(ts) && NoneLate(c, ts)
    ensures Distinct(Run(c, Initial(), ts).accepted)
  {
    InvUpTo(c, ts, |ts|);
    assert ts[..|ts|] == ts;
  }

  /** After i steps, request r's claim lets a nonce through that has been let through before. */
  predicate TwiceAfter(c: Config, ts: seq<Timed>, i: nat, r: nat) {
    0 < i <= |ts| && !Distinct(Next(c, Run(c, Initial(), ts[..i]), Timed(Claim(r), ts[i - 1].at)).accepted)
  }

  lemma {:induction false} FirstLate(c: Config, ts: seq<Timed>, i: nat) returns (k: nat)
    requires LateAt(c, ts, i)
    ensures LateAt(c, ts, k) && forall j: nat :: j < k ==> !LateAt(c, ts, j)
  {
    if j: nat :| j < i && LateAt(c, ts, j) {
      k := FirstLate(c, ts, j);
    } else {
      k := i;
    }
  }

  /** A late sweep deletes the row that stood in the way of the request it is late for. */
  lemma SweptAway(c: Config, s: State, n: string, cut: int)
    requires CollisionFree(c) && Inv(c, s) && Stranded(c, s, n, cut)
    ensures c.hash(n) !in Swept(s.rows, cut)
  {
    if c.hash(n) in s.rows {
      assert Accounted(c, s, c.hash(n));
    }
  }

  lemma ClaimLetsThrough(c: Config, s: State, r: nat, n: string, at: int)
    requires r in s.checked && s.checked[r] == n && c.hash(n) !in s.rows && Expiry(c.ring, n).Some?
    ensures Next(c, s, Timed(Claim(r), at)).accepted == s.accepted + [n]
  {
  }

  lemma Repeats(ns: seq<string>, n: string)
    requires n in ns
    ensures !Distinct(ns + [n])
  {
    var i :| 0 <= i < |ns| && ns[i] == n;
    assert (ns + [n])[i] == (ns + [n])[|ns|];
  }

  lemma LateLetsThrough(c: Config, s: State, t: Timed) returns (r: nat)
    requires CollisionFree(c) && Inv(c, s) && Late(c, s, t)
    ensures !Distinct(Next(c, Next(c, s, t), Timed(Claim(r), t.at)).accepted)
  {
    r :| r in s.checked && Stranded(c, s, s.checked[r], t.step.cut);
    var n := s.checked[r];
    SweptAway(c, s, n, t.step.cut);
    ClaimLetsThrough(c, Next(c, s, t), r, n, t.at);
    Repeats(s.accepted, n);
  }

  lemma TwiceWhenLate(c: Config, ts: seq<Timed>, i: nat) returns (r: nat, k: nat)
    requires CollisionFree(c) && Timeline(ts) && LateAt(c, ts, i)
    ensures TwiceAfter(c, ts, k, r)
  {
    var first := FirstLate(c, ts, i);
    InvUpTo(c, ts, first);
    r := LateLetsThrough(c, Run(c, Initial(), ts[..first]), ts[first]);
    k := first + 1;
    assert ts[..k][..first] == ts[..first];
  }

  lemma NotTwiceWhenNoneLate(c: Config, ts: seq<Timed>, i: nat, r: nat)
    requires CollisionFree(c) && Timeline(ts) && NoneLate(c, ts)
    ensures !TwiceAfter(c, ts, i, r)
  {
    if 0 < i <= |ts| {
      InvUpTo(c, ts, i);
      InvNext(c, Run(c, Initial(), ts[..i]), Timed(Claim(r), ts[i - 1].at));
    }
  }

  /**
   Exactly when: over every run, some point of it can be carried on by one claim, made
   at once, to a nonce let through twice if and only if some sweep of the run is late.
   */
  lemma AcceptedTwiceExactly(c: Config, ts: seq<Timed>)
    requires CollisionFree(c) && Timeline(ts)
    ensures (exists i: nat, r: nat :: TwiceAfter(c, ts, i, r)) <==> exists i: nat :: LateAt(c, ts, i)
  {
    if i: nat :| LateAt(c, ts, i) {
      var r, k := TwiceWhenLate(c, ts, i);
    } else {
      forall i: nat, r: nat ensures !TwiceAfter(c, ts, i, r) {
        NotTwiceWhenNoneLate(c, ts, i, r);
      }
    }
  }

  /** Late sweeps are reached: two requests with one nonce, the first claimed, and a sweep past its expiry. */
  lemma TwoRequestsReachIt(c: Config, nonce: string, now: int)
    requires Expiry(c.ring, nonce).Some? && Expiry(c.ring, nonce).value > now >= 0
    ensures var e := Expiry(c.ring, nonce).value;
            var ts := [Timed(Check(1, nonce), now), Timed(Claim(1), now), Timed(Check(2, nonce), now), Timed(Sweep(e), e)];
            Timeline(ts) && LateAt(c, ts, 3)
  {
    var e := Expiry(c.ring, nonce).value;
    var t1, t2, t3 := Timed(Check(1, nonce), now), Timed(Claim(1), now), Timed(Check(2, nonce), now);
    var ts := [t1, t2, t3, Timed(Sweep(e), e)];
    assert ts[..3] == [t1, t2, t3];
    assert [t1, t2, t3][..2] == [t1, t2] && [t1, t2][..1] == [t1] && [t1][..0] == [];
    var s1 := Next(c, Initial(), t1);
    assert Run(c, Initial(), [t1]) == s1;
    var s2 := Next(c, s1, t2);
    assert Run(c, Initial(), [t1, t2]) == s2;
    var s3 := Next(c, s2, t3);
    assert Run(c, Initial(), [t1, t2, t3]) == s3;
    assert 2 in s3.checked && Stranded(c, s3, s3.checked[2], e);
  }

  /** Every request claims as soon as it has checked. */
  predicate AtOnce(ts: seq<Timed>) {
    forall i :: 0 <= i && i + 1 < |ts| && ts[i].step.Check? ==>
      ts[i + 1] == Timed(Claim(ts[i].step.request), ts[i].at)
  }

  /** Then the one request between check and claim is the one that has just checked. */
  lemma {:induction false} HeldAtOnce(c: Config, ts: seq<Timed>, n: nat)
    requires AtOnce(ts) && n <= |ts|
    ensures forall r :: r in Run(c, Initial(), ts[..n]).checked ==>
              n > 0 && ts[n - 1].step.Check? && r == ts[n - 1].step.request
  {
    if n > 0 {
      HeldAtOnce(c, ts, n - 1);
      assert ts[..n][..n - 1] == ts[..n - 1];
      assert n > 1 && ts[n - 2].step.Check? ==> ts[n - 2 + 1] == Timed(Claim(ts[n - 2].step.request), ts[n - 2].at);
    }
  }

  /** With check and claim one step no sweep is late, and single use needs no proviso. */
  lemma SingleUseAtOnce(c: Config, ts: seq<Timed>)
    requires CollisionFree(c) && Timeline(ts) && AtOnce(ts)
    ensures NoneLate(c, ts) && Distinct(Run(c, Initial(), ts).accepted)
  {
    forall i: nat | i < |ts| ensures !LateAt(c, ts, i) {
      HeldAtOnce(c, ts, i);
      assert i > 0 && ts[i - 1].step.Check? ==> ts[i - 1 + 1] == Timed(Claim(ts[i - 1].step.request), ts[i - 1].at);
    }
    SingleUse(c, ts);
  }

  /** Some check of n in the run found it unexpired. */
  predicate CheckedInTime(c: Config, ts: seq<Timed>, n: string) {
    exists i :: 0 <= i < |ts| && ts[i].step.Check? && ts[i].step.nonce == n
                && Authentic(c, n) && Expiry(c.ring, n).value > ts[i].at
  }

  /** Whatever the interleaving, nothing is let through that was not checked before its expiry. */
  lemma {:induction false} AcceptedWasUnexpired(c: Config, ts: seq<Timed>)
    ensures forall n :: n in Run(c, Initial(), ts).accepted ==> CheckedInTime(c, ts, n)
    ensures forall r :: r in Run(c, Initial(), ts).checked ==> CheckedInTime(c, ts, Run(c, Initial(), ts).checked[r])
  {
    if ts != [] {
      var front, t := ts[..|ts| - 1], ts[|ts| - 1];
      AcceptedWasUnexpired(c, front);
      var s := Run(c, Initial(), front);
      forall n | CheckedInTime(c, front, n) ensures CheckedInTime(c, ts, n) {
        var i :| 0 <= i < |front| && front[i].step.Check? && front[i].step.nonce == n
                 && Authentic(c, n) && Expiry(c.ring, n).value > front[i].at;
        assert ts[i] == front[i];
      }
      if t.step.Check? && Authentic(c, t.step.nonce) && Expiry(c.ring, t.step.nonce).value > t.at {
        assert ts[|front|] == t;
        assert CheckedInTime(c, ts, t.step.nonce);
      }
    }
  }

  /**
   A minted nonce is good: after any such run that has not let it through, the
   first request that spends it before its encoded expiry is accepted.
   */
  lemma FreshNonceAccepted(c: Config, ts: seq<Timed>, minter: Keyring, random: Bytes, minted: int, r: nat, at: int)
    requires CollisionFree(c) && Timeline(ts) && NoneLate(c, ts)
    requires ValidKeyring(minter) && Rotates(minter, c.ring)
    requires ClockInRange(minted) && |random| == RANDOM_SIZE
    requires Mint(minter, random, minted) !in Run(c, Initial(), ts).accepted
    requires at < ExpirySeconds(minted) * SECOND
    ensures var s := Run(c, Initial(), ts);
            var s' := Next(c, Next(c, s, Timed(Check(r, Mint(minter, random, minted)), at)), Timed(Claim(r), at));
            s'.accepted == s.accepted + [Mint(minter, random, minted)]
  {
    MintedExpiry(minter, c.ring, random, minted);
    InvUpTo(c, ts, |ts|);
    assert ts[..|ts|] == ts;
    var s, n := Run(c, Initial(), ts), Mint(minter, random, minted);
    assert c.hash(n) !in s.rows;
  }
}
