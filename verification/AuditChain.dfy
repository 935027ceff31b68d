/**
 The tamper-evident audit chain: the canonical encoding of an entry, the keyed
 tag that links it to its predecessor, and the walk that verifies a range.

 The MAC is a parameter, so every statement is about whatever MAC the keyring
 holds. Collision freedom is only ever asked of the tag inputs at hand.
 */
module AuditChain {
  import opened Prelude

  const VERSION: Byte := 1
  const MAC_SIZE: nat := 32

  function ZeroTag(): (z: Bytes)
    ensures |z| == MAC_SIZE
  {
    Zeros(MAC_SIZE)
  }

  /** The covered fields of an entry. Strings are Go strings, that is, bytes. */
  datatype Covered = Covered(
    seqNo: int,
    id: Bytes,
    action: Bytes,
    entityType: Bytes,
    entityId: Option<Bytes>,
    actorId: Option<Bytes>,
    actorEmail: Option<Bytes>,
    details: Bytes,
    ipAddress: Option<Bytes>,
    micros: int)

  /** An audit log row. `nanos` is CreatedAt, in nanoseconds since the epoch. */
  datatype Entry = Entry(
    seqNo: int,
    id: Bytes,
    action: Bytes,
    entityType: Bytes,
    entityId: Option<Bytes>,
    actorId: Option<Bytes>,
    actorEmail: Option<Bytes>,
    details: Bytes,
    ipAddress: Option<Bytes>,
    nanos: int,
    entryHash: Bytes,
    prevHash: Bytes,
    chainKeyId: Bytes)
  {
    function Fields(): Covered {
      Covered(seqNo, id, action, entityType, entityId, actorId, actorEmail, details, ipAddress, nanos / 1000)
    }

    /** What the store does to CreatedAt before the tag is computed. */
    function Truncated(): Entry {
      this.(nanos := nanos - nanos % 1000)
    }
  }

  /** The integer widths of the row: both numbers are int64 in the source. */
  predicate WellTyped(e: Entry) {
    IsInt64(e.seqNo) && IsInt64(e.nanos / 1000)
  }

  predicate ShortOptional(s: Option<Bytes>) {
    s.Some? ==> |s.value| < TWO_32
  }

  /** Every covered string has a length that fits the 32-bit prefix. */
  predicate Fits(e: Entry) {
    && WellTyped(e)
    && |e.id| < TWO_32 && |e.action| < TWO_32 && |e.entityType| < TWO_32 && |e.details| < TWO_32
    && ShortOptional(e.entityId) && ShortOptional(e.actorId) && ShortOptional(e.actorEmail)
    && ShortOptional(e.ipAddress)
  }

  // ---------- canonical encoding ----------

  function Field(s: Bytes): Bytes {
    Uint32Bytes(|s|) + s
  }

  function Optional(s: Option<Bytes>): Bytes {
    match s
    case None => [0]
    case Some(v) => [1] + Field(v)
  }

  /** Right-nested, so that an encoding is a field followed by the rest. */
  function Canonical(e: Entry): Bytes
    requires WellTyped(e)
  {
    [VERSION] + (Int64Bytes(e.seqNo) + (Field(e.id) + (Field(e.action) + (Field(e.entityType)
    + (Optional(e.entityId) + (Optional(e.actorId) + (Optional(e.actorEmail) + (Field(e.details)
    + (Optional(e.ipAddress) + Int64Bytes(e.nanos / 1000))))))))))
  }

  /** Two equal concatenations whose first parts have one length split alike. */
  lemma SplitAt(a: Bytes, x: Bytes, b: Bytes, y: Bytes)
    requires a + x == b + y && |a| == |b|
    ensures a == b && x == y
  {
    assert a == (a + x)[..|a|] && b == (b + y)[..|a|];
    assert x == (a + x)[|a|..] && y == (b + y)[|a|..];
  }

  // ---------- reading it back ----------

  /** A length of four bytes, most significant first, then as many bytes; and what is left. */
  function ReadField(b: Bytes): Option<(Bytes, Bytes)> {
    if |b| < 4 then None
    else
      var n := FromBigEndian(b[..4]);
      if |b| < 4 + n then None else Some((b[4..4 + n], b[4 + n..]))
  }

  /** A zero byte for nothing, a one byte before something. */
  function ReadOptional(b: Bytes): Option<(Option<Bytes>, Bytes)> {
    if b == [] then None
    else if b[0] == 0 then Some((None, b[1..]))
    else if b[0] != 1 then None
    else
      match ReadField(b[1..])
      case None => None
      case Some((v, rest)) => Some((Some(v), rest))
  }

  /** The reader of version 1: the number, five strings and optional strings by turns, the instant. */
  function Read(b: Bytes): Option<Covered> {
    if |b| < 9 || b[0] != 1 then None
    else
      match ReadField(b[9..])
      case None => None
      case Some((id, b1)) =>
      match ReadField(b1)
      case None => None
      case Some((action, b2)) =>
      match ReadField(b2)
      case None => None
      case Some((entityType, b3)) => ReadFrom(Int64OfBytes(b[1..9]), id, action, entityType, b3)
  }

  /** The rest of it, from the entity's identifier on. */
  function ReadFrom(seqNo: int, id: Bytes, action: Bytes, entityType: Bytes, b: Bytes): Option<Covered> {
    match ReadOptional(b)
    case None => None
    case Some((entityId, b1)) =>
    match ReadOptional(b1)
    case None => None
    case Some((actorId, b2)) =>
    match ReadOptional(b2)
    case None => None
    case Some((actorEmail, b3)) =>
    match ReadField(b3)
    case None => None
    case Some((details, b4)) =>
    match ReadOptional(b4)
    case None => None
    case Some((ipAddress, b5)) =>
      if |b5| != 8 then None
      else Some(Covered(seqNo, id, action, entityType, entityId, actorId, actorEmail, details, ipAddress, Int64OfBytes(b5)))
  }

  lemma LengthReads(length: Bytes, t: Bytes, n: nat)
    requires |length| == 4 && FromBigEndian(length) == n <= |t|
    ensures ReadField(length + t) == Some((t[..n], t[n..]))
  {
    var b := length + t;
    assert b[..4] == length && b[4..] == t;
    assert b[4..4 + n] == b[4..][..n] && b[4 + n..] == b[4..][n..];
  }

  lemma FieldReads(s: Bytes, x: Bytes)
    requires |s| < TWO_32
    ensures ReadField(Field(s) + x) == Some((s, x))
  {
    Uint32BytesRoundTrip(|s|);
    LengthReads(Uint32Bytes(|s|), s + x, |s|);
    assert Field(s) + x == Uint32Bytes(|s|) + (s + x);
    assert (s + x)[..|s|] == s && (s + x)[|s|..] == x;
  }

  lemma OptionalReads(s: Option<Bytes>, x: Bytes)
    requires ShortOptional(s)
    ensures ReadOptional(Optional(s) + x) == Some((s, x))
  {
    if s.None? {
      assert ([0] + x)[1..] == x;
    } else {
      FieldReads(s.value, x);
      var b := Field(s.value) + x;
      assert Optional(s) + x == [1] + b && ([1] + b)[1..] == b;
    }
  }

  /** What the canonical form ends in, from the entity's identifier on. */
  function CanonicalEnd(e: Entry): Bytes
    requires WellTyped(e)
  {
    Optional(e.entityId) + (Optional(e.actorId) + (Optional(e.actorEmail) + (Field(e.details)
    + (Optional(e.ipAddress) + Int64Bytes(e.nanos / 1000)))))
  }

  lemma EndReads(e: Entry, seqNo: int, id: Bytes, action: Bytes, entityType: Bytes)
    requires Fits(e)
    ensures ReadFrom(seqNo, id, action, entityType, CanonicalEnd(e))
            == Some(e.Fields().(seqNo := seqNo, id := id, action := action, entityType := entityType))
  {
    var b5 := Int64Bytes(e.nanos / 1000);
    var b4 := Optional(e.ipAddress) + b5;
    var b3 := Field(e.details) + b4;
    var b2 := Optional(e.actorEmail) + b3;
    var b1 := Optional(e.actorId) + b2;
    OptionalReads(e.entityId, b1);
    OptionalReads(e.actorId, b2);
    OptionalReads(e.actorEmail, b3);
    FieldReads(e.details, b4);
    OptionalReads(e.ipAddress, b5);
    Int64BytesRoundTrip(e.nanos / 1000);
  }

  /** The canonical form can be read back: every covered field, nil apart from empty. */
  lemma ReadsBack(e: Entry)
    requires Fits(e)
    ensures Read(Canonical(e)) == Some(e.Fields())
  {
    var b, b3 := Canonical(e), CanonicalEnd(e);
    var b2 := Field(e.entityType) + b3;
    var b1 := Field(e.action) + b2;
    assert b[1..9] == Int64Bytes(e.seqNo) && b[9..] == Field(e.id) + b1;
    Int64BytesRoundTrip(e.seqNo);
    FieldReads(e.id, b1);
    FieldReads(e.action, b2);
    FieldReads(e.entityType, b3);
    EndReads(e, e.seqNo, e.id, e.action, e.entityType);
  }

  /** Equal canonical bytes mean equal covered fields. */
  lemma CanonicalInjective(a: Entry, b: Entry)
    requires Fits(a) && Fits(b)
    requires Canonical(a) == Canonical(b)
    ensures a.Fields() == b.Fields()
  {
    ReadsBack(a);
    ReadsBack(b);
  }

  /**
   The 32-bit prefix is what the length bound is for: a details string of exactly
   2^32 bytes encodes as length zero, and passes for an absent one with an address.
   */
  lemma CanonicalCollidesPastTheBound(a: Entry, ip: Bytes)
    requires WellTyped(a) && a.ipAddress == None
    requires |ip| == TWO_32 - 4 && ip[|ip| - 1] == 0
    ensures var long := a.(details := [1] + Uint32Bytes(|ip|) + ip[..|ip| - 1]);
            var short := a.(details := [], ipAddress := Some(ip));
            && |long.details| == TWO_32
            && Canonical(long) == Canonical(short) && long.Fields() != short.Fields()
  {
    var d := [1] + Uint32Bytes(|ip|) + ip[..|ip| - 1];
    var t := Int64Bytes(a.nanos / 1000);
    assert ip == ip[..|ip| - 1] + [0];
    assert |d| == TWO_32;
    assert Field(d) == Uint32Bytes(0) + d;
    assert Field([]) == Uint32Bytes(0);
    assert d + [0] == [1] + Field(ip);
    assert Field(d) + (Optional(None) + t) == Uint32Bytes(0) + ((d + [0]) + t);
    assert Field([]) + (Optional(Some(ip)) + t) == Uint32Bytes(0) + (([1] + Field(ip)) + t);
    assert d != [];
  }

  // ---------- tags ----------

  /** A keyring: the keys it can read with, the one it writes with, and its MAC. */
  datatype Chainer = Chainer(keks: map<Bytes, Bytes>, primary: Bytes, mac: (Bytes, Bytes) -> Bytes)

  ghost predicate ValidChainer(ch: Chainer) {
    && ch.primary in ch.keks
    && forall k, d :: |ch.mac(k, d)| == MAC_SIZE
  }

  datatype Check = Good | Bad | CannotCheck

  function Link(ch: Chainer, e: Entry, prev: Bytes): Option<(Bytes, Bytes)>
    requires WellTyped(e) && ch.primary in ch.keks
  {
    if |prev| != MAC_SIZE then None
    else Some((ch.primary, ch.mac(ch.keks[ch.primary], prev + Canonical(e))))
  }

  /** The predecessor tag Verify hashes: the recorded one, or zero when there is none. */
  function PrevOf(e: Entry): Bytes {
    if e.prevHash == [] then ZeroTag() else e.prevHash
  }

  function TagInput(e: Entry): Bytes
    requires WellTyped(e)
  {
    PrevOf(e) + Canonical(e)
  }

  function Verify(ch: Chainer, e: Entry): Check
    requires WellTyped(e)
  {
    if e.entryHash == [] then Bad
    else if |PrevOf(e)| != MAC_SIZE then Bad
    else if e.chainKeyId !in ch.keks then CannotCheck
    else if ch.mac(ch.keks[e.chainKeyId], TagInput(e)) == e.entryHash then Good
    else Bad
  }

  // ---------- the walk ----------

  predicate AllWellTyped(es: seq<Entry>) {
    forall i :: 0 <= i < |es| ==> WellTyped(es[i])
  }

  /** The tag the walk expects before entry i. */
  function Expected(es: seq<Entry>, i: nat): Bytes
    requires i < |es|
  {
    if i > 0 then es[i - 1].entryHash
    else if es[0].seqNo == 1 then ZeroTag()
    else es[0].prevHash
  }

  predicate Follows(prev: Bytes, e: Entry) {
    |prev| == MAC_SIZE && |e.prevHash| == MAC_SIZE ==> prev == e.prevHash
  }

  /** There is a tag, and a predecessor to compute one over. */
  predicate Checkable(e: Entry) {
    e.entryHash != [] && |PrevOf(e)| == 32
  }

  /** The entry's own key, when it is held, gives this tag over the predecessor and the canonical bytes. */
  predicate TagAgrees(ch: Chainer, e: Entry)
    requires WellTyped(e)
  {
    e.chainKeyId in ch.keks && ch.mac(ch.keks[e.chainKeyId], PrevOf(e) + Canonical(e)) == e.entryHash
  }

  /** Entry i carries the next number and follows its predecessor. */
  predicate InPlace(es: seq<Entry>, i: nat)
    requires i < |es|
  {
    es[i].seqNo == es[0].seqNo + i && Follows(Expected(es, i), es[i])
  }

  predicate Passes(ch: Chainer, es: seq<Entry>, i: nat)
    requires i < |es| && AllWellTyped(es)
  {
    InPlace(es, i) && Checkable(es[i]) && TagAgrees(ch, es[i])
  }

  predicate Intact(ch: Chainer, es: seq<Entry>)
    requires AllWellTyped(es)
  {
    forall i :: 0 <= i < |es| ==> Passes(ch, es, i)
  }

  datatype Reason = NoReason | NoKey | NothingToCheck | Missing | WrongPredecessor | Unreadable | Altered

  datatype Report = Report(
    intact: bool,
    verified: nat,
    unchained: nat,
    firstSeq: int,
    lastSeq: int,
    brokenAt: Option<int>,
    reason: Reason,
    truncated: bool)

  /** The number the walk reports at entry i: the one expected there. */
  predicate BrokenAtEntry(ch: Chainer, es: seq<Entry>, r: Report, k: nat)
    requires k < |es| && AllWellTyped(es)
  {
    && r.verified == k
    && r.brokenAt == Some(es[0].seqNo + k)
    && !Passes(ch, es, k)
    && (forall i :: 0 <= i < k ==> Passes(ch, es, i))
    && r.lastSeq == (if k == 0 then 0 else es[k - 1].seqNo)
    && (r.reason == Missing <==> es[k].seqNo != es[0].seqNo + k)
    && (r.reason == WrongPredecessor <==> es[k].seqNo == es[0].seqNo + k && !Follows(Expected(es, k), es[k]))
    && (r.reason == Unreadable <==> InPlace(es, k) && Checkable(es[k]) && es[k].chainKeyId !in ch.keks)
    && (r.reason == Altered <==>
          InPlace(es, k) && (!Checkable(es[k]) || (es[k].chainKeyId in ch.keks && !TagAgrees(ch, es[k]))))
  }

  /** Numbers without a gap, each predecessor the tag before it, and before number 1 the all-zero one. */
  predicate Linked(es: seq<Entry>) {
    && (forall i :: 0 <= i < |es| ==> es[i].seqNo == es[0].seqNo + i)
    && (forall i :: 0 < i < |es| && |es[i].prevHash| == 32 == |es[i - 1].entryHash| ==> es[i].prevHash == es[i - 1].entryHash)
    && (es != [] && es[0].seqNo == 1 && |es[0].prevHash| == 32 ==> forall k :: 0 <= k < 32 ==> es[0].prevHash[k] == 0)
  }

  lemma IntactIsLinked(ch: Chainer, es: seq<Entry>)
    requires AllWellTyped(es) && Intact(ch, es)
    ensures Linked(es)
  {
    forall i | 0 <= i < |es|
      ensures es[i].seqNo == es[0].seqNo + i
      ensures |es[i].prevHash| == 32 == |Expected(es, i)| ==> es[i].prevHash == Expected(es, i)
    {
      assert Passes(ch, es, i);
    }
  }

  /** Walks entries in ascending order, checking each tag and each link. */
  method VerifyAuditChainOver(entries: seq<Entry>, chainer: Option<Chainer>, from: int,
                              unchained: nat, truncated: bool) returns (report: Report)
    requires AllWellTyped(entries)
    ensures report.unchained == unchained && report.truncated == truncated
    ensures report.intact <==> chainer.Some? && Intact(chainer.value, entries)
    ensures chainer.None? ==> report.reason == NoKey && report.verified == 0 && report.brokenAt == None
    ensures report.intact ==> report.verified == |entries| && report.brokenAt == None
    ensures report.intact && entries != [] ==>
              report.firstSeq == entries[0].seqNo && report.lastSeq == entries[|entries| - 1].seqNo
    ensures chainer.Some? && !report.intact ==>
              exists k: nat | k < |entries| :: BrokenAtEntry(chainer.value, entries, report, k)
  {
    report := Report(false, 0, unchained, 0, 0, None, NoReason, truncated);
    if chainer.None? {
      return report.(reason := NoKey);
    }
    var ch := chainer.value;
    var expected := if from < 1 then 1 else from;
    var prev: Bytes := [];
    var i := 0;
    while i < |entries|
      invariant 0 <= i <= |entries|
      invariant report.verified == i && !report.intact && report.brokenAt == None
      invariant report.unchained == unchained && report.truncated == truncated
      invariant forall j :: 0 <= j < i ==> Passes(ch, entries, j)
      invariant i > 0 ==> expected == entries[0].seqNo + i && prev == entries[i - 1].entryHash
      invariant i > 0 ==> report.firstSeq == entries[0].seqNo
      invariant report.lastSeq == (if i == 0 then 0 else entries[i - 1].seqNo)
    {
      var l := entries[i];
      if i == 0 {
        report := report.(firstSeq := l.seqNo);
        prev := if l.seqNo == 1 then ZeroTag() else l.prevHash;
        expected := l.seqNo;
      }
      assert prev == Expected(entries, i);
      if l.seqNo != expected {
        report := report.(brokenAt := Some(expected), reason := Missing);
        assert BrokenAtEntry(ch, entries, report, i);
        return;
      }
      if |prev| == MAC_SIZE && |l.prevHash| == MAC_SIZE && prev != l.prevHash {
        report := report.(brokenAt := Some(l.seqNo), reason := WrongPredecessor);
        assert BrokenAtEntry(ch, entries, report, i);
        return;
      }
      var check := Verify(ch, l);
      if check != Good {
        report := report.(brokenAt := Some(l.seqNo), reason := if check.CannotCheck? then Unreadable else Altered);
        assert BrokenAtEntry(ch, entries, report, i);
        return;
      }
      prev := l.entryHash;
      report := report.(lastSeq := l.seqNo, verified := report.verified + 1);
      expected := expected + 1;
      i := i + 1;
    }
    report := report.(intact := true, reason := if report.verified == 0 then NothingToCheck else NoReason);
  }

  // ---------- commitment ----------

  /** No entry after the first lacks its predecessor tag. */
  predicate AllLinked(es: seq<Entry>) {
    forall i :: 1 <= i < |es| ==> es[i].prevHash != []
  }

  /** No two different tag inputs of the two lists share a tag, across the keys in use. */
  predicate CollisionFree(ch: Chainer, a: seq<Entry>, b: seq<Entry>)
    requires AllWellTyped(a) && AllWellTyped(b)
  {
    forall i, j | 0 <= i < |a| && 0 <= j < |b| && a[i].chainKeyId in ch.keks && b[j].chainKeyId in ch.keks ::
      ch.mac(ch.keks[a[i].chainKeyId], TagInput(a[i])) == ch.mac(ch.keks[b[j].chainKeyId], TagInput(b[j]))
      ==> TagInput(a[i]) == TagInput(b[j])
  }

  predicate AllFit(es: seq<Entry>)
    ensures AllFit(es) ==> AllWellTyped(es)
  {
    forall i :: 0 <= i < |es| ==> Fits(es[i])
  }

  /** Walks as intact from number 1. */
  ghost predicate WholeUnlinked(ch: Chainer, es: seq<Entry>) {
    es != [] && AllFit(es) && Intact(ch, es) && es[0].seqNo == 1
  }

  ghost predicate WholeChain(ch: Chainer, es: seq<Entry>) {
    WholeUnlinked(ch, es) && AllLinked(es)
  }

  /** No predecessor that a later entry hashes is the tag Verify puts for an absent one. */
  predicate NoZeroTag(es: seq<Entry>) {
    forall i :: 0 <= i < |es| - 1 ==> es[i].entryHash != ZeroTag()
  }

  /** Equal tags of two verified entries: same covered fields, same predecessor. */
  lemma EqualTagsAgree(ch: Chainer, a: seq<Entry>, i: nat, b: seq<Entry>, j: nat)
    requires WholeUnlinked(ch, a) && WholeUnlinked(ch, b) && CollisionFree(ch, a, b)
    requires i < |a| && j < |b| && a[i].entryHash == b[j].entryHash
    ensures a[i].Fields() == b[j].Fields() && PrevOf(a[i]) == PrevOf(b[j])
  {
    assert Passes(ch, a, i) && Passes(ch, b, j);
    SplitAt(PrevOf(a[i]), Canonical(a[i]), PrevOf(b[j]), Canonical(b[j]));
    CanonicalInjective(a[i], b[j]);
  }

  /** Numbers count from one, and the predecessor a linked entry hashes is the tag before it. */
  lemma LinkedBack(ch: Chainer, es: seq<Entry>, i: nat)
    requires ValidChainer(ch) && WholeUnlinked(ch, es) && i < |es|
    ensures es[i].seqNo == i + 1
    ensures i > 0 && es[i].prevHash != [] ==> PrevOf(es[i]) == es[i - 1].entryHash
  {
    assert Passes(ch, es, i);
    if i > 0 {
      assert Passes(ch, es, i - 1);
    }
  }

  /** From equal tags at i, everything up to i agrees, by walking the links back. */
  lemma {:induction false} AgreeUpTo(ch: Chainer, a: seq<Entry>, b: seq<Entry>, i: nat)
    requires ValidChainer(ch)
    requires WholeChain(ch, a) && WholeUnlinked(ch, b) && CollisionFree(ch, a, b)
    requires AllLinked(b) || NoZeroTag(a)
    requires i < |a| && i < |b| && a[i].entryHash == b[i].entryHash
    ensures forall k :: 0 <= k <= i ==> a[k].Fields() == b[k].Fields()
    ensures forall k :: 1 <= k <= i ==> b[k].prevHash != []
  {
    EqualTagsAgree(ch, a, i, b, i);
    if i > 0 {
      LinkedBack(ch, a, i);
      assert b[i].prevHash != [];
      LinkedBack(ch, b, i);
      AgreeUpTo(ch, a, b, i - 1);
    }
  }

  /** Both lists say the same, entry by entry. */
  predicate SaySame(a: seq<Entry>, b: seq<Entry>) {
    |a| == |b| && forall k :: 0 <= k < |a| ==> a[k].Fields() == b[k].Fields()
  }

  lemma EqualEndsAgree(ch: Chainer, a: seq<Entry>, b: seq<Entry>)
    requires ValidChainer(ch)
    requires WholeChain(ch, a) && WholeUnlinked(ch, b) && CollisionFree(ch, a, b)
    requires AllLinked(b) || NoZeroTag(a)
    requires a[|a| - 1].entryHash == b[|b| - 1].entryHash
    ensures SaySame(a, b) && AllLinked(b)
  {
    EqualTagsAgree(ch, a, |a| - 1, b, |b| - 1);
    assert a[|a| - 1].Fields().seqNo == b[|b| - 1].Fields().seqNo;
    LinkedBack(ch, a, |a| - 1);
    LinkedBack(ch, b, |b| - 1);
    AgreeUpTo(ch, a, b, |a| - 1);
  }

  /**
   The chain is a commitment: two whole chains with one final tag say the same
   thing, entry by entry, whichever keys of the ring wrote them.
   */
  lemma Commitment(ch: Chainer, a: seq<Entry>, b: seq<Entry>)
    requires ValidChainer(ch)
    requires WholeChain(ch, a) && WholeChain(ch, b) && CollisionFree(ch, a, b)
    requires a[|a| - 1].entryHash == b[|b| - 1].entryHash
    ensures SaySame(a, b)
  {
    EqualEndsAgree(ch, a, b);
  }

  /**
   And an anchor: once one whole chain is trusted, any list that walks as intact
   from number 1 and ends in its final tag says the same, linked or not to begin
   with, as long as no tag of the trusted one before the last is all zero.
   */
  lemma AnchoredCommitment(ch: Chainer, trusted: seq<Entry>, other: seq<Entry>)
    requires ValidChainer(ch)
    requires WholeChain(ch, trusted) && NoZeroTag(trusted)
    requires WholeUnlinked(ch, other) && CollisionFree(ch, trusted, other)
    requires other[|other| - 1].entryHash == trusted[|trusted| - 1].entryHash
    ensures SaySame(trusted, other) && AllLinked(other)
  {
    EqualEndsAgree(ch, trusted, other);
  }

  /**
   Why AllLinked is asked for: an entry tagged with no predecessor verifies after
   any intact list whatever, so its tag says nothing of what came before.
   */
  lemma EmptyPredecessorSevers(ch: Chainer, es: seq<Entry>, e: Entry)
    requires ValidChainer(ch) && AllWellTyped(es) && Intact(ch, es) && es != []
    requires WellTyped(e) && e.seqNo == es[0].seqNo + |es|
    requires e.prevHash == [] && e.chainKeyId in ch.keks
    requires e.entryHash == ch.mac(ch.keks[e.chainKeyId], ZeroTag() + Canonical(e))
    ensures AllWellTyped(es + [e]) && Intact(ch, es + [e])
  {
    var all := es + [e];
    forall i | 0 <= i < |all| ensures Passes(ch, all, i) {
      if i < |es| {
        assert Passes(ch, es, i);
        assert Expected(all, i) == Expected(es, i);
      }
    }
  }

  // ---------- pages ----------

  /** What the walk of one page cannot see: whether the next one follows it. */
  predicate BoundaryAgrees(p: seq<Entry>, q: seq<Entry>)
    requires p != [] && q != []
  {
    && q[0].seqNo == p[|p| - 1].seqNo + 1
    && Follows(p[|p| - 1].entryHash, q[0])
  }

  /** Adjacent intact pages that agree at the boundary are one intact page, and conversely. */
  lemma PagesCompose(ch: Chainer, p: seq<Entry>, q: seq<Entry>)
    requires AllWellTyped(p) && AllWellTyped(q) && p != [] && q != []
    requires p[0].seqNo >= 1
    ensures AllWellTyped(p + q)
    ensures Intact(ch, p + q) <==> Intact(ch, p) && Intact(ch, q) && BoundaryAgrees(p, q)
  {
    var all := p + q;
    forall i | 0 <= i < |p| ensures Passes(ch, all, i) <==> Passes(ch, p, i) {
      assert Expected(all, i) == Expected(p, i);
    }
    assert Passes(ch, p, |p| - 1) ==> p[|p| - 1].seqNo == p[0].seqNo + |p| - 1;
    if Passes(ch, p, |p| - 1) && BoundaryAgrees(p, q) {
      forall i | 0 <= i < |q| ensures Passes(ch, all, |p| + i) <==> Passes(ch, q, i) {
        assert all[|p| + i] == q[i];
        if i > 0 {
          assert Expected(all, |p| + i) == Expected(q, i);
        } else {
          assert q[0].seqNo > 1;
          assert Expected(all, |p|) == p[|p| - 1].entryHash;
        }
      }
    }
    if Intact(ch, all) {
      assert Passes(ch, all, |p| - 1) && Passes(ch, all, |p|);
      assert all[|p|] == q[0] && Expected(all, |p|) == p[|p| - 1].entryHash;
      assert BoundaryAgrees(p, q);
      forall i | 0 <= i < |q| ensures Passes(ch, q, i) {
        assert Passes(ch, all, |p| + i);
      }
      forall i | 0 <= i < |p| ensures Passes(ch, p, i) {
        assert Passes(ch, all, i);
      }
    }
    if Intact(ch, p) && Intact(ch, q) && BoundaryAgrees(p, q) {
      forall i | 0 <= i < |all| ensures Passes(ch, all, i) {
        if i >= |p| {
          assert Passes(ch, q, i - |p|);
          assert Passes(ch, all, |p| + (i - |p|));
        } else {
          assert Passes(ch, p, i);
        }
      }
    }
  }

  /** So any contiguous slice of an intact list is intact: a missing head is not detected. */
  lemma SliceIntact(ch: Chainer, es: seq<Entry>, lo: nat, hi: nat)
    requires AllWellTyped(es) && Intact(ch, es) && lo <= hi <= |es|
    requires es != [] ==> es[0].seqNo >= 1
    ensures AllWellTyped(es[lo..hi]) && Intact(ch, es[lo..hi])
  {
    var mid := es[..hi];
    if 0 < hi < |es| {
      assert es == mid + es[hi..];
      PagesCompose(ch, mid, es[hi..]);
    } else if hi == |es| {
      assert mid == es;
    }
    if 0 < lo < hi {
      assert mid == mid[..lo] + mid[lo..];
      assert mid[lo..] == es[lo..hi];
      PagesCompose(ch, mid[..lo], mid[lo..]);
    } else if lo == 0 {
      assert es[lo..hi] == mid;
    }
  }

  // ---------- writing ----------

  /** CreateAuditLog with a chain: one atomic step that numbers and links the entry. */
  function Append(ch: Chainer, es: seq<Entry>, e: Entry): (r: seq<Entry>)
    requires ch.primary in ch.keks && AllWellTyped(es)
    requires IsInt64(e.nanos / 1000)
    ensures AllWellTyped(r)
  {
    var numbered := e.Truncated().(seqNo := if es == [] then 1 else es[|es| - 1].seqNo + 1);
    var prev := if es == [] || es[|es| - 1].entryHash == [] then ZeroTag() else es[|es| - 1].entryHash;
    if !IsInt64(numbered.seqNo) then es else
    match Link(ch, numbered, prev)
    case None => es
    case Some((key, tag)) => es + [numbered.(prevHash := prev, entryHash := tag, chainKeyId := key)]
  }

  /** One write to the log, under the keyring of that moment. */
  datatype Write = Write(ch: Chainer, entry: Entry)

  predicate Writable(w: Write) {
    w.ch.primary in w.ch.keks && IsInt64(w.entry.nanos / 1000)
  }

  predicate AllWritable(ws: seq<Write>) {
    forall i :: 0 <= i < |ws| ==> Writable(ws[i])
  }

  function Written(ws: seq<Write>): (es: seq<Entry>)
    requires AllWritable(ws)
    ensures AllWellTyped(es)
  {
    if ws == [] then []
    else
      var w := ws[|ws| - 1];
      assert Writable(w);
      Append(w.ch, Written(ws[..|ws| - 1]), w.entry)
  }

  /** later can still read everything now wrote: keys are retired, never dropped. */
  ghost predicate Rotates(now: Chainer, later: Chainer) {
    && now.mac == later.mac
    && forall k :: k in now.keks ==> k in later.keks && later.keks[k] == now.keks[k]
  }

  ghost predicate GaplessChain(ch: Chainer, es: seq<Entry>)
    requires AllWellTyped(es)
  {
    && Intact(ch, es)
    && AllLinked(es)
    && forall i :: 0 <= i < |es| ==> es[i].seqNo == i + 1
  }

  /** The tag covers only the covered fields. */
  lemma CanonicalIgnoresTags(a: Entry, b: Entry)
    requires WellTyped(a) && WellTyped(b) && a.Fields() == b.Fields()
    ensures Canonical(a) == Canonical(b)
  {
  }

  lemma OneMorePasses(ch: Chainer, es: seq<Entry>, last: Entry)
    requires AllWellTyped(es) && Intact(ch, es) && WellTyped(last)
    requires Passes(ch, es + [last], |es|)
    ensures Intact(ch, es + [last])
  {
    var r := es + [last];
    forall i | 0 <= i < |r| ensures Passes(ch, r, i) {
      if i < |es| {
        assert Passes(ch, es, i);
        assert Expected(r, i) == Expected(es, i);
      }
    }
  }

  /** One write keeps the log a whole chain, and adds what was written. */
  lemma AppendExtends(ch: Chainer, es: seq<Entry>, w: Write)
    requires ValidChainer(ch) && |es| < MAX_INT64
    requires Writable(w) && Rotates(w.ch, ch)
    requires AllWellTyped(es) && GaplessChain(ch, es)
    ensures var r := Append(w.ch, es, w.entry);
            && |r| == |es| + 1 && r[..|es|] == es
            && r[|es|].Fields() == w.entry.Fields().(seqNo := |es| + 1) && r[|es|].nanos % 1000 == 0
            && GaplessChain(ch, r)
  {
    var r := Append(w.ch, es, w.entry);
    if es != [] {
      assert Passes(ch, es, |es| - 1);
    }
    var last := r[|es|];
    assert r == es + [last];
    CanonicalIgnoresTags(last, w.entry.Truncated().(seqNo := |es| + 1));
    assert last.prevHash == if es == [] then ZeroTag() else es[|es| - 1].entryHash;
    assert TagInput(last) == last.prevHash + Canonical(last);
    assert TagAgrees(ch, last);
    OneMorePasses(ch, es, last);
  }

  /** One entry per write, saying what was written. */
  ghost predicate Records(es: seq<Entry>, ws: seq<Write>) {
    && |es| == |ws|
    && forall i :: 0 <= i < |ws| ==> es[i].Fields() == ws[i].entry.Fields().(seqNo := i + 1)
  }

  lemma RecordsExtends(es: seq<Entry>, r: seq<Entry>, ws: seq<Write>)
    requires ws != [] && Records(es, ws[..|ws| - 1])
    requires |r| == |es| + 1 && r[..|es|] == es
    requires r[|es|].Fields() == ws[|ws| - 1].entry.Fields().(seqNo := |es| + 1)
    ensures Records(r, ws)
  {
    forall i | 0 <= i < |ws| ensures r[i].Fields() == ws[i].entry.Fields().(seqNo := i + 1) {
      if i < |es| {
        assert r[i] == r[..|es|][i] == es[i] && ws[i] == ws[..|ws| - 1][i];
      }
    }
  }

  /** A log whose last tag cannot be a predecessor takes no more: the write is refused, and the log is as it was. */
  lemma AppendRefuses(ch: Chainer, es: seq<Entry>, e: Entry)
    requires ch.primary in ch.keks && AllWellTyped(es) && IsInt64(e.nanos / 1000)
    requires es != [] && es[|es| - 1].entryHash != [] && |es[|es| - 1].entryHash| != 32
    ensures Append(ch, es, e) == es
  {
  }

  /** Whatever is written, and however often the key is rotated, the log is one whole chain of it. */
  lemma {:induction false} WrittenIsIntact(ws: seq<Write>, ch: Chainer)
    requires ValidChainer(ch) && |ws| < MAX_INT64 && AllWritable(ws)
    requires forall w :: w in ws ==> Rotates(w.ch, ch)
    ensures GaplessChain(ch, Written(ws)) && Records(Written(ws), ws)
  {
    if ws != [] {
      var front, w := ws[..|ws| - 1], ws[|ws| - 1];
      WrittenIsIntact(front, ch);
      assert Writable(w);
      AppendExtends(ch, Written(front), w);
      RecordsExtends(Written(front), Written(ws), ws);
    }
  }

  /** And so is every slice of it, which is what a page of the verifier is given. */
  lemma WrittenSlicesVerify(ws: seq<Write>, ch: Chainer, lo: nat, hi: nat)
    requires ValidChainer(ch) && |ws| < MAX_INT64 && AllWritable(ws) && lo <= hi <= |ws|
    requires forall w :: w in ws ==> Rotates(w.ch, ch)
    ensures |Written(ws)| == |ws| && Intact(ch, Written(ws)[lo..hi])
  {
    WrittenIsIntact(ws, ch);
    SliceIntact(ch, Written(ws), lo, hi);
  }

  // ---------- without links there is no commitment ----------

  /** An entry of the writer's own, with nothing in it but an action. */
  function Blank(action: Bytes): Entry {
    Entry(0, [], action, [], None, None, None, [], None, 0, [], [], [])
  }

  /** The same entry written n times under one keyring. */
  function Repeated(ch: Chainer, action: Bytes, n: nat): (ws: seq<Write>)
    ensures |ws| == n && forall i :: 0 <= i < n ==> ws[i] == Write(ch, Blank(action))
  {
    if n == 0 then [] else Repeated(ch, action, n - 1) + [Write(ch, Blank(action))]
  }

  /** A gapless chain of n entries that all say the same short thing. */
  lemma AnotherPast(ch: Chainer, action: Bytes, n: nat) returns (past: seq<Entry>)
    requires ValidChainer(ch) && n < MAX_INT64 && |action| < TWO_32
    ensures |past| == n && AllFit(past) && GaplessChain(ch, past)
    ensures forall i :: 0 <= i < n ==> past[i].action == action
  {
    var ws := Repeated(ch, action, n);
    forall w | w in ws ensures Rotates(w.ch, ch) {
    }
    WrittenIsIntact(ws, ch);
    past := Written(ws);
    forall i | 0 <= i < n ensures Fits(past[i]) && past[i].action == action {
      assert past[i].Fields() == Blank(action).Fields().(seqNo := i + 1);
      FitsByFields(past[i], Blank(action).Fields().(seqNo := i + 1));
    }
  }

  lemma FitsByFields(e: Entry, f: Covered)
    requires WellTyped(e) && e.Fields() == f
    requires |f.id| < TWO_32 && |f.action| < TWO_32 && |f.entityType| < TWO_32 && |f.details| < TWO_32
    requires f.entityId == None && f.actorId == None && f.actorEmail == None && f.ipAddress == None
    ensures Fits(e)
  {
  }

  /** What comes before an entry with no predecessor can be any other past of the same length. */
  lemma AnyPastFits(ch: Chainer, es: seq<Entry>, k: nat, past: seq<Entry>)
    requires ValidChainer(ch) && WholeUnlinked(ch, es) && 0 < k < |es| && es[k].prevHash == []
    requires |past| == k && AllFit(past) && GaplessChain(ch, past)
    ensures WholeUnlinked(ch, past + es[k..])
  {
    SliceIntact(ch, es, k, |es|);
    assert es[k..|es|] == es[k..];
    assert Passes(ch, es, k);
    assert past[0].seqNo == 1 && past[k - 1].seqNo == k;
    PagesCompose(ch, past, es[k..]);
    forall i | 0 <= i < |past + es[k..]| ensures Fits((past + es[k..])[i]) {
    }
  }

  /**
   So one entry past the first with no predecessor is enough: any such chain, however
   long, has another beside it that walks as intact from number 1 and ends in the same
   tag, and does not say the same.
   */
  lemma UnlinkedIsNoCommitment(ch: Chainer, es: seq<Entry>, k: nat) returns (other: seq<Entry>)
    requires ValidChainer(ch) && WholeUnlinked(ch, es) && 0 < k < |es| < MAX_INT64 && es[k].prevHash == []
    ensures WholeUnlinked(ch, other) && |other| == |es|
    ensures other[|other| - 1].entryHash == es[|es| - 1].entryHash
    ensures other[0].Fields() != es[0].Fields()
  {
    var past := AnotherPast(ch, if es[0].action == [] then [1] else [], k);
    AnyPastFits(ch, es, k, past);
    other := past + es[k..];
    assert other[0].action == past[0].action;
  }

  /** An entry that follows an all-zero tag verifies as well with no predecessor. */
  lemma ZeroTagUnlinks(ch: Chainer, es: seq<Entry>, k: nat)
    requires ValidChainer(ch) && WholeChain(ch, es) && 0 < k < |es| && es[k - 1].entryHash == ZeroTag()
    ensures WholeUnlinked(ch, es[k := es[k].(prevHash := [])])
    ensures es[k].(prevHash := []).entryHash == es[k].entryHash
  {
    var e := es[k].(prevHash := []);
    var severed := es[k := e];
    LinkedBack(ch, es, k);
    CanonicalIgnoresTags(e, es[k]);
    assert Passes(ch, es, k) && TagAgrees(ch, e);
    forall i | 0 <= i < |severed| ensures Fits(severed[i]) {
      assert Fits(es[i]);
    }
    forall i | 0 <= i < |severed| ensures Passes(ch, severed, i) {
      assert Passes(ch, es, i);
      assert Expected(severed, i) == Expected(es, i);
    }
  }

  /** Why NoZeroTag is asked for: one all-zero tag before the last, and the trusted end has another past. */
  lemma ZeroTagIsNoAnchor(ch: Chainer, trusted: seq<Entry>, k: nat) returns (other: seq<Entry>)
    requires ValidChainer(ch) && WholeChain(ch, trusted) && |trusted| < MAX_INT64
    requires k < |trusted| - 1 && trusted[k].entryHash == ZeroTag()
    ensures WholeUnlinked(ch, other) && |other| == |trusted|
    ensures other[|other| - 1].entryHash == trusted[|trusted| - 1].entryHash
    ensures !SaySame(trusted, other)
  {
    ZeroTagUnlinks(ch, trusted, k + 1);
    var severed := trusted[k + 1 := trusted[k + 1].(prevHash := [])];
    other := UnlinkedIsNoCommitment(ch, severed, k + 1);
    assert severed[0] == trusted[0];
  }
}
