/**
 When a certificate is renewed, in Go's int64 nanoseconds. Every product is
 wrapped as Go wraps it, so what does not overflow is proved, not assumed.
 */
module RenewalLead {
  import opened Prelude

  const HOUR: int := 3_600_000_000_000
  const DAY: int := 24 * HOUR
  const SECOND: int := 1_000_000_000
  const MAX_LEAD_DAYS: int := 35583

  /** Two's-complement wrap to 64 bits. */
  function Wrap(x: int): (w: int)
    ensures IsInt64(w)
    ensures IsInt64(x) ==> w == x
  {
    ToInt64(x % TWO_64)
  }

  /** time.Time.Sub saturates. */
  function Since(notBefore: int, notAfter: int): int {
    var d := notAfter - notBefore;
    if d > MAX_INT64 then MAX_INT64 else if d < -TWO_63 then -TWO_63 else d
  }

  /** RenewalLead as Go computes it; None is a not_before never recorded. */
  function Lead(notBefore: Option<int>, notAfter: int, leadDays: int): int {
    var lead := Wrap(Wrap(leadDays * 24) * HOUR);
    if notBefore.None? || notAfter <= notBefore.value then lead
    else
      var life := Since(notBefore.value, notAfter);
      if Wrap(lead * 3) > Wrap(life * 2) then life / 3 else lead
  }

  /** The rule in unbounded arithmetic: the configured lead unless it is over two thirds of the life. */
  function Rule(life: int, leadDays: int): int {
    if leadDays * DAY * 3 > life * 2 then life / 3 else leadDays * DAY
  }

  predicate InRange(notBefore: int, notAfter: int, leadDays: int) {
    && 1 <= leadDays <= MAX_LEAD_DAYS
    && 0 < notAfter - notBefore <= MAX_INT64 / 2
  }

  /** In this range nothing overflows: Go's arithmetic is the rule's. */
  lemma LeadIsTheRule(notBefore: int, notAfter: int, leadDays: int)
    requires InRange(notBefore, notAfter, leadDays)
    ensures Lead(Some(notBefore), notAfter, leadDays) == Rule(notAfter - notBefore, leadDays)
  {
  }

  /** The triple of the lead, the largest product, fits exactly up to 35583 days. */
  lemma LeadRangeIsExact(leadDays: int)
    requires leadDays >= 1
    ensures IsInt64(leadDays * DAY * 3) <==> leadDays <= MAX_LEAD_DAYS
  {
  }

  /**
   The bound: at most two thirds of the life, kept exactly when configured within
   that, and never due in the first third.
   */
  lemma LeadBound(notBefore: int, notAfter: int, leadDays: int)
    requires InRange(notBefore, notAfter, leadDays)
    ensures var lead, life := Lead(Some(notBefore), notAfter, leadDays), notAfter - notBefore;
            && 0 <= lead && lead * 3 <= life * 2
            && (lead == leadDays * DAY <==> leadDays * DAY * 3 <= life * 2)
            && (lead != leadDays * DAY ==> lead == life / 3)
            && 3 * (notAfter - lead - notBefore) >= life
  {
    LeadIsTheRule(notBefore, notAfter, leadDays);
  }

  /**
   Over half the int64 range the doubled life wraps below zero and every lead is cut
   to a third, though none in range is over two thirds by then.
   */
  lemma LifeOverflows(notBefore: int, notAfter: int, leadDays: int)
    requires 1 <= leadDays <= MAX_LEAD_DAYS && MAX_INT64 / 2 < notAfter - notBefore <= MAX_INT64
    ensures Lead(Some(notBefore), notAfter, leadDays) == (notAfter - notBefore) / 3
    ensures Rule(notAfter - notBefore, leadDays) == leadDays * DAY
  {
  }

  /** A life past the range is taken for the longest there is. */
  lemma LifeSaturates(notBefore: int, notAfter: int, leadDays: int)
    requires 1 <= leadDays <= MAX_LEAD_DAYS && notAfter - notBefore > MAX_INT64
    ensures Lead(Some(notBefore), notAfter, leadDays) == MAX_INT64 / 3 != leadDays * DAY
    ensures Rule(notAfter - notBefore, leadDays) == leadDays * DAY
  {
    assert (MAX_INT64 / 3) % DAY != 0;
  }

  /**
   So for every known life, Go's lead is the rule's exactly up to half the range, and
   past it only where a third of the life happens to be the lead configured.
   */
  lemma LeadIsTheRuleExactly(notBefore: int, notAfter: int, leadDays: int)
    requires 1 <= leadDays <= MAX_LEAD_DAYS && notBefore < notAfter
    ensures var life := notAfter - notBefore;
            Lead(Some(notBefore), notAfter, leadDays) == Rule(life, leadDays)
            <==> life <= MAX_INT64 / 2 || (life <= MAX_INT64 && life / 3 == leadDays * DAY)
  {
    if notAfter - notBefore <= MAX_INT64 / 2 {
      LeadIsTheRule(notBefore, notAfter, leadDays);
    } else if notAfter - notBefore <= MAX_INT64 {
      LifeOverflows(notBefore, notAfter, leadDays);
    } else {
      LifeSaturates(notBefore, notAfter, leadDays);
    }
  }

  // ---------- the suggested window ----------

  datatype Window = Window(start: int, end: int)

  function SuggestedWindow(revoked: bool, notBefore: Option<int>, notAfter: int, leadDays: int, now: int): Window {
    if revoked then Window(now - 2 * HOUR, now - HOUR)
    else
      var lead := Lead(notBefore, notAfter, leadDays);
      Window(notAfter - lead, notAfter - lead + lead / 3)
  }

  /**
   A certificate whose beginning is not known, or not before its end, keeps the lead
   configured: its window opens that many days before the end.
   */
  lemma UnknownLifeKeepsLead(notBefore: Option<int>, notAfter: int, leadDays: int, now: int)
    requires 1 <= leadDays <= MAX_LEAD_DAYS && (notBefore.Some? ==> notAfter <= notBefore.value)
    ensures Lead(notBefore, notAfter, leadDays) == leadDays * 86_400_000_000_000
    ensures var w := SuggestedWindow(false, notBefore, notAfter, leadDays, now);
            w.start == notAfter - leadDays * 86_400_000_000_000 && w.end == w.start + leadDays * 28_800_000_000_000
  {
  }

  /** A revoked certificate's window is the hour that ended an hour ago: due now, and nothing else says when. */
  lemma RevokedIsDueNow(notBefore: Option<int>, notAfter: int, leadDays: int, now: int)
    ensures var w := SuggestedWindow(true, notBefore, notAfter, leadDays, now);
            w.end == now - 3_600_000_000_000 && w.end - w.start == 3_600_000_000_000
  {
  }

  /** RFC 3339 without a fraction drops what is under a second. */
  function WholeSeconds(t: int): int {
    t / SECOND
  }

  /**
   As printed, the window of a live certificate of at least nine seconds is not
   empty, opens after its first third, and ends by its expiry (RFC 9773 section 4.2).
   */
  lemma WindowIsUsable(notBefore: int, notAfter: int, leadDays: int, now: int)
    requires InRange(notBefore, notAfter, leadDays) && notAfter - notBefore >= 9 * SECOND
    ensures var w := SuggestedWindow(false, Some(notBefore), notAfter, leadDays, now);
            && WholeSeconds(w.start) < WholeSeconds(w.end) <= WholeSeconds(notAfter)
            && w.start < w.end < notAfter
            && w.start == notAfter - Rule(notAfter - notBefore, leadDays)
            && 0 <= Rule(notAfter - notBefore, leadDays) - 3 * (w.end - w.start) < 3
            && 3 * (w.start - notBefore) >= notAfter - notBefore
  {
    LeadBound(notBefore, notAfter, leadDays);
    LeadIsTheRule(notBefore, notAfter, leadDays);
    var lead := Lead(Some(notBefore), notAfter, leadDays);
    assert lead >= 3 * SECOND;
    var w := SuggestedWindow(false, Some(notBefore), notAfter, leadDays, now);
    assert w.end >= w.start + SECOND;
  }

  /** Under nine seconds, a window that opens on a whole second closes in the same one. */
  lemma WindowCloses(life: int, leadDays: int, now: int)
    requires 1 <= leadDays <= MAX_LEAD_DAYS && 0 < life < 9 * SECOND
    ensures var notAfter := life / 3;
            var w := SuggestedWindow(false, Some(notAfter - life), notAfter, leadDays, now);
            w.start == 0 && WholeSeconds(w.end) == 0
  {
    LeadIsTheRule(life / 3 - life, life / 3, leadDays);
  }

  predicate WindowOpen(notBefore: int, life: int, leadDays: int, now: int) {
    var w := SuggestedWindow(false, Some(notBefore), notBefore + life, leadDays, now);
    WholeSeconds(w.start) < WholeSeconds(w.end)
  }

  /** Nine seconds is exactly what it takes for the printed window never to be empty, whenever the certificate began. */
  lemma WindowIsUsableExactly(life: int, leadDays: int, now: int)
    requires 1 <= leadDays <= MAX_LEAD_DAYS && 0 < life <= MAX_INT64 / 2
    ensures (forall notBefore :: WindowOpen(notBefore, life, leadDays, now)) <==> life >= 9_000_000_000
  {
    if life >= 9 * SECOND {
      forall notBefore ensures WindowOpen(notBefore, life, leadDays, now) {
        WindowIsUsable(notBefore, notBefore + life, leadDays, now);
      }
    } else {
      WindowCloses(life, leadDays, now);
      assert !WindowOpen(life / 3 - life, life, leadDays, now);
    }
  }
}
