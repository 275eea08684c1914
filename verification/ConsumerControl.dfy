/**
  What control messages do to a consumer: which announcements are adopted, what configurations decide, when it reports.
 */
module ConsumerControl {
  import opened Bits
  import opened ConsumerEpoch

  // ---- Announcements ----

  /** The time the consumer listens from, once this announcement has been seen. */
  function ListensFrom(c: Consumer, e: Event): u64
    requires e.Announce?
  {
    if c.joinTime == 0 then e.now else c.joinTime
  }

  /** Not older than three announce periods, by the clock the announcement names, which must be running. */
  predicate Recent(c: Consumer, e: Event)
    requires e.Announce?
  {
    if e.clockDomain == CLOCK_REALTIME_SYNCED then e.realtime != 0 && e.realtime <= e.timestamp + 3 * c.announcePeriod
    else e.now <= e.timestamp + 3 * c.announcePeriod
  }

  /** For this stream and layout, recent, and, by the consumer's own clock, not from before it listened. */
  predicate Concerns(c: Consumer, e: Event)
    requires e.Announce?
  {
    && e.stream == c.stream && Recent(c, e)
    && (e.clockDomain == CLOCK_MONOTONIC ==> ListensFrom(c, e) <= e.timestamp)
    && (c.expectedLayout == 0 || e.layout == c.expectedLayout)
  }

  lemma UsableIsConcerns(c: Consumer, e: Event)
    requires e.Announce? && 3 * c.announcePeriod < U64
    ensures Usable(c.(joinTime := ListensFrom(c, e)), e) <==> Concerns(c, e)
  {
    InRange(3 * c.announcePeriod, U64);
  }

  /**
    An announcement whose attach succeeds is adopted exactly when shared memory is in use, it concerns the consumer, and
    its epoch is not below the last one adopted: the regions of its epoch are then mapped, with nothing counted.
   */
  lemma AdoptedIff(c: Consumer, e: Event)
    requires Inv(c) && e.Announce? && e.attach.Attached? && e.attach.at != c.attachTime && 3 * c.announcePeriod < U64
    ensures var c' := Step(c, e);
            (c'.mapped && c'.attachTime == e.attach.at) <==>
            c.useShm && Concerns(c, e) && e.epoch >= c.lastAnnounceEpoch
    ensures var c' := Step(c, e);
            c'.mapped && c'.attachTime == e.attach.at ==>
              && c'.mappedEpoch == e.epoch == c'.lastAnnounceEpoch
              && c'.lastSeq == 0 && c'.dropsGap == 0 && c'.dropsLate == 0 && c'.lastQos == 0
  {
    UsableIsConcerns(c, e);
  }

  /** An announcement that does not concern the consumer changes nothing but when it started to listen. */
  lemma OthersAreIgnored(c: Consumer, e: Event)
    requires e.Announce? && 3 * c.announcePeriod < U64 && !(c.useShm && Concerns(c, e))
    ensures Step(c, e) == if c.useShm then c.(joinTime := ListensFrom(c, e)) else c
  {
    UsableIsConcerns(c, e);
  }

  /**
    One of an epoch older than the mapped one takes the mapping away; an older one than was ever adopted maps nothing.
   */
  lemma OlderEpochUnmaps(c: Consumer, e: Event)
    requires Inv(c) && e.Announce? && 3 * c.announcePeriod < U64 && c.useShm && Concerns(c, e)
    requires e.epoch < c.lastAnnounceEpoch
    ensures !Step(c, e).mapped && Step(c, e).lastAnnounceEpoch == c.lastAnnounceEpoch
    ensures !c.mapped ==> Step(c, e) == c.(joinTime := ListensFrom(c, e))
  {
    UsableIsConcerns(c, e);
  }

  /**
    How attaching fails matters: refused by its checks it costs a mapping of another epoch only, failed it costs any,
    and with a fallback the consumer falls back and counts the epoch as adopted.
   */
  lemma FailedAttaches(c: Consumer, e: Event)
    requires Inv(c) && e.Announce? && 3 * c.announcePeriod < U64 && c.useShm && Concerns(c, e)
    requires e.epoch >= c.lastAnnounceEpoch && !e.attach.Attached?
    ensures var c' := Step(c, e);
            && (c'.mapped <==> e.attach.Refused? && c.mapped && c.mappedEpoch == e.epoch)
            && (c'.mapped ==> c' == c.(joinTime := ListensFrom(c, e)))
            && (e.attach.FellBack? <==> c'.state == Fallback && (c.state != Fallback || !e.attach.Refused?))
            && c'.lastAnnounceEpoch == (if e.attach.FellBack? then e.epoch else c.lastAnnounceEpoch)
  {
    UsableIsConcerns(c, e);
  }

  /** The code's freshness test means three periods exactly when three periods fit 64 bits. */
  lemma FreshnessExactIffPeriodFits(period: u64)
    ensures (forall now: u64, timestamp: u64 :: TooOld(period, now, timestamp) <==> now > timestamp + 3 * period)
       <==> 3 * period < U64
  {
    if 3 * period < U64 {
      InRange(3 * period, U64);
    } else {
      if 3 * period < 2 * U64 { DivModUnique(3 * period, U64, 1, 3 * period - U64); }
      else { DivModUnique(3 * period, U64, 2, 3 * period - 2 * U64); }
      var now: u64, timestamp: u64 := NULL_U64, 0;
      assert TooOld(period, now, timestamp);
    }
  }

  /**
    For instance, with a period of 2^63 an announcement made 2^63 + 1 ago, well within a period and a half, is ignored.
   */
  lemma LongPeriodIgnoresRecent(c: Consumer, e: Event, attach: Attach)
    requires c.useShm && c.announcePeriod == U64 / 2 && c.joinTime == 1
    requires e == Announce(c.stream, 1, c.expectedLayout, 0, 0, U64 / 2 + 1, 0, attach)
    ensures Step(c, e) == c && Concerns(c, e)
  {
    DivModUnique(3 * (U64 / 2), U64, 1, U64 / 2);
  }

  // ---- Configurations ----

  /** A channel and its stream are assigned together or not at all. */
  predicate Paired(channelLength: nat, stream: nat) { channelLength == 0 <==> stream == 0 }

  predicate Addressed(c: Consumer, e: Event)
    requires e.Config?
  {
    e.id == c.id && Paired(e.descriptorChannel, e.descriptorStream) && Paired(e.controlChannel, e.controlStream)
  }

  /** Whether shared memory is in use after the first n events: what the last configuration for this consumer said. */
  function LastChoice(c: Consumer, es: seq<Event>, n: nat): bool
    requires n <= |es|
  {
    if n == 0 then c.useShm
    else if es[n - 1].Config? && Addressed(c, es[n - 1]) then es[n - 1].useShm
    else LastChoice(c, es, n - 1)
  }

  lemma ChoiceOfStep(c: Consumer, e: Event)
    ensures var c' := Step(c, e);
            && c'.id == c.id && c'.stream == c.stream && c'.expectedLayout == c.expectedLayout
            && c'.announcePeriod == c.announcePeriod
            && c'.useShm == if e.Config? && Addressed(c, e) then e.useShm else c.useShm
  {
  }

  lemma {:induction false} ChoiceIsLastConfiguration(c: Consumer, es: seq<Event>, n: nat)
    requires n <= |es|
    ensures Run(c, es, n).useShm == LastChoice(c, es, n) && Run(c, es, n).id == c.id
  {
    if n > 0 {
      ChoiceIsLastConfiguration(c, es, n - 1);
      ChoiceOfStep(Run(c, es, n - 1), es[n - 1]);
    }
  }

  /**
    A configuration that is not for this consumer, or assigns half a pair, changes nothing; one that turns shared memory
    off unmaps and falls back; one that leaves it on keeps any mapping and ends a fallback.
   */
  lemma ConfigurationOutcome(c: Consumer, e: Event)
    requires e.Config?
    ensures var c' := Step(c, e);
            && (!Addressed(c, e) ==> c' == c)
            && (Addressed(c, e) && !e.useShm ==> !c'.mapped && c'.state == Fallback && c'.mappedEpoch == 0)
            && (Addressed(c, e) && e.useShm ==>
                  c' == c.(useShm := true, state := c'.state)
                      && c'.state == (if c.state.Fallback? then Unmapped else c.state))
  {
  }

  // ---- Descriptors ----

  /** A descriptor of another epoch than the mapped one unmaps; while nothing is mapped descriptors change nothing. */
  lemma DescriptorOutcome(c: Consumer, e: Event)
    requires e.Descriptor?
    ensures !c.mapped ==> Step(c, e) == c
    ensures c.mapped && e.epoch != c.mappedEpoch ==>
          !Step(c, e).mapped && Step(c, e).lastAnnounceEpoch == c.lastAnnounceEpoch
    ensures c.mapped && e.epoch == c.mappedEpoch ==>
              Step(c, e).mapped && Step(c, e).lastSeq == if e.sn > c.lastSeq then e.sn else c.lastSeq
  {
  }

  // ---- Reports ----

  /** The poll reports: there is a publication, a period is set, and there was no report yet or it is a period old. */
  lemma ReportsWhenDue(c: Consumer, e: Event)
    requires e.Report? && c.lastQos <= e.now
    ensures OnReport(c, e).0 <==>
            e.connected && c.announcePeriod > 0 && (c.lastQos == 0 || c.lastQos + c.announcePeriod <= e.now)
    ensures OnReport(c, e).1 == if OnReport(c, e).0 then c.(lastQos := e.now) else c
  {
    InRange(e.now - c.lastQos, U64);
  }

  /** A reading before the last report counts as long after it, unless the period is longer still. */
  lemma ReportsAfterClockWentBack(c: Consumer, e: Event)
    requires e.Report? && e.now < c.lastQos
    ensures OnReport(c, e).0 <==> e.connected && 0 < c.announcePeriod <= U64 - (c.lastQos - e.now)
  {
    DivModUnique(e.now - c.lastQos, U64, -1, U64 + e.now - c.lastQos);
  }

  /** After unmapping the next poll reports at once. */
  lemma ReportsAfterUnmapping(c: Consumer, e: Event)
    requires e.Report?
    ensures OnReport(Unmap(c), e).0 <==> e.connected && c.announcePeriod > 0
  {
  }

  /** Report k of a run is sent. */
  predicate Sent(c: Consumer, es: seq<Event>, k: nat)
    requires k < |es|
  {
    es[k].Report? && OnReport(Run(c, es, k), es[k]).0
  }

  /** Between events j and k nothing unmaps, and the clock of the polls does not go back. */
  ghost predicate Steady(c: Consumer, es: seq<Event>, j: nat, k: nat) {
    && j <= k < |es|
    && (forall i :: j < i <= k ==> Run(c, es, i).lastQos != 0)
    && (forall i, i' :: j <= i <= i' <= k && es[i].Report? && es[i'].Report? ==> es[i].now <= es[i'].now)
  }

  lemma QosOfStep(c: Consumer, e: Event)
    ensures Step(c, e).lastQos in {0, if e.Report? && OnReport(c, e).0 then e.now else c.lastQos}
  {
  }

  /** The last report lies between the first one and the poll's reading. */
  lemma {:induction false} LastReportBetween(c: Consumer, es: seq<Event>, j: nat, k: nat)
    requires j < k && Steady(c, es, j, k) && Sent(c, es, j) && es[k].Report?
    ensures es[j].now <= Run(c, es, k).lastQos <= es[k].now
    decreases k
  {
    LastReportFrom(c, es, j, k, k);
  }

  lemma {:induction false} LastReportFrom(c: Consumer, es: seq<Event>, j: nat, i: nat, k: nat)
    requires j < i <= k && Steady(c, es, j, k) && Sent(c, es, j) && es[k].Report?
    ensures es[j].now <= Run(c, es, i).lastQos <= es[k].now
    decreases i
  {
    QosOfStep(Run(c, es, i - 1), es[i - 1]);
    if i - 1 > j { LastReportFrom(c, es, j, i - 1, k); }
  }

  /** Two reports with no unmapping between them are at least a period apart. */
  lemma ReportsAreSpaced(c: Consumer, es: seq<Event>, j: nat, k: nat)
    requires j < k && Steady(c, es, j, k) && Sent(c, es, j) && Sent(c, es, k)
    ensures es[j].now + c.announcePeriod <= es[k].now
  {
    LastReportBetween(c, es, j, k);
    ReportsWhenDue(Run(c, es, k), es[k]);
    PeriodStays(c, es, k);
  }

  lemma {:induction false} PeriodStays(c: Consumer, es: seq<Event>, n: nat)
    requires n <= |es|
    ensures Run(c, es, n).announcePeriod == c.announcePeriod
  {
    if n > 0 {
      PeriodStays(c, es, n - 1);
      ChoiceOfStep(Run(c, es, n - 1), es[n - 1]);
    }
  }
}
