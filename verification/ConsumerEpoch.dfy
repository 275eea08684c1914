/**
  A consumer's mapping: which epoch's regions it reads, when announcements, configurations and descriptors change that,
  and the sequence accounting kept while a mapping lasts.
 */
module ConsumerEpoch {
  import opened Bits

  const CLOCK_MONOTONIC := 1
  const CLOCK_REALTIME_SYNCED := 2
  const FRESHNESS_MULTIPLIER := 3

  datatype State = Unmapped | Mapped | Fallback

  datatype Consumer = Consumer(
    stream: nat,
    id: nat,
    expectedLayout: nat,
    announcePeriod: u64,
    state: State,
    useShm: bool,
    mapped: bool,
    mappedEpoch: u64,
    lastAnnounceEpoch: u64,
    joinTime: u64,
    lastSeq: u64,
    dropsGap: u64,
    dropsLate: u64,
    attachTime: u64,
    lastQos: u64)

  /**
    How an attempt to apply an announcement ends: refused by its checks, or with the regions in one of three states.
   */
  datatype Attach = Refused | Attached(at: u64) | Failed | FellBack

  datatype Event =
    | Announce(stream: nat, epoch: u64, layout: nat, timestamp: u64, clockDomain: nat, now: u64, realtime: u64,
        attach: Attach)
    | Config(id: nat, descriptorChannel: nat, descriptorStream: nat, controlChannel: nat, controlStream: nat,
        useShm: bool)
    | Descriptor(epoch: u64, sn: u64)
    | Report(connected: bool, now: u64) // a poll's turn to report, if there is a publication to report on
    | LateRead // a read of a frame found its slot uncommitted, overwritten or of another lap

  // ---- Specification ----

  function Unmap(c: Consumer): Consumer {
    c.(state := Unmapped, mapped := false, mappedEpoch := 0,
       lastSeq := 0, dropsGap := 0, dropsLate := 0, attachTime := 0, lastQos := 0)
  }

  /** Announced longer ago than the multiple of the period, formed in 64 bits. */
  predicate TooOld(period: u64, now: u64, timestamp: u64) {
    now > timestamp && now - timestamp > (period * FRESHNESS_MULTIPLIER) % U64
  }

  /** The announcement is for this stream and layout, recent enough, and not from before the consumer listened. */
  predicate Usable(c: Consumer, e: Event)
    requires e.Announce?
  {
    var now := if e.clockDomain == CLOCK_REALTIME_SYNCED then e.realtime else e.now;
    && e.stream == c.stream
    && !(e.clockDomain == CLOCK_REALTIME_SYNCED && now == 0)
    && !TooOld(c.announcePeriod, now, e.timestamp)
    && !(e.clockDomain == CLOCK_MONOTONIC && e.timestamp < c.joinTime)
    && (c.expectedLayout == 0 || e.layout == c.expectedLayout)
  }

  function ApplyAnnounce(c: Consumer, epoch: u64, attach: Attach): Consumer {
    match attach
    case Refused => c
    case Attached(at) =>
      Unmap(c).(state := Mapped, mapped := true, mappedEpoch := epoch, lastAnnounceEpoch := epoch, attachTime := at)
    case Failed => Unmap(c)
    case FellBack => Unmap(c).(state := Fallback, lastAnnounceEpoch := epoch)
  }

  function OnAnnounce(c: Consumer, e: Event): Consumer
    requires e.Announce?
  {
    if !c.useShm then c else
      var c := if c.joinTime == 0 then c.(joinTime := e.now) else c;
      if Usable(c, e) then Follow(c, e) else c
  }

  /** A usable announcement: an older epoch unmaps, a newer one replaces the mapping, the same one renews it. */
  function Follow(c: Consumer, e: Event): Consumer
    requires e.Announce?
  {
    if c.mapped && e.epoch < c.mappedEpoch then Unmap(c) else
      var c := if c.mapped && e.epoch != c.mappedEpoch then Unmap(c) else c;
      if c.lastAnnounceEpoch != 0 && e.epoch < c.lastAnnounceEpoch then c else ApplyAnnounce(c, e.epoch, e.attach)
  }

  predicate ConfigAccepted(c: Consumer, e: Event)
    requires e.Config?
  {
    e.id == c.id && (e.descriptorChannel > 0 <==> e.descriptorStream != 0)
        && (e.controlChannel > 0 <==> e.controlStream != 0)
  }

  function OnConfig(c: Consumer, e: Event): Consumer
    requires e.Config?
  {
    if !ConfigAccepted(c, e) then c
    else if !e.useShm then Unmap(c).(useShm := false, state := Fallback)
    else c.(useShm := true, state := if c.state == Fallback then Unmapped else c.state)
  }

  /** The gap count after a descriptor of the mapped epoch. */
  function GapAfter(c: Consumer, sn: u64): u64 {
    if c.lastSeq != 0 && sn > Add64(c.lastSeq, 1) then Add64(c.dropsGap, Sub64(Sub64(sn, c.lastSeq), 1)) else c.dropsGap
  }

  /** A descriptor: whether the handler sees it, and the consumer afterwards. */
  function OnDescriptor(c: Consumer, e: Event): (bool, Consumer)
    requires e.Descriptor?
  {
    if !c.mapped then (false, c)
    else if e.epoch != c.mappedEpoch then (false, Unmap(c))
    else (true, c.(lastSeq := if e.sn > c.lastSeq then e.sn else c.lastSeq, dropsGap := GapAfter(c, e.sn)))
  }

  /** A report is due the first time after unmapping, and then a period after the last one. */
  predicate ReportDue(c: Consumer, e: Event)
    requires e.Report?
  {
    e.connected && c.announcePeriod > 0 && (c.lastQos == 0 || Sub64(e.now, c.lastQos) >= c.announcePeriod)
  }

  function OnReport(c: Consumer, e: Event): (bool, Consumer)
    requires e.Report?
  {
    if ReportDue(c, e) then (true, c.(lastQos := e.now)) else (false, c)
  }

  function OnLateRead(c: Consumer): Consumer {
    if c.useShm && c.mapped then c.(dropsLate := Add64(c.dropsLate, 1)) else c
  }

  function Step(c: Consumer, e: Event): Consumer {
    match e
    case Announce(_, _, _, _, _, _, _, _) => OnAnnounce(c, e)
    case Config(_, _, _, _, _, _) => OnConfig(c, e)
    case Descriptor(_, _) => OnDescriptor(c, e).1
    case Report(_, _) => OnReport(c, e).1
    case LateRead => OnLateRead(c)
  }

  // ---- The consumer as an object ----

  class ConsumerState {
    const stream: nat
    const id: nat
    const expectedLayout: nat
    const announcePeriod: u64
    var state: State
    var useShm: bool
    var mapped: bool
    var mappedEpoch: u64
    var lastAnnounceEpoch: u64
    var joinTime: u64
    var lastSeq: u64
    var dropsGap: u64
    var dropsLate: u64
    var attachTime: u64
    var lastQos: u64

    ghost function View(): Consumer
      reads this
    {
      Consumer(stream, id, expectedLayout, announcePeriod, state, useShm, mapped, mappedEpoch, lastAnnounceEpoch,
               joinTime, lastSeq, dropsGap, dropsLate, attachTime, lastQos)
    }

    constructor (stream: nat, id: nat, expectedLayout: nat, announcePeriod: u64)
      ensures View() == Consumer(stream, id, expectedLayout, announcePeriod, Unmapped, true, false, 0, 0, 0, 0, 0, 0,
            0, 0)
    {
      this.stream, this.id, this.expectedLayout, this.announcePeriod := stream, id, expectedLayout, announcePeriod;
      state, useShm, mapped, mappedEpoch := Unmapped, true, false, 0;
      lastAnnounceEpoch, joinTime, lastSeq, dropsGap, dropsLate, attachTime, lastQos := 0, 0, 0, 0, 0, 0, 0;
    }

    method UnmapRegions()
      modifies this
      ensures View() == Unmap(old(View()))
    {
      state, mapped, mappedEpoch, attachTime := Unmapped, false, 0, 0;
      lastSeq, dropsGap, dropsLate, lastQos := 0, 0, 0, 0;
    }

    method EnterFallback()
      modifies this
      ensures View() == Unmap(old(View())).(state := Fallback)
    {
      UnmapRegions();
      state := Fallback;
    }

    /** Mapping the announced regions; how that goes is the caller's choice here. */
    method Apply(epoch: u64, attach: Attach) returns (ok: bool)
      modifies this
      ensures ok <==> attach.Attached? || attach.FellBack?
      ensures if ok then View().(lastAnnounceEpoch := epoch) == ApplyAnnounce(old(View()), epoch, attach)
              else View() == ApplyAnnounce(old(View()), epoch, attach)
    {
      if attach == Refused { return false; }
      UnmapRegions();
      if attach == Failed { return false; }
      if attach == FellBack {
        EnterFallback();
        return true;
      }
      state, mapped, mappedEpoch, attachTime, lastAnnounceEpoch := Mapped, true, epoch, attach.at, epoch;
      lastSeq, dropsGap, dropsLate, lastQos := 0, 0, 0, 0;
      ok := true;
    }

    method CheckAnnounce(e: Event) returns (usable: bool)
      requires e.Announce?
      ensures usable == Usable(View(), e)
    {
      if e.stream != stream { return false; }
      var freshness := (announcePeriod * FRESHNESS_MULTIPLIER) % U64;
      var announceNow := e.now;
      if e.clockDomain == CLOCK_REALTIME_SYNCED {
        announceNow := e.realtime;
        if announceNow == 0 { return false; }
      }
      if announceNow > e.timestamp && announceNow - e.timestamp > freshness { return false; }
      if e.clockDomain == CLOCK_MONOTONIC && e.timestamp < joinTime { return false; }
      usable := expectedLayout == 0 || e.layout == expectedLayout;
    }

    method FollowAnnounce(e: Event)
      requires e.Announce?
      modifies this
      ensures View() == Follow(old(View()), e)
    {
      if mapped && e.epoch != mappedEpoch {
        if e.epoch < mappedEpoch {
          UnmapRegions();
          return;
        }
        UnmapRegions();
      }
      if lastAnnounceEpoch != 0 && e.epoch < lastAnnounceEpoch { return; }
      var ok := Apply(e.epoch, e.attach);
      if ok { lastAnnounceEpoch := e.epoch; }
    }

    method HandleAnnounce(e: Event)
      requires e.Announce?
      modifies this
      ensures View() == OnAnnounce(old(View()), e)
    {
      if !useShm { return; }
      if joinTime == 0 { joinTime := e.now; }
      var usable := CheckAnnounce(e);
      if usable { FollowAnnounce(e); }
    }

    method HandleConfig(e: Event)
      requires e.Config?
      modifies this
      ensures View() == OnConfig(old(View()), e)
    {
      if e.id != id { return; }
      if e.descriptorChannel > 0 && e.descriptorStream == 0 { return; }
      if e.descriptorChannel == 0 && e.descriptorStream != 0 { return; }
      if e.controlChannel > 0 && e.controlStream == 0 { return; }
      if e.controlChannel == 0 && e.controlStream != 0 { return; }
      useShm := e.useShm;
      if !useShm {
        EnterFallback();
      } else if state == Fallback {
        state := Unmapped;
      }
    }

    method HandleDescriptor(e: Event) returns (delivered: bool)
      requires e.Descriptor?
      modifies this
      ensures (delivered, View()) == OnDescriptor(old(View()), e)
    {
      if !mapped { return false; }
      if mappedEpoch != e.epoch {
        UnmapRegions();
        return false;
      }
      if lastSeq != 0 && e.sn > Add64(lastSeq, 1) {
        dropsGap := Add64(dropsGap, Sub64(Sub64(e.sn, lastSeq), 1));
      }
      if e.sn > lastSeq { lastSeq := e.sn; }
      delivered := true;
    }

    /** The reporting part of a poll. */
    method ReportIfDue(e: Event) returns (sent: bool)
      requires e.Report?
      modifies this
      ensures (sent, View()) == OnReport(old(View()), e)
    {
      sent := false;
      if e.connected && announcePeriod > 0 {
        if lastQos == 0 || Sub64(e.now, lastQos) >= announcePeriod {
          lastQos := e.now;
          sent := true;
        }
      }
    }

    /** The drop counter of a read that came too late. */
    method CountLateRead()
      modifies this
      ensures View() == OnLateRead(old(View()))
    {
      if !useShm { return; }
      if !mapped { return; }
      dropsLate := Add64(dropsLate, 1);
    }
  }

  // ---- Runs ----

  /** A consumer not yet mapped, as created or after anything that unmapped it. */
  predicate Start(c: Consumer) { c == Unmap(c) && c.useShm && c.lastAnnounceEpoch == 0 }

  /** The consumer after the first n events. */
  function Run(c: Consumer, es: seq<Event>, n: nat): Consumer
    requires n <= |es|
  {
    if n == 0 then c else Step(Run(c, es, n - 1), es[n - 1])
  }

  predicate Inv(c: Consumer) {
    && (c.mapped <==> c.state == Mapped)
    && (c.mapped ==> c.useShm && c.mappedEpoch == c.lastAnnounceEpoch)
    && (!c.mapped ==> c.mappedEpoch == 0 && c.lastSeq == 0 && c.dropsGap == 0 && c.dropsLate == 0 && c.attachTime == 0)
  }

  lemma StepKeepsInv(c: Consumer, e: Event)
    requires Inv(c)
    ensures Inv(Step(c, e)) && c.lastAnnounceEpoch <= Step(c, e).lastAnnounceEpoch
  {
  }

  /** Whenever regions are mapped, shared memory is in use and the mapped epoch is the last one adopted. */
  lemma {:induction false} MappedEpochIsLastAdopted(c: Consumer, es: seq<Event>, n: nat)
    requires Start(c) && n <= |es|
    ensures Inv(Run(c, es, n))
  {
    if n > 0 {
      MappedEpochIsLastAdopted(c, es, n - 1);
      StepKeepsInv(Run(c, es, n - 1), es[n - 1]);
    }
  }

  lemma {:induction false} LastAdoptedGrows(c: Consumer, es: seq<Event>, j: nat, k: nat)
    requires Start(c) && j <= k <= |es|
    ensures Run(c, es, j).lastAnnounceEpoch <= Run(c, es, k).lastAnnounceEpoch
  {
    if j < k {
      LastAdoptedGrows(c, es, j, k - 1);
      AdoptedByStep(c, es, k);
    }
  }

  lemma AdoptedByStep(c: Consumer, es: seq<Event>, k: nat)
    requires Start(c) && 0 < k <= |es|
    ensures Run(c, es, k - 1).lastAnnounceEpoch <= Run(c, es, k).lastAnnounceEpoch
  {
    MappedEpochIsLastAdopted(c, es, k - 1);
    StepKeepsInv(Run(c, es, k - 1), es[k - 1]);
  }

  /** Adopted epochs never go back, whatever was unmapped in between. */
  lemma MappedEpochsNeverDecrease(c: Consumer, es: seq<Event>, j: nat, k: nat)
    requires Start(c) && j <= k <= |es| && Run(c, es, j).mapped && Run(c, es, k).mapped
    ensures Run(c, es, j).mappedEpoch <= Run(c, es, k).mappedEpoch
  {
    MappedEpochIsLastAdopted(c, es, j);
    MappedEpochIsLastAdopted(c, es, k);
    LastAdoptedGrows(c, es, j, k);
  }

  /** A delivered descriptor belongs to the epoch last adopted, and that epoch's regions are mapped. */
  lemma DeliveredMeansMappedEpoch(c: Consumer, es: seq<Event>, k: nat)
    requires Start(c) && k < |es| && es[k].Descriptor?
    ensures OnDescriptor(Run(c, es, k), es[k]).0 <==> Run(c, es, k).mapped && es[k].epoch == Run(c, es, k).mappedEpoch
    ensures OnDescriptor(Run(c, es, k), es[k]).0 ==>
              es[k].epoch == Run(c, es, k).lastAnnounceEpoch && Run(c, es, k).useShm && Run(c, es, k).state == Mapped
  {
    MappedEpochIsLastAdopted(c, es, k);
  }

  // ---- Sequence accounting over one mapping ----

  /** The largest sequence number among the descriptors in [m, n); 0 when there is none. */
  function Largest(es: seq<Event>, m: nat, n: nat): u64
    requires m <= n <= |es|
  {
    if n == m then 0 else
      var l := Largest(es, m, n - 1);
      if es[n - 1].Descriptor? && es[n - 1].sn > l then es[n - 1].sn else l
  }

  /** The first nonzero one. */
  function First(es: seq<Event>, m: nat, n: nat): u64
    requires m <= n <= |es|
  {
    if n == m then 0 else
      var f := First(es, m, n - 1);
      if f == 0 && es[n - 1].Descriptor? then es[n - 1].sn else f
  }

  /** How many descriptors were larger than everything before them. */
  function Advancing(es: seq<Event>, m: nat, n: nat): nat
    requires m <= n <= |es|
  {
    if n == m then 0 else
      Advancing(es, m, n - 1) + if es[n - 1].Descriptor? && es[n - 1].sn > Largest(es, m, n - 1) then 1 else 0
  }

  /** The event leaves the mapping in place; a descriptor must then be of the mapped epoch. */
  predicate KeepsMapping(c: Consumer, e: Event) {
    && c.mapped
    && if e.Descriptor? then e.epoch == c.mappedEpoch
       else
         || e.LateRead?
         || var c' := Step(c, e); c' == c.(joinTime := c'.joinTime, useShm := c'.useShm, lastQos := c'.lastQos)
  }

  /** A mapping that begins before event m, with nothing counted yet, and lasts up to event n. */
  ghost predicate OneMapping(c: Consumer, es: seq<Event>, m: nat, n: nat) {
    && m <= n <= |es| && Run(c, es, m).mapped
    && Run(c, es, m).lastSeq == 0 && Run(c, es, m).dropsGap == 0 && Run(c, es, m).dropsLate == 0
    && forall k :: m <= k < n ==> KeepsMapping(Run(c, es, k), es[k])
  }

  /** What was skipped: the numbers from the first to the largest, less those that advanced it. */
  function Skipped(es: seq<Event>, m: nat, n: nat): int
    requires m <= n <= |es|
  {
    if Largest(es, m, n) == 0 then 0 else Largest(es, m, n) - First(es, m, n) + 1 - Advancing(es, m, n)
  }

  /** The sum of the numbers that came after the largest of all, 2^64 - 1. */
  function AfterMaximum(es: seq<Event>, m: nat, n: nat): nat
    requires m <= n <= |es|
  {
    if n == m then 0 else
      var late := es[n - 1].Descriptor? && Largest(es, m, n - 1) == NULL_U64;
      AfterMaximum(es, m, n - 1) + if late then es[n - 1].sn else 0
  }

  /** What an event that keeps the mapping does to its counters. */
  predicate Counted(c: Consumer, e: Event, c': Consumer) {
    && c'.mapped
    && c'.lastSeq == (if e.Descriptor? && e.sn > c.lastSeq then e.sn else c.lastSeq)
    && c'.dropsGap == (if e.Descriptor? then GapAfter(c, e.sn) else c.dropsGap)
    && (c.useShm ==> c'.dropsLate == if e.LateRead? then Add64(c.dropsLate, 1) else c.dropsLate)
  }

  lemma KeptIsCounted(c: Consumer, e: Event)
    requires KeepsMapping(c, e)
    ensures Counted(c, e, Step(c, e))
  {
  }

  /** The states a run passes through. */
  function States(c: Consumer, es: seq<Event>): (r: seq<Consumer>)
    ensures |r| == |es| + 1
  {
    seq(|es| + 1, k requires 0 <= k <= |es| => Run(c, es, k))
  }

  /** Counters that start at zero at event m and follow the events up to n. */
  ghost predicate CountedRun(r: seq<Consumer>, es: seq<Event>, m: nat, n: nat) {
    && m <= n <= |es| && |r| == |es| + 1
    && r[m].mapped && r[m].lastSeq == 0 && r[m].dropsGap == 0 && r[m].dropsLate == 0
    && forall k :: m <= k < n ==> Counted(r[k], es[k], r[k + 1])
  }

  lemma MappingIsCounted(c: Consumer, es: seq<Event>, m: nat, n: nat)
    requires OneMapping(c, es, m, n)
    ensures CountedRun(States(c, es), es, m, n)
  {
    forall k | m <= k < n ensures Counted(States(c, es)[k], es[k], States(c, es)[k + 1]) {
      KeptIsCounted(Run(c, es, k), es[k]);
    }
  }

  /**
    Over one mapping the gap count is what was skipped plus, in 64 bits, whatever came after the largest number of all.
   */
  lemma GapsAreConserved(c: Consumer, es: seq<Event>, m: nat, n: nat)
    requires OneMapping(c, es, m, n)
    ensures var c' := Run(c, es, n);
            c'.mapped && c'.lastSeq == Largest(es, m, n) && c'.dropsGap == Accounted(es, m, n)
  {
    MappingIsCounted(c, es, m, n);
    GapsAlong(States(c, es), es, m, n);
  }

  /** The numbers skipped, and whatever came after the largest of all, in 64 bits. */
  function Accounted(es: seq<Event>, m: nat, n: nat): u64
    requires m <= n <= |es|
  {
    (Skipped(es, m, n) + AfterMaximum(es, m, n)) % U64
  }

  lemma {:induction false} GapsAlong(r: seq<Consumer>, es: seq<Event>, m: nat, n: nat)
    requires CountedRun(r, es, m, n)
    ensures r[n].mapped && r[n].lastSeq == Largest(es, m, n) && r[n].dropsGap == Accounted(es, m, n)
  {
    if n == m {
      InRange(0, U64);
    } else {
      GapsAlong(r, es, m, n - 1);
      AccountedStep(r[n - 1], es, m, n);
    }
  }

  lemma AccountedStep(c: Consumer, es: seq<Event>, m: nat, n: nat)
    requires m < n <= |es| && c.lastSeq == Largest(es, m, n - 1) && c.dropsGap == Accounted(es, m, n - 1)
    ensures Accounted(es, m, n) == if es[n - 1].Descriptor? then GapAfter(c, es[n - 1].sn) else c.dropsGap
  {
    NumbersCounted(es, m, n - 1);
    AdvanceCounts(es, m, n);
    if es[n - 1].Descriptor? { CountStep(c, es[n - 1].sn, Skipped(es, m, n - 1), AfterMaximum(es, m, n - 1)); }
  }

  lemma {:induction false} NumbersCounted(es: seq<Event>, m: nat, n: nat)
    requires m <= n <= |es|
    ensures First(es, m, n) <= Largest(es, m, n) && (Largest(es, m, n) == 0 <==> First(es, m, n) == 0)
    ensures 0 <= Skipped(es, m, n) < U64 && (Largest(es, m, n) == 0 ==> Advancing(es, m, n) == 0)
    ensures Largest(es, m, n) < NULL_U64 ==> AfterMaximum(es, m, n) == 0
  {
    if n > m {
      NumbersCounted(es, m, n - 1);
      AdvanceCounts(es, m, n);
    }
  }

  /** One descriptor, from x skipped and y after the maximum. */
  lemma CountStep(c: Consumer, sn: u64, x: nat, y: nat)
    requires c.dropsGap == (x + y) % U64 && x < U64 && (c.lastSeq < NULL_U64 ==> y == 0)
    requires 0 < c.lastSeq < sn ==> x + sn - c.lastSeq - 1 < U64
    ensures GapAfter(c, sn) == (x + (if 0 < c.lastSeq < sn then sn - c.lastSeq - 1 else 0)
                                  + (y + if c.lastSeq == NULL_U64 then sn else 0)) % U64
  {
    if c.lastSeq == NULL_U64 {
      GapAtMaximum(c, sn);
      SumResidue(x + y, sn);
    } else {
      InRange(x, U64);
      GapBelowMaximum(c, sn);
      if 0 < c.lastSeq < sn { InRange(x + sn - c.lastSeq - 1, U64); }
    }
  }

  /** One more event: what it adds to the numbers skipped. */
  lemma AdvanceCounts(es: seq<Event>, m: nat, n: nat)
    requires m < n <= |es|
    requires var (l, f) := (Largest(es, m, n - 1), First(es, m, n - 1)); f <= l && (l == 0 <==> f == 0)
    requires 0 <= Skipped(es, m, n - 1) < U64 && (Largest(es, m, n - 1) == 0 ==> Advancing(es, m, n - 1) == 0)
    ensures var (l, l') := (Largest(es, m, n - 1), Largest(es, m, n));
            Skipped(es, m, n) == Skipped(es, m, n - 1) + if 0 < l < l' then l' - l - 1 else 0
    ensures var (l, f) := (Largest(es, m, n), First(es, m, n)); f <= l && (l == 0 <==> f == 0)
    ensures 0 <= Skipped(es, m, n) < U64 && (Largest(es, m, n) == 0 ==> Advancing(es, m, n) == 0)
  {
  }

  lemma SumResidue(x: nat, y: nat)
    ensures (x % U64 + y) % U64 == (x + y) % U64
  {
    var q, r := (x % U64 + y) / U64, (x % U64 + y) % U64;
    DivModUnique(x + y, U64, x / U64 + q, r);
  }

  /** The gap count is exactly what was skipped if and only if what came after the largest number of all sums to 0. */
  lemma GapCountIsSkippedIffNothingAfterMaximum(c: Consumer, es: seq<Event>, m: nat, n: nat)
    requires OneMapping(c, es, m, n)
    ensures Run(c, es, n).dropsGap == Skipped(es, m, n) <==> AfterMaximum(es, m, n) % U64 == 0
    ensures Largest(es, m, n) < NULL_U64 ==> Run(c, es, n).dropsGap == Skipped(es, m, n)
  {
    GapsAreConserved(c, es, m, n);
    AccountedIsSkippedIff(es, m, n);
  }

  lemma AccountedIsSkippedIff(es: seq<Event>, m: nat, n: nat)
    requires m <= n <= |es|
    ensures Accounted(es, m, n) == Skipped(es, m, n) <==> AfterMaximum(es, m, n) % U64 == 0
    ensures Largest(es, m, n) < NULL_U64 ==> Accounted(es, m, n) == Skipped(es, m, n)
  {
    var a, x, y := Accounted(es, m, n), Skipped(es, m, n), AfterMaximum(es, m, n);
    assert 0 <= x < U64 && (Largest(es, m, n) < NULL_U64 ==> y == 0) by { NumbersCounted(es, m, n); }
    assert (a == x <==> y % U64 == 0) && (y == 0 ==> a == x) by { SameResidueIff(a, x, y); }
  }

  lemma SameResidueIff(a: nat, x: nat, y: nat)
    requires x < U64 && a == (x + y) % U64
    ensures (a == x <==> y % U64 == 0) && (y == 0 ==> a == x)
  {
    var r := y % U64;
    SumResidue(y, x);
    if x + r < U64 { InRange(x + r, U64); } else { DivModUnique(x + r, U64, 1, x + r - U64); }
  }

  /** How many reads of a mapping came too late. */
  function LateReads(es: seq<Event>, m: nat, n: nat): nat
    requires m <= n <= |es|
  {
    if n == m then 0 else LateReads(es, m, n - 1) + if es[n - 1].LateRead? then 1 else 0
  }

  /** Over one mapping the late counter counts exactly them, in 64 bits. */
  lemma LateReadsAreCounted(c: Consumer, es: seq<Event>, m: nat, n: nat)
    requires Start(c) && OneMapping(c, es, m, n)
    ensures Run(c, es, n).mapped && Run(c, es, n).dropsLate == LateReads(es, m, n) % U64
  {
    MappingIsCounted(c, es, m, n);
    forall k | 0 <= k <= |es| ensures States(c, es)[k].mapped ==> States(c, es)[k].useShm {
      MappedEpochIsLastAdopted(c, es, k);
    }
    LateReadsAlong(States(c, es), es, m, n);
  }

  lemma {:induction false} LateReadsAlong(r: seq<Consumer>, es: seq<Event>, m: nat, n: nat)
    requires CountedRun(r, es, m, n) && forall k :: 0 <= k <= |es| && r[k].mapped ==> r[k].useShm
    ensures r[n].mapped && r[n].dropsLate == LateReads(es, m, n) % U64
  {
    if n == m {
      InRange(0, U64);
    } else {
      LateReadsAlong(r, es, m, n - 1);
      SumResidue(LateReads(es, m, n - 1), 1);
    }
  }

  /** What a descriptor adds to the gap count before the largest number of all was seen. */
  lemma GapBelowMaximum(c: Consumer, sn: u64)
    requires c.lastSeq < NULL_U64
    ensures 0 < c.lastSeq < sn && c.dropsGap + sn - c.lastSeq - 1 < U64 ==>
          GapAfter(c, sn) == c.dropsGap + (sn - c.lastSeq - 1)
    ensures c.lastSeq == 0 || c.lastSeq >= sn ==> GapAfter(c, sn) == c.dropsGap
  {
    InRange(c.lastSeq + 1, U64);
    if sn > c.lastSeq {
      InRange(sn - c.lastSeq, U64);
      InRange(sn - c.lastSeq - 1, U64);
      if c.dropsGap + sn - c.lastSeq - 1 < U64 { InRange(c.dropsGap + sn - c.lastSeq - 1, U64); }
    }
  }

  /**
    The largest sequence number is the one exception: after it, a lower one is counted as a gap. A descriptor that
    does not advance leaves the gap count alone exactly when the last number was not 2^64 - 1, or it is 0 itself.
   */
  lemma NoGapWithoutAdvanceIffNotAtMaximum(c: Consumer, e: Event)
    requires c.mapped && e.Descriptor? && e.epoch == c.mappedEpoch && e.sn <= c.lastSeq
    ensures OnDescriptor(c, e).1.dropsGap == c.dropsGap <==> c.lastSeq != NULL_U64 || e.sn == 0
  {
    if c.lastSeq < NULL_U64 {
      GapBelowMaximum(c, e.sn);
    } else {
      GapAtMaximum(c, e.sn);
      if c.dropsGap + e.sn < U64 { InRange(c.dropsGap + e.sn, U64); }
      else { DivModUnique(c.dropsGap + e.sn, U64, 1, c.dropsGap + e.sn - U64); }
    }
  }

  /** After the largest number of all, every number is added whole. */
  lemma GapAtMaximum(c: Consumer, sn: u64)
    requires c.lastSeq == NULL_U64
    ensures GapAfter(c, sn) == (c.dropsGap + sn) % U64
  {
    DivModUnique(NULL_U64 + 1, U64, 1, 0);
    if sn == 0 {
      InRange(c.dropsGap, U64);
    } else if sn == NULL_U64 {
      InRange(0, U64);
      DivModUnique(-1, U64, -1, NULL_U64);
    } else {
      DivModUnique(sn - NULL_U64, U64, -1, sn + 1);
      InRange(sn, U64);
    }
  }

  /** For instance, after the largest number a late descriptor numbered 7 adds 7 to the gap count. */
  lemma LateDescriptorCountedAsGap(c: Consumer, e: Event)
    requires c.mapped && c.lastSeq == NULL_U64 && c.dropsGap == 0 && e == Descriptor(c.mappedEpoch, 7)
    ensures OnDescriptor(c, e).1.lastSeq == NULL_U64 && OnDescriptor(c, e).1.dropsGap == 7
  {
    DivModUnique(NULL_U64 + 1, U64, 1, 0);
    DivModUnique(7 - NULL_U64, U64, -1, 8);
  }
}
