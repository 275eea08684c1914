/** Readiness from the application of a map on: the terms come from the map, whatever the barrier held before. */
module JoinBarrierMaps {
  import opened Bits
  import opened JoinBarrier
  import opened JoinBarrierHistory
  import opened JoinBarrierTimes
  import opened JoinBarrierLatest

  /**
    What a sequence map brings: its streams and stale timeout, no clock, no lateness; the settings are the caller's.
   */
  function SequenceTerms(before: Barrier, m: SequenceMap): (g: Terms)
    ensures |g.feeds| == |m.rules|
  {
    Terms(before.kind, seq(|m.rules|, i requires 0 <= i < |m.rules| => Feed(m.rules[i].input, 0)), 0, 0,
          m.staleTimeout, before.allowStale, before.requireProcessed, before.ordering)
  }

  /** What a timestamp map brings: its streams and sources, clock, lateness and stale timeout. */
  function TimestampTerms(before: Barrier, m: TimestampMap): (g: Terms)
    ensures |g.feeds| == |m.rules|
  {
    var feeds := seq(|m.rules|, i requires 0 <= i < |m.rules| => Feed(m.rules[i].input, m.rules[i].source));
    Terms(before.kind, feeds, m.clockDomain, if m.lateness == NULL_U64 then 0 else m.lateness,
          m.staleTimeout, before.allowStale, before.requireProcessed, before.ordering)
  }

  /** A map is applied exactly when its rules fit and the barrier is of the kind asked for; else nothing changes. */
  lemma MapsApplyIffTheyFit(before: Barrier, kind: Kind, m: SequenceMap, t: TimestampMap)
    ensures ApplySequenceMap(before, kind, m).0 <==> |m.rules| <= before.capacity && before.kind == kind
    ensures !ApplySequenceMap(before, kind, m).0 ==> ApplySequenceMap(before, kind, m).1 == before
    ensures ApplyTimestampMap(before, kind, t).0 <==> |t.rules| <= before.capacity && before.kind == kind
    ensures !ApplyTimestampMap(before, kind, t).0 ==> ApplyTimestampMap(before, kind, t).1 == before
  {
  }

  /** An applied map clears every input and the remembered out-time, and its terms are the ones in force. */
  lemma AppliedSequenceMap(before: Barrier, kind: Kind, m: SequenceMap)
    requires ApplySequenceMap(before, kind, m).0
    ensures var b := ApplySequenceMap(before, kind, m).1;
            && Fresh(b) && !b.hasLastOutTime && b.kind == kind && TermsOf(b) == SequenceTerms(before, m)
            && b.outStream == m.outStream && b.epoch == m.epoch && b.capacity == before.capacity
            && (kind == Sequence ==> b.sequenceRules == m.rules)
  {
    var b := ApplySequenceMap(before, kind, m).1;
    assert TermsOf(b).feeds == SequenceTerms(before, m).feeds;
  }

  lemma AppliedTimestampMap(before: Barrier, kind: Kind, m: TimestampMap)
    requires ApplyTimestampMap(before, kind, m).0
    ensures var b := ApplyTimestampMap(before, kind, m).1;
            && Fresh(b) && !b.hasLastOutTime && b.kind == kind && TermsOf(b) == TimestampTerms(before, m)
            && b.outStream == m.outStream && b.epoch == m.epoch && b.capacity == before.capacity
            && (kind == Timestamp ==> b.timestampRules == m.rules)
  {
    var b := ApplyTimestampMap(before, kind, m).1;
    assert TermsOf(b).feeds == TimestampTerms(before, m).feeds;
  }

  /** A sequence barrier under an applied map: readiness by the map's terms and rules alone. */
  lemma SequenceMapReadyIffHistory(before: Barrier, m: SequenceMap, us: seq<Update>, out: u64, now: u64)
    requires ApplySequenceMap(before, Sequence, m).0
    ensures var (b, g) := (ApplySequenceMap(before, Sequence, m).1, SequenceTerms(before, m));
            && |Replay(b, us).inputs| == |Replay(b, us).sequenceRules|
            && (SequenceReady(Replay(b, us), out, now) == 1
                <==> |m.rules| > 0 && forall i :: 0 <= i < |m.rules| ==>
                       StaleByHistory(g, i, us, now) || SequenceRuleMet(g, i, us, m.rules[i], out))
  {
    AppliedSequenceMap(before, Sequence, m);
    SequenceReadyIffHistory(ApplySequenceMap(before, Sequence, m).1, us, out, now);
  }

  /** A timestamp barrier under an applied map, with questions and updates in any order. */
  lemma TimestampMapReadyIffHistory(before: Barrier, m: TimestampMap, es: seq<Event>, ask: Event)
    requires ApplyTimestampMap(before, Timestamp, m).0 && ask.Ask?
    ensures var (b, g, us) := (ApplyTimestampMap(before, Timestamp, m).1, TimestampTerms(before, m), Updates(es));
            && WellFormed(b)
            && (Answer(Run(b, es).0, ask).0 == 1 <==>
                && |m.rules| > 0 && (m.clockDomain == 0 || ask.clockDomain == m.clockDomain)
                && !LaterQuestion(g, es, ask.out)
                && forall i :: 0 <= i < |m.rules| ==>
                     StaleByHistory(g, i, us, ask.now) || TimeRuleMet(g, i, us, m.rules[i], ask.out))
  {
    AppliedTimestampMap(before, Timestamp, m);
    TimestampReadyIffHistory(ApplyTimestampMap(before, Timestamp, m).1, es, ask);
  }

  /** A latest-value barrier under a sequence map. */
  lemma LatestOfSequenceMap(before: Barrier, m: SequenceMap, es: seq<Event>, ask: Event)
    requires ApplySequenceMap(before, LatestValue, m).0 && ask.Ask?
    ensures var (b, g) := (ApplySequenceMap(before, LatestValue, m).1, SequenceTerms(before, m));
            && WellFormed(b)
            && (Answer(Run(b, es).0, ask).0 == 1 <==>
                && |m.rules| > 0 && before.ordering != ORDER_TIMESTAMP
                && EachInputMet(g, Updates(es), ask.out, ask.clockDomain, ask.now))
  {
    AppliedSequenceMap(before, LatestValue, m);
    LatestReadyIffHistory(ApplySequenceMap(before, LatestValue, m).1, es, ask);
  }

  /** A latest-value barrier under a timestamp map. */
  lemma LatestOfTimestampMap(before: Barrier, m: TimestampMap, es: seq<Event>, ask: Event)
    requires ApplyTimestampMap(before, LatestValue, m).0 && ask.Ask?
    ensures var (b, g) := (ApplyTimestampMap(before, LatestValue, m).1, TimestampTerms(before, m));
            && WellFormed(b)
            && (Answer(Run(b, es).0, ask).0 == 1 <==>
                && |m.rules| > 0
                && (before.ordering == ORDER_TIMESTAMP ==> m.clockDomain != 0 && !LaterQuestion(g, es, ask.out))
                && EachInputMet(g, Updates(es), ask.out, ask.clockDomain, ask.now))
  {
    AppliedTimestampMap(before, LatestValue, m);
    LatestReadyIffHistory(ApplyTimestampMap(before, LatestValue, m).1, es, ask);
  }

  /** For instance, a lateness of 50 makes out-time 100 ready once 60 was observed, and without it it is not. */
  lemma LatenessIsInForce(before: Barrier, m: TimestampMap, u: Update)
    requires before.kind == Timestamp && before.capacity >= 1 && !before.allowStale && !before.requireProcessed
    requires m == TimestampMap(9, 1, NULL_U64, 0, m.lateness, [TimestampRule(1, RULE_OFFSET, 0, 0, 0)])
    requires m.lateness in {0, 50} && u == ObservedTime(1, 60, 1, 0, 0)
    ensures var b := Replay(ApplyTimestampMap(before, Timestamp, m).1, [u]);
            WellFormed(b) && TimestampReady(b, 100, 0, 1).0 == if m.lateness == 50 then 1 else 0
  {
    var b := ApplyTimestampMap(before, Timestamp, m).1;
    assert Replay(b, [u][..0]) == b;
    assert Replay(b, [u]) == ApplyUpdate(b, u).1;
    var r := Replay(b, [u]);
    SignedSum(100, 0);
    InRange(60 + m.lateness, U64);
    assert TimestampReadyFrom(r.(lastOutTime := 100, hasLastOutTime := true), 100, 1, 1) == 1;
  }
}
