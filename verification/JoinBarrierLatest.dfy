/** Latest-value barriers: readiness by history, and what collecting then returns. */
module JoinBarrierLatest {
  import opened Bits
  import opened JoinBarrier
  import opened JoinBarrierHistory
  import JoinBarrierTimes

  /** The last event on an input that matters to it is an advancing observation, not an invalidation. */
  ghost predicate CurrentByHistory(g: Terms, i: nat, us: seq<Update>)
    requires i < |g.feeds|
  {
    && us != []
    && var u := us[|us| - 1];
       if u.Invalidate? && Follows(g, i, u.stream) then false
       else Advances(g, i, SeenSeq, us) || Advances(g, i, SeenTime, us) || CurrentByHistory(g, i, us[..|us| - 1])
  }

  /** Position k holds the first sequence number offered to input i. */
  ghost predicate FirstOffer(g: Terms, i: nat, us: seq<Update>, k: nat)
    requires i < |g.feeds| && k < |us|
  {
    Offers(g, i, SeenSeq, us[k]) && forall j :: 0 <= j < k ==> !Offers(g, i, SeenSeq, us[j])
  }

  /** What an update does to the fields only latest-value barriers read. */
  lemma UpdateValidity(b: Barrier, s: Input, u: Update)
    ensures var s' := UpdateInput(b, s, u).1;
            && (s'.latestValid <==>
                 !u.Invalidate? && (s.latestValid
                   || (OffersTo(b.clockDomain, s.source, SeenSeq, u)
                       && !(s.hasObservedSeq && s.observedSeq >= u.value + 1))
                   || (OffersTo(b.clockDomain, s.source, SeenTime, u)
                       && !(s.hasObservedTime && s.observedTime >= u.value + 1))))
            && (if OffersTo(b.clockDomain, s.source, SeenSeq, u) && !s.hasObservedSeq && !s.hasMinSeq then
                  s'.hasMinSeq && s'.minSeq == u.value
                else if s.hasMinSeq || !OffersTo(b.clockDomain, s.source, SeenSeq, u) then
                  s'.hasMinSeq == s.hasMinSeq && s'.minSeq == s.minSeq
                else true)
  {
  }

  lemma {:induction false} ValidityFromHistory(b: Barrier, us: seq<Update>, i: nat)
    requires Fresh(b) && i < |b.inputs|
    ensures SameSetup(b, Replay(b, us))
    ensures Replay(b, us).inputs[i].latestValid <==> CurrentByHistory(TermsOf(b), i, us)
  {
    ReplayKeepsSetup(b, us);
    if us != [] {
      var front, u := us[..|us| - 1], us[|us| - 1];
      ValidityFromHistory(b, front, i);
      ReplayStep(b, us, i);
      UpdateValidity(b, Replay(b, front).inputs[i], u);
      if !u.Invalidate? {
        StateIsRunningMax(b, front, i, SeenSeq, u.value + 1);
        StateIsRunningMax(b, front, i, SeenTime, u.value + 1);
      }
    }
  }

  /**
    The first sequence number of the map's life: set exactly when one was observed, and never above the running maximum.
   */
  lemma {:induction false} FirstSequenceBelowObserved(b: Barrier, us: seq<Update>, i: nat)
    requires Fresh(b) && i < |b.inputs|
    ensures SameSetup(b, Replay(b, us))
    ensures var s := Replay(b, us).inputs[i];
            && s.hasMinSeq == s.hasObservedSeq
            && (s.hasMinSeq ==> s.minSeq <= s.observedSeq)
            && (!s.hasObservedTime ==> s.observedTime == 0)
  {
    ReplayKeepsSetup(b, us);
    if us != [] {
      var front, u := us[..|us| - 1], us[|us| - 1];
      var s := Replay(b, front).inputs[i];
      FirstSequenceBelowObserved(b, front, i);
      ReplayStep(b, us, i);
      UpdateValidity(b, s, u);
      UpdateTakesLarger(b, s, SeenSeq, u);
      UpdateTakesLarger(b, s, SeenTime, u);
    }
  }

  lemma {:induction false} FirstSequenceIsFirstOffer(b: Barrier, us: seq<Update>, i: nat)
    requires Fresh(b) && i < |b.inputs|
    ensures SameSetup(b, Replay(b, us))
    ensures var s := Replay(b, us).inputs[i];
            s.hasMinSeq ==> exists k :: 0 <= k < |us| && FirstOffer(TermsOf(b), i, us, k) && us[k].value == s.minSeq
  {
    ReplayKeepsSetup(b, us);
    if us != [] {
      var front, u := us[..|us| - 1], us[|us| - 1];
      var s := Replay(b, front).inputs[i];
      FirstSequenceIsFirstOffer(b, front, i);
      FirstSequenceBelowObserved(b, front, i);
      ReplayStep(b, us, i);
      UpdateValidity(b, s, u);
      if s.hasMinSeq {
        var k :| 0 <= k < |front| && FirstOffer(TermsOf(b), i, front, k) && front[k].value == s.minSeq;
        FirstOfferLasts(TermsOf(b), i, us, k);
      } else if Offers(TermsOf(b), i, SeenSeq, u) {
        RunningMaximum(b, front, i, SeenSeq);
        assert FirstOffer(TermsOf(b), i, us, |us| - 1);
      }
    }
  }

  lemma FirstOfferLasts(g: Terms, i: nat, us: seq<Update>, k: nat)
    requires i < |g.feeds| && k < |us| - 1 && FirstOffer(g, i, us[..|us| - 1], k)
    ensures FirstOffer(g, i, us, k)
  {
    forall j | 0 <= j < k ensures !Offers(g, i, SeenSeq, us[j]) {
      assert us[j] == us[..|us| - 1][j];
    }
  }

  lemma {:induction false} EveryLatestInput(b: Barrier, out: u64, clockDomain: nat, now: u64, i: nat)
    requires i <= |b.inputs|
    ensures LatestReadyFrom(b, out, clockDomain, now, i) == 1
       <==> forall j :: i <= j < |b.inputs| ==>
              IsStale(b, b.inputs[j], now) || LatestInputReady(b, b.inputs[j], out, clockDomain) == 1
    decreases |b.inputs| - i
  {
    if i < |b.inputs| {
      EveryLatestInput(b, out, clockDomain, now, i + 1);
    }
  }

  /** What a latest-value barrier asks of one input's history. */
  ghost predicate LatestInputMet(g: Terms, i: nat, us: seq<Update>, out: u64, clockDomain: nat)
    requires i < |g.feeds|
  {
    && (g.clockDomain == 0 || clockDomain == g.clockDomain)
    && CurrentByHistory(g, i, us)
    && Reached(g, i, SeenSeq, us, 0)
    && (g.ordering == ORDER_TIMESTAMP ==> g.feeds[i].source != 0)
    && (g.ordering == ORDER_TIMESTAMP || g.clockDomain != 0 ==> Reached(g, i, SeenTime, us, 0))
    && (Reached(g, i, SeenTime, us, 1) ==> out > 0)
  }

  lemma LatestInputFromHistory(b: Barrier, us: seq<Update>, r: Barrier, i: nat, out: u64, clockDomain: nat)
    requires Fresh(b) && i < |b.inputs| && JoinBarrierTimes.SameButOutTime(r, Replay(b, us))
    ensures |r.inputs| == |b.inputs|
    ensures LatestInputReady(r, r.inputs[i], out, clockDomain) == 1
          <==> LatestInputMet(TermsOf(b), i, us, out, clockDomain)
  {
    ReplayKeepsSetup(b, us);
    ValidityFromHistory(b, us, i);
    FirstSequenceBelowObserved(b, us, i);
    StateIsRunningMax(b, us, i, SeenSeq, 0);
    StateIsRunningMax(b, us, i, SeenTime, 0);
    StateIsRunningMax(b, us, i, SeenTime, 1);
  }

  /** Every input is stale or has what the barrier asks of it. */
  ghost predicate EachInputMet(g: Terms, us: seq<Update>, out: u64, clockDomain: nat, now: u64) {
    forall i :: 0 <= i < |g.feeds| ==> StaleByHistory(g, i, us, now) || LatestInputMet(g, i, us, out, clockDomain)
  }

  /**
    A latest-value barrier answers 1 exactly when every input that is not stale is current and, under timestamp
    ordering, no later out-time was asked about before; its other guards are redundant.
   */
  lemma LatestReadyIffHistory(b: Barrier, es: seq<JoinBarrierTimes.Event>, ask: JoinBarrierTimes.Event)
    requires Fresh(b) && b.kind == LatestValue && !b.hasLastOutTime && ask.Ask?
    ensures var us := JoinBarrierTimes.Updates(es);
            JoinBarrierTimes.Answer(JoinBarrierTimes.Run(b, es).0, ask).0 == 1 <==>
            && |b.inputs| > 0
            && (b.ordering == ORDER_TIMESTAMP ==>
                  b.clockDomain != 0 && !JoinBarrierTimes.LaterQuestion(TermsOf(b), es, ask.out))
            && EachInputMet(TermsOf(b), us, ask.out, ask.clockDomain, ask.now)
  {
    var us, r := JoinBarrierTimes.Updates(es), JoinBarrierTimes.Run(b, es).0;
    JoinBarrierTimes.RunIsReplay(b, es);
    ReplayKeepsSetup(b, us);
    if JoinBarrierTimes.ComparesTimes(b) { JoinBarrierTimes.RegressionIffLaterQuestion(b, es, ask.out); }
    var r' := if b.ordering == ORDER_TIMESTAMP then r.(lastOutTime := ask.out, hasLastOutTime := true) else r;
    assert r.kind == b.kind && r.ordering == b.ordering && r.clockDomain == b.clockDomain && |r.inputs| == |b.inputs|;
    assert b.ordering == ORDER_TIMESTAMP && b.clockDomain != 0 && |b.inputs| > 0 ==>
             (JoinBarrierTimes.RemembersLater(r, ask.out) <==> JoinBarrierTimes.LaterQuestion(TermsOf(b), es, ask.out));
    EachInputByHistory(b, us, r', ask.out, ask.clockDomain, ask.now);
  }

  lemma EachInputByHistory(b: Barrier, us: seq<Update>, r: Barrier, out: u64, clockDomain: nat, now: u64)
    requires Fresh(b) && JoinBarrierTimes.SameButOutTime(r, Replay(b, us))
    ensures |r.inputs| == |b.inputs|
    ensures LatestReadyFrom(r, out, clockDomain, now, 0) == 1 <==> EachInputMet(TermsOf(b), us, out, clockDomain, now)
  {
    ReplayKeepsSetup(b, us);
    EveryLatestInput(r, out, clockDomain, now, 0);
    forall i | 0 <= i < |b.inputs|
      ensures IsStale(r, r.inputs[i], now) <==> StaleByHistory(TermsOf(b), i, us, now)
      ensures LatestInputReady(r, r.inputs[i], out, clockDomain) == 1
            <==> LatestInputMet(TermsOf(b), i, us, out, clockDomain)
    {
      StalenessFromHistory(b, us, i, now);
      LatestInputFromHistory(b, us, r, i, out, clockDomain);
    }
  }

  /** A selection taken from the history alone. */
  ghost predicate PicksLatest(g: Terms, i: nat, us: seq<Update>, picked: Selection)
    requires i < |g.feeds|
  {
    && picked.stream == g.feeds[i].stream && picked.source == g.feeds[i].source
    && IsLargest(g, i, SeenSeq, us, picked.sequence)
    && (if Reached(g, i, SeenTime, us, 0) then IsLargest(g, i, SeenTime, us, picked.timestamp)
        else picked.timestamp == 0)
  }

  lemma ReadyInputIsPicked(b: Barrier, us: seq<Update>, r: Barrier, i: nat, out: u64, clockDomain: nat)
    requires Fresh(b) && i < |b.inputs| && JoinBarrierTimes.SameButOutTime(r, Replay(b, us))
    ensures |r.inputs| == |b.inputs|
    ensures LatestInputReady(r, r.inputs[i], out, clockDomain) == 1 ==>
            Collectable(r, r.inputs[i]) && PicksLatest(TermsOf(b), i, us, SelectionOf(r.inputs[i]))
  {
    ReplayKeepsSetup(b, us);
    FirstSequenceBelowObserved(b, us, i);
    RunningMaximum(b, us, i, SeenSeq);
    RunningMaximum(b, us, i, SeenTime);
    StateIsRunningMax(b, us, i, SeenTime, 0);
  }

  /**
    With staleness off, a barrier that answers 1 can be collected into any buffer large enough for its rules, and the
    selections are, in rule order, the largest sequence number and the largest time each input was offered.
   */
  lemma ReadyMeansCollectable(b: Barrier, us: seq<Update>, r: Barrier, out: u64, clockDomain: nat, now: u64,
      capacity: nat)
    requires Fresh(b) && b.kind == LatestValue && !b.allowStale && JoinBarrierTimes.SameButOutTime(r, Replay(b, us))
    requires LatestReady(r, out, clockDomain, now).0 == 1 && capacity >= |b.inputs|
    ensures var (ok, picked) := CollectLatest(LatestReady(r, out, clockDomain, now).1, capacity);
            ok && |picked| == |b.inputs| && forall i :: 0 <= i < |b.inputs| ==>
                PicksLatest(TermsOf(b), i, us, picked[i])
  {
    ReplayKeepsSetup(b, us);
    var r' := LatestReady(r, out, clockDomain, now).1;
    EveryLatestInput(r', out, clockDomain, now, 0);
    forall i | 0 <= i < |b.inputs|
      ensures Collectable(r', r'.inputs[i]) && PicksLatest(TermsOf(b), i, us, SelectionOf(r'.inputs[i]))
    {
      ReadyInputIsPicked(b, us, r', i, out, clockDomain);
    }
  }
}
