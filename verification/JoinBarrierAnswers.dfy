/**
  The other answers: which updates are accepted, when a question is refused, and what collecting returns, by history.
 */
module JoinBarrierAnswers {
  import opened Bits
  import opened JoinBarrier
  import opened JoinBarrierHistory
  import opened JoinBarrierTimes
  import opened JoinBarrierLatest

  // ---- Updates ----

  /** The channel an update's value would go to. */
  function ChannelOf(u: Update): Channel
    requires !u.Invalidate?
  {
    match u
    case ObservedSeq(_, _, _) => SeenSeq
    case ProcessedSeq(_, _, _) => DoneSeq
    case ObservedTime(_, _, _, _, _) => SeenTime
    case ProcessedTime(_, _, _, _, _) => DoneTime
  }

  /** A timestamp update must come from the map's clock and the input's source; other updates from anywhere. */
  predicate ComesFrom(g: Terms, i: nat, u: Update)
    requires i < |g.feeds|
  {
    u.ObservedTime? || u.ProcessedTime? ==>
      && (g.clockDomain == 0 || u.clockDomain == g.clockDomain)
      && (g.feeds[i].source == 0 || u.source == g.feeds[i].source)
  }

  /** A time may be left out. */
  predicate NoValue(u: Update) { (u.ObservedTime? || u.ProcessedTime?) && u.value == NULL_U64 }

  /**
    An update is accepted exactly when its stream is an input's, it comes from where the map says, and its value, if it
    has one, is not below one offered before.
   */
  lemma UpdateAcceptedIffHistory(b: Barrier, us: seq<Update>, u: Update)
    requires Fresh(b)
    ensures var g := TermsOf(b);
            ApplyUpdate(Replay(b, us), u).0 <==>
            exists i :: 0 <= i < |g.feeds| && Follows(g, i, u.stream) && ComesFrom(g, i, u)
                        && (u.Invalidate? || NoValue(u) || !Reached(g, i, ChannelOf(u), us, u.value + 1))
  {
    ReplayKeepsSetup(b, us);
    var r, g := Replay(b, us), TermsOf(b);
    SameFind(b.inputs, r.inputs, u.stream, 0);
    var i := Find(b.inputs, u.stream);
    if i < |b.inputs| {
      FollowsIsFound(b, i, u.stream);
      if !u.Invalidate? { StateIsRunningMax(b, us, i, ChannelOf(u), u.value + 1); }
      forall j | 0 <= j < |g.feeds| && Follows(g, j, u.stream) ensures j == i {}
    }
  }

  /** The time of the last processing update that was not below an earlier one; 0 when there is none. */
  ghost function LastDone(g: Terms, i: nat, us: seq<Update>): u64
    requires i < |g.feeds|
  {
    if us == [] then 0
    else if Advances(g, i, DoneSeq, us) || Advances(g, i, DoneTime, us) then us[|us| - 1].now
    else LastDone(g, i, us[..|us| - 1])
  }

  lemma ProcessingMoves(b: Barrier, s: Input, u: Update)
    ensures UpdateInput(b, s, u).1.lastProcessed ==
            if (OffersTo(b.clockDomain, s.source, DoneSeq, u) && !(s.hasProcessedSeq && s.processedSeq >= u.value + 1))
               || (OffersTo(b.clockDomain, s.source, DoneTime, u)
                   && !(s.hasProcessedTime && s.processedTime >= u.value + 1))
            then u.now else s.lastProcessed
  {
    match u
    case ObservedSeq(_, _, _) =>
    case ProcessedSeq(_, _, _) =>
    case ObservedTime(_, _, _, _, _) =>
    case ProcessedTime(_, _, _, _, _) =>
    case Invalidate(_) =>
  }

  lemma {:induction false} LastProcessedFromHistory(b: Barrier, us: seq<Update>, i: nat)
    requires Fresh(b) && i < |b.inputs|
    ensures SameSetup(b, Replay(b, us)) && Replay(b, us).inputs[i].lastProcessed == LastDone(TermsOf(b), i, us)
  {
    ReplayKeepsSetup(b, us);
    if us != [] {
      var front, u := us[..|us| - 1], us[|us| - 1];
      LastProcessedFromHistory(b, front, i);
      ReplayStep(b, us, i);
      ProcessingMoves(b, Replay(b, front).inputs[i], u);
      if !u.Invalidate? {
        StateIsRunningMax(b, front, i, DoneSeq, u.value + 1);
        StateIsRunningMax(b, front, i, DoneTime, u.value + 1);
      }
    }
  }

  // ---- Refusals ----

  /** Verdicts in rule order, 1 ready, 0 not ready, -1 refused: the first that is not 1 decides. */
  function Decide(vs: seq<int>, i: nat): int
    requires i <= |vs|
    decreases |vs| - i
  {
    if i == |vs| then 1 else if vs[i] <= 0 then vs[i] else Decide(vs, i + 1)
  }

  /** A refusal is the first verdict that is not 1. */
  ghost predicate RefusedAt(vs: seq<int>, i: nat, k: nat) {
    i <= k < |vs| && vs[k] == -1 && forall j :: i <= j < k ==> vs[j] == 1
  }

  lemma {:induction false} DecideRefuses(vs: seq<int>, i: nat)
    requires i <= |vs| && forall k :: 0 <= k < |vs| ==> vs[k] in {-1, 0, 1}
    ensures Decide(vs, i) in {-1, 0, 1}
    ensures Decide(vs, i) == -1 <==> exists k :: RefusedAt(vs, i, k)
    decreases |vs| - i
  {
    if i < |vs| {
      var next := i + 1;
      DecideRefuses(vs, next);
      if vs[i] == -1 { assert RefusedAt(vs, i, i); }
      if k :| RefusedAt(vs, next, k) && vs[i] == 1 { assert RefusedAt(vs, i, k); }
      if k :| RefusedAt(vs, i, k) && vs[i] == 1 { assert RefusedAt(vs, next, k); }
    }
  }

  // ---- Sequence barriers ----

  function SequenceVerdicts(b: Barrier, out: u64, now: u64): (vs: seq<int>)
    requires |b.inputs| == |b.sequenceRules|
    ensures |vs| == |b.inputs|
  {
    seq(|b.inputs|, j requires 0 <= j < |b.inputs| =>
      if IsStale(b, b.inputs[j], now) then 1 else SequenceRuleReady(b, b.sequenceRules[j], b.inputs[j], out))
  }

  lemma {:induction false} SequenceDecides(b: Barrier, out: u64, now: u64, i: nat)
    requires |b.inputs| == |b.sequenceRules| && i <= |b.inputs|
    ensures SequenceReadyFrom(b, out, now, i) == Decide(SequenceVerdicts(b, out, now), i)
    decreases |b.inputs| - i
  {
    if i < |b.inputs| { SequenceDecides(b, out, now, i + 1); }
  }

  /** An input's verdict by history: passed over when stale, refused when observed under a rule of no known type. */
  ghost function SequenceVerdict(g: Terms, i: nat, us: seq<Update>, rule: SequenceRule, out: u64, now: u64): int
    requires i < |g.feeds|
  {
    if StaleByHistory(g, i, us, now) || SequenceRuleMet(g, i, us, rule, out) then 1
    else if Reached(g, i, SeenSeq, us, 0) && rule.ruleType != RULE_OFFSET && rule.ruleType != RULE_WINDOW then -1
    else 0
  }

  ghost function SequenceVerdictsByHistory(g: Terms, us: seq<Update>, rules: seq<SequenceRule>, out: u64, now: u64):
    (vs: seq<int>)
    requires |rules| == |g.feeds|
  {
    seq(|rules|, i requires 0 <= i < |rules| => SequenceVerdict(g, i, us, rules[i], out, now))
  }

  /** All three answers of a sequence barrier, by history. */
  lemma SequenceAnswerByHistory(b: Barrier, us: seq<Update>, out: u64, now: u64)
    requires Fresh(b) && b.kind == Sequence && |b.sequenceRules| == |b.inputs|
    ensures |Replay(b, us).inputs| == |Replay(b, us).sequenceRules|
    ensures SequenceReady(Replay(b, us), out, now) ==
            if |b.inputs| == 0 then 0
            else Decide(SequenceVerdictsByHistory(TermsOf(b), us, b.sequenceRules, out, now), 0)
  {
    ReplayKeepsSetup(b, us);
    var r := Replay(b, us);
    SequenceDecides(r, out, now, 0);
    forall i | 0 <= i < |b.inputs|
      ensures SequenceVerdicts(r, out, now)[i] == SequenceVerdict(TermsOf(b), i, us, b.sequenceRules[i], out, now)
    {
      SequenceVerdictFromHistory(b, us, i, out, now);
    }
    assert SequenceVerdicts(r, out, now) == SequenceVerdictsByHistory(TermsOf(b), us, b.sequenceRules, out, now);
  }

  lemma SequenceVerdictFromHistory(b: Barrier, us: seq<Update>, i: nat, out: u64, now: u64)
    requires Fresh(b) && |b.sequenceRules| == |b.inputs| && i < |b.inputs|
    ensures SameSetup(b, Replay(b, us))
    ensures var r := Replay(b, us);
            (if IsStale(r, r.inputs[i], now) then 1 else SequenceRuleReady(r, b.sequenceRules[i], r.inputs[i], out)) ==
            SequenceVerdict(TermsOf(b), i, us, b.sequenceRules[i], out, now)
  {
    StalenessFromHistory(b, us, i, now);
    SequenceRuleFromHistory(b, us, i, b.sequenceRules[i], out);
    StateIsRunningMax(b, us, i, SeenSeq, 0);
  }

  // ---- Timestamp barriers ----

  function TimestampVerdicts(b: Barrier, out: u64, now: u64): (vs: seq<int>)
    requires |b.inputs| == |b.timestampRules|
    ensures |vs| == |b.inputs|
  {
    seq(|b.inputs|, j requires 0 <= j < |b.inputs| =>
      if IsStale(b, b.inputs[j], now) then 1 else TimestampRuleReady(b, b.timestampRules[j], b.inputs[j], out))
  }

  lemma {:induction false} TimestampDecides(b: Barrier, out: u64, now: u64, i: nat)
    requires |b.inputs| == |b.timestampRules| && i <= |b.inputs|
    ensures TimestampReadyFrom(b, out, now, i) == Decide(TimestampVerdicts(b, out, now), i)
    decreases |b.inputs| - i
  {
    if i < |b.inputs| { TimestampDecides(b, out, now, i + 1); }
  }

  /** A rule no time can meet: of no known type, or a window of nothing. */
  predicate Senseless(rule: TimestampRule) {
    rule.ruleType != RULE_OFFSET && (rule.ruleType != RULE_WINDOW || rule.window == 0)
  }

  ghost function TimestampVerdict(g: Terms, i: nat, us: seq<Update>, rule: TimestampRule, out: u64, now: u64): int
    requires i < |g.feeds|
  {
    if StaleByHistory(g, i, us, now) || TimeRuleMet(g, i, us, rule, out) then 1
    else if Reached(g, i, SeenTime, us, 0) && Senseless(rule) then -1
    else 0
  }

  ghost function TimestampVerdictsByHistory(g: Terms, us: seq<Update>, rules: seq<TimestampRule>, out: u64, now: u64):
    (vs: seq<int>)
    requires |rules| == |g.feeds|
  {
    seq(|rules|, i requires 0 <= i < |rules| => TimestampVerdict(g, i, us, rules[i], out, now))
  }

  /** All three answers of a timestamp barrier, by history: the wrong clock and an earlier out-time are refused. */
  lemma TimestampAnswerByHistory(b: Barrier, es: seq<Event>, ask: Event)
    requires Fresh(b) && b.kind == Timestamp && |b.timestampRules| == |b.inputs| && !b.hasLastOutTime && ask.Ask?
    ensures Answer(Run(b, es).0, ask).0 ==
            if |b.inputs| == 0 then 0
            else if !Counts(TermsOf(b), ask) || LaterQuestion(TermsOf(b), es, ask.out) then -1
            else Decide(TimestampVerdictsByHistory(TermsOf(b), Updates(es), b.timestampRules, ask.out, ask.now), 0)
  {
    var us, r := Updates(es), Run(b, es).0;
    RunIsReplay(b, es);
    ReplayKeepsSetup(b, us);
    if |b.inputs| > 0 {
      RegressionIffLaterQuestion(b, es, ask.out);
      TimestampVerdictsAgree(b, us, r.(lastOutTime := ask.out, hasLastOutTime := true), ask.out, ask.now);
    }
  }

  lemma TimestampVerdictsAgree(b: Barrier, us: seq<Update>, r: Barrier, out: u64, now: u64)
    requires Fresh(b) && |b.timestampRules| == |b.inputs| && SameButOutTime(r, Replay(b, us))
    ensures |r.inputs| == |r.timestampRules| == |b.inputs|
    ensures TimestampReadyFrom(r, out, now, 0) ==
            Decide(TimestampVerdictsByHistory(TermsOf(b), us, b.timestampRules, out, now), 0)
  {
    ReplayKeepsSetup(b, us);
    TimestampDecides(r, out, now, 0);
    forall i | 0 <= i < |b.inputs|
      ensures TimestampVerdicts(r, out, now)[i] == TimestampVerdict(TermsOf(b), i, us, b.timestampRules[i], out, now)
    {
      TimestampVerdictFromHistory(b, us, r, i, out, now);
    }
    assert TimestampVerdicts(r, out, now) == TimestampVerdictsByHistory(TermsOf(b), us, b.timestampRules, out, now);
  }

  lemma TimestampVerdictFromHistory(b: Barrier, us: seq<Update>, r: Barrier, i: nat, out: u64, now: u64)
    requires Fresh(b) && i < |b.inputs| == |b.timestampRules| && SameButOutTime(r, Replay(b, us))
    ensures |r.inputs| == |b.inputs|
    ensures (if IsStale(r, r.inputs[i], now) then 1
          else TimestampRuleReady(r, b.timestampRules[i], r.inputs[i], out)) ==
            TimestampVerdict(TermsOf(b), i, us, b.timestampRules[i], out, now)
  {
    ReplayKeepsSetup(b, us);
    StalenessFromHistory(b, us, i, now);
    TimestampRuleFromHistory(b, us, r, i, out);
    StateIsRunningMax(b, us, i, SeenTime, 0);
    SensibleNeverRefuses(r, b.timestampRules[i], r.inputs[i], out);
  }

  lemma SensibleNeverRefuses(b: Barrier, rule: TimestampRule, s: Input, out: u64)
    ensures TimestampRuleReady(b, rule, s, out) in {-1, 0, 1}
    ensures TimestampRuleReady(b, rule, s, out) == -1 <==> s.hasObservedTime && Senseless(rule)
  {
  }

  // ---- Latest-value barriers ----

  function LatestVerdicts(b: Barrier, out: u64, clockDomain: nat, now: u64): (vs: seq<int>)
    ensures |vs| == |b.inputs|
  {
    seq(|b.inputs|, j requires 0 <= j < |b.inputs| =>
      if IsStale(b, b.inputs[j], now) then 1 else LatestInputReady(b, b.inputs[j], out, clockDomain))
  }

  lemma {:induction false} LatestDecides(b: Barrier, out: u64, clockDomain: nat, now: u64, i: nat)
    requires i <= |b.inputs|
    ensures LatestReadyFrom(b, out, clockDomain, now, i) == Decide(LatestVerdicts(b, out, clockDomain, now), i)
    decreases |b.inputs| - i
  {
    if i < |b.inputs| { LatestDecides(b, out, clockDomain, now, i + 1); }
  }

  /** The input has been offered what the barrier's ordering compares. */
  ghost predicate Comparable(g: Terms, i: nat, us: seq<Update>)
    requires i < |g.feeds|
  {
    && (g.ordering == ORDER_SEQUENCE ==> Reached(g, i, SeenSeq, us, 0))
    && (g.ordering == ORDER_TIMESTAMP ==> Reached(g, i, SeenTime, us, 0))
  }

  /** Refused: the wrong clock, or ordering by time without a source, found once there is something to compare. */
  ghost function LatestVerdict(g: Terms, i: nat, us: seq<Update>, out: u64, clockDomain: nat, now: u64): int
    requires i < |g.feeds|
  {
    if StaleByHistory(g, i, us, now) || LatestInputMet(g, i, us, out, clockDomain) then 1
    else if Comparable(g, i, us) && ((g.clockDomain != 0 && clockDomain != g.clockDomain)
                                     || (g.ordering == ORDER_TIMESTAMP && g.feeds[i].source == 0)) then -1
    else 0
  }

  ghost function LatestVerdictsByHistory(g: Terms, us: seq<Update>, out: u64, clockDomain: nat,
      now: u64): (vs: seq<int>)
  {
    seq(|g.feeds|, i requires 0 <= i < |g.feeds| => LatestVerdict(g, i, us, out, clockDomain, now))
  }

  /** All three answers of a latest-value barrier, by history. */
  lemma LatestAnswerByHistory(b: Barrier, es: seq<Event>, ask: Event)
    requires Fresh(b) && b.kind == LatestValue && !b.hasLastOutTime && ask.Ask?
    ensures Answer(Run(b, es).0, ask).0 ==
            if |b.inputs| == 0 then 0
            else if b.ordering == ORDER_TIMESTAMP
                && (b.clockDomain == 0 || LaterQuestion(TermsOf(b), es, ask.out)) then -1
            else Decide(LatestVerdictsByHistory(TermsOf(b), Updates(es), ask.out, ask.clockDomain, ask.now), 0)
  {
    var us, r := Updates(es), Run(b, es).0;
    RunIsReplay(b, es);
    ReplayKeepsSetup(b, us);
    if ComparesTimes(b) { RegressionIffLaterQuestion(b, es, ask.out); }
    var r' := if b.ordering == ORDER_TIMESTAMP then r.(lastOutTime := ask.out, hasLastOutTime := true) else r;
    LatestVerdictsAgree(b, us, r', ask.out, ask.clockDomain, ask.now);
  }

  lemma LatestVerdictsAgree(b: Barrier, us: seq<Update>, r: Barrier, out: u64, clockDomain: nat, now: u64)
    requires Fresh(b) && SameButOutTime(r, Replay(b, us))
    ensures |r.inputs| == |b.inputs|
    ensures LatestReadyFrom(r, out, clockDomain, now, 0) ==
            Decide(LatestVerdictsByHistory(TermsOf(b), us, out, clockDomain, now), 0)
  {
    ReplayKeepsSetup(b, us);
    LatestDecides(r, out, clockDomain, now, 0);
    forall i | 0 <= i < |b.inputs|
      ensures LatestVerdicts(r, out, clockDomain, now)[i] == LatestVerdict(TermsOf(b), i, us, out, clockDomain, now)
    {
      LatestVerdictFromHistory(b, us, r, i, out, clockDomain, now);
    }
    assert LatestVerdicts(r, out, clockDomain, now) == LatestVerdictsByHistory(TermsOf(b), us, out, clockDomain, now);
  }

  lemma LatestVerdictFromHistory(b: Barrier, us: seq<Update>, r: Barrier, i: nat, out: u64, clockDomain: nat, now: u64)
    requires Fresh(b) && i < |b.inputs| && SameButOutTime(r, Replay(b, us))
    ensures |r.inputs| == |b.inputs|
    ensures (if IsStale(r, r.inputs[i], now) then 1 else LatestInputReady(r, r.inputs[i], out, clockDomain)) ==
            LatestVerdict(TermsOf(b), i, us, out, clockDomain, now)
  {
    ReplayKeepsSetup(b, us);
    StalenessFromHistory(b, us, i, now);
    LatestInputFromHistory(b, us, r, i, out, clockDomain);
    StateIsRunningMax(b, us, i, SeenSeq, 0);
    StateIsRunningMax(b, us, i, SeenTime, 0);
  }

  // ---- Collecting ----

  /** What collecting asks of an input: current, numbered, and comparable under the barrier's ordering. */
  ghost predicate CollectableByHistory(g: Terms, i: nat, us: seq<Update>)
    requires i < |g.feeds|
  {
    && CurrentByHistory(g, i, us) && Reached(g, i, SeenSeq, us, 0) && Comparable(g, i, us)
    && (g.ordering == ORDER_TIMESTAMP ==> g.feeds[i].source != 0)
  }

  /**
    Collecting succeeds exactly when the buffer holds all inputs, ordering by time has a clock, and every input,
    stale or not, qualifies by its history; it then gives each input's largest number and time, in rule order, and
    nothing else.
   */
  lemma CollectingByHistory(b: Barrier, us: seq<Update>, r: Barrier, capacity: nat)
    requires Fresh(b) && b.kind == LatestValue && SameButOutTime(r, Replay(b, us))
    ensures var (ok, picked) := CollectLatest(r, capacity);
            && (ok <==> |b.inputs| <= capacity && (b.ordering == ORDER_TIMESTAMP ==> b.clockDomain != 0)
                        && forall i :: 0 <= i < |b.inputs| ==> CollectableByHistory(TermsOf(b), i, us))
            && (if ok then |picked| == |b.inputs| && forall i :: 0 <= i < |b.inputs| ==>
                PicksLatest(TermsOf(b), i, us, picked[i])
                else picked == [])
  {
    ReplayKeepsSetup(b, us);
    forall i | 0 <= i < |b.inputs|
      ensures Collectable(r, r.inputs[i]) <==> CollectableByHistory(TermsOf(b), i, us)
      ensures Collectable(r, r.inputs[i]) ==> PicksLatest(TermsOf(b), i, us, SelectionOf(r.inputs[i]))
    {
      CollectableFromHistory(b, us, r, i);
    }
  }

  lemma CollectableFromHistory(b: Barrier, us: seq<Update>, r: Barrier, i: nat)
    requires Fresh(b) && i < |b.inputs| && SameButOutTime(r, Replay(b, us))
    ensures |r.inputs| == |b.inputs|
    ensures Collectable(r, r.inputs[i]) <==> CollectableByHistory(TermsOf(b), i, us)
    ensures Collectable(r, r.inputs[i]) ==> PicksLatest(TermsOf(b), i, us, SelectionOf(r.inputs[i]))
  {
    ReplayKeepsSetup(b, us);
    ValidityFromHistory(b, us, i);
    FirstSequenceBelowObserved(b, us, i);
    StateIsRunningMax(b, us, i, SeenSeq, 0);
    StateIsRunningMax(b, us, i, SeenTime, 0);
    RunningMaximum(b, us, i, SeenSeq);
    RunningMaximum(b, us, i, SeenTime);
  }

  // ---- Stale streams ----

  /** How many of the first n inputs are stale. */
  function StaleCount(b: Barrier, now: u64, n: nat): nat
    requires n <= |b.inputs|
  {
    if n == 0 then 0 else StaleCount(b, now, n - 1) + if IsStale(b, b.inputs[n - 1], now) then 1 else 0
  }

  /** The stale streams are listed in rule order: input i's comes after those of the stale inputs before it. */
  lemma {:induction false} StaleStreamsInOrder(b: Barrier, now: u64, n: nat, i: nat)
    requires i < n <= |b.inputs| && IsStale(b, b.inputs[i], now)
    ensures |StaleStreams(b, now, n)| == StaleCount(b, now, n) && StaleCount(b, now, i) < StaleCount(b, now, n)
    ensures StaleStreams(b, now, n)[StaleCount(b, now, i)] == b.inputs[i].stream
  {
    StaleStreamsCounted(b, now, n - 1);
    StaleStreamsCounted(b, now, n);
    if i < n - 1 { StaleStreamsInOrder(b, now, n - 1, i); }
  }

  lemma {:induction false} StaleStreamsCounted(b: Barrier, now: u64, n: nat)
    requires n <= |b.inputs|
    ensures |StaleStreams(b, now, n)| == StaleCount(b, now, n)
  {
    if n > 0 { StaleStreamsCounted(b, now, n - 1); }
  }
}
