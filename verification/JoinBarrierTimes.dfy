/** Timestamp and latest-value barriers: readiness by history, and the order of the out-times they accept. */
module JoinBarrierTimes {
  import opened Bits
  import opened JoinBarrier
  import opened JoinBarrierHistory

  // ---- One timestamp rule ----

  /** The time a rule means to wait for, negative when it waits in vain. */
  function TimeTarget(rule: TimestampRule, out: u64): int {
    if rule.ruleType == RULE_OFFSET then out + rule.offset
    else if rule.ruleType == RULE_WINDOW && 0 < rule.window <= out then out
    else -1
  }

  /** The out-time has reached lateness minus a negative offset, as 64 bits form it. */
  predicate PastThreshold(late: u64, rule: TimestampRule, out: u64) {
    if rule.offset < 0 then
      late - rule.offset <= out || U64 <= late - rule.offset <= U64 + out
    else
      late <= out
  }

  /** The time it does wait for. A sum that reads as negative stands for zero or for never. */
  function TimeAsked(late: u64, rule: TimestampRule, out: u64): int {
    var target := TimeTarget(rule, out);
    if rule.ruleType != RULE_OFFSET || 0 <= target < U64 / 2 then target
    else if target >= U64 then target - U64
    else if PastThreshold(late, rule, out) then 0
    else -1
  }

  /** The offset sum stays inside its machine word, and so does the lateness sum of a negative target. */
  predicate TimeFits(late: u64, rule: TimestampRule, out: u64) {
    rule.ruleType == RULE_OFFSET ==>
      out + rule.offset < U64 / 2 && (out + rule.offset < 0 ==> !(U64 <= late - rule.offset <= U64 + out))
  }

  /** A rule waits for what it means exactly when its sums fit. */
  lemma AskedIsTargetIffFits(b: Barrier, rule: TimestampRule, out: u64)
    ensures TimeFits(Late(b), rule, out) ==> (TimeAsked(Late(b), rule, out) < 0 <==> TimeTarget(rule, out) < 0)
    ensures TimeFits(Late(b), rule, out) && TimeTarget(rule, out) >= 0 ==>
          TimeAsked(Late(b), rule, out) == TimeTarget(rule, out)
    ensures !TimeFits(Late(b), rule, out) ==>
              TimeAsked(Late(b), rule, out) != TimeTarget(rule, out)
                  && (TimeAsked(Late(b), rule, out) >= 0 || TimeTarget(rule, out) >= 0)
  {
  }

  /** Every input of a rule: what its state must be for the rule to be met, wrap-around included. */
  lemma TimestampRuleOnState(b: Barrier, rule: TimestampRule, s: Input, out: u64)
    ensures var asked := TimeAsked(Late(b), rule, out);
            TimestampRuleReady(b, rule, s, out) == 1 <==>
            && asked >= 0 && s.hasObservedTime && Add64(s.observedTime, Late(b)) >= asked
            && (b.requireProcessed ==> s.hasProcessedTime && Add64(s.processedTime, Late(b)) >= asked)
  {
    SignedSum(out, rule.offset);
    if rule.ruleType == RULE_OFFSET { ThresholdIsWrap(b, rule, out); }
  }

  lemma ThresholdIsWrap(b: Barrier, rule: TimestampRule, out: u64)
    ensures var offset: int := rule.offset;
            (out >= if offset < 0 then Add64(Late(b), (-offset) % U64) else Late(b))
                <==> PastThreshold(Late(b), rule, out)
  {
    var offset: int := rule.offset;
    if offset < 0 {
      InRange(-offset, U64);
      var sum := Late(b) - offset;
      if sum < U64 { InRange(sum, U64); } else { DivModUnique(sum, U64, 1, sum - U64); }
    }
  }

  /** The input has the times a rule looks at; without them the answer is no, and rightly so. */
  predicate HasTimes(b: Barrier, s: Input) { s.hasObservedTime && (b.requireProcessed ==> s.hasProcessedTime) }

  /** With v observed and w processed, the rule answers as exact arithmetic would. */
  ghost predicate TimeExactAt(b: Barrier, rule: TimestampRule, s: Input, out: u64, v: u64, w: u64) {
    TimestampRuleReady(b, rule, s.(observedTime := v, processedTime := w), out) == 1 <==>
      && HasTimes(b, s) && 0 <= TimeTarget(rule, out) <= v + Late(b)
      && (b.requireProcessed ==> TimeTarget(rule, out) <= w + Late(b))
  }

  /** Comparing a wrapped sum with what is asked is comparing the exact sum with the target. */
  ghost predicate SameAt(asked: int, t: int, late: u64, v: u64) { 0 <= asked <= Add64(v, late) <==> 0 <= t <= v + late }

  /** The rule's sums fit and no lateness can wrap a time it waits for, or it lets every time pass and rightly so. */
  predicate TimesAgree(b: Barrier, rule: TimestampRule, out: u64) {
    || (TimeFits(Late(b), rule, out) && (TimeTarget(rule, out) <= 0 || Late(b) == 0))
    || TimeAsked(Late(b), rule, out) == 0 <= TimeTarget(rule, out) <= Late(b)
  }

  /**
    A rule agrees with exact arithmetic on all observed and processed times exactly then, or when the input lacks them.
   */
  lemma TimestampRuleExactIffFits(b: Barrier, rule: TimestampRule, s: Input, out: u64)
    ensures (forall v: u64, w: u64 :: TimeExactAt(b, rule, s, out, v, w))
          <==> TimesAgree(b, rule, out) || !HasTimes(b, s)
  {
    var t, asked, late := TimeTarget(rule, out), TimeAsked(Late(b), rule, out), Late(b);
    forall v: u64, w: u64
      ensures HasTimes(b, s) && SameAt(asked, t, late, v) && SameAt(asked, t, late, w) ==>
            TimeExactAt(b, rule, s, out, v, w)
      ensures !HasTimes(b, s) ==> TimeExactAt(b, rule, s, out, v, w)
      ensures HasTimes(b, s) ==> (TimeExactAt(b, rule, s, out, v, v) <==> SameAt(asked, t, late, v))
    {
      TimestampRuleOnState(b, rule, s.(observedTime := v, processedTime := w), out);
      TimestampRuleOnState(b, rule, s.(observedTime := v, processedTime := v), out);
    }
    AskedIsTargetIffFits(b, rule, out);
    ExactIff(t, asked, late, TimeFits(Late(b), rule, out));
  }

  lemma ExactIff(t: int, asked: int, late: u64, fits: bool)
    requires asked < U64 && t < U64 + U64 / 2
    requires fits ==> (asked < 0 <==> t < 0) && (t >= 0 ==> asked == t)
    requires !fits ==> asked != t && (asked >= 0 || t >= 0) && (t >= U64 ==> asked == t - U64)
                       && (0 <= t < U64 ==> asked <= 0 && t >= U64 / 2) && (t < 0 ==> asked == 0)
    ensures (forall v: u64 :: SameAt(asked, t, late, v))
          <==> (fits && (t <= 0 || late == 0)) || (asked == 0 <= t <= late)
  {
    forall v: u64 | v + late < U64 ensures Add64(v, late) == v + late { InRange(v + late, U64); }
    if late > 0 {
      // The one observed time whose lateness sum is exactly 2^64.
      var wrapping: u64 := U64 - late;
      DivModUnique(wrapping + late, U64, 1, 0);
      assert SameAt(asked, t, late, wrapping) <==> (0 <= asked <= 0 <==> 0 <= t <= U64);
    }
    var last: u64 := U64 - 1 - late;
    assert SameAt(asked, t, late, last) <==> (0 <= asked <= U64 - 1 <==> 0 <= t <= U64 - 1);
    assert SameAt(asked, t, late, 0) <==> (0 <= asked <= late <==> 0 <= t <= late);
  }

  /** For instance, under a lateness of 2^64 - 2 an input observed at 100 is not ready at out-time 100. */
  lemma LatenessWrapsObservedTime(b: Barrier, rule: TimestampRule, s: Input)
    requires b.lateness == NULL_U64 - 1 && rule == TimestampRule(1, RULE_OFFSET, 0, 0, 0)
    requires s.hasObservedTime && s.observedTime == 100
    ensures TimestampRuleReady(b, rule, s, 100) == 0 && 0 <= TimeTarget(rule, 100) <= s.observedTime + Late(b)
  {
    SignedSum(100, 0);
    DivModUnique(100 + (NULL_U64 - 1), U64, 1, 98);
  }

  /** A negative target is met exactly when lateness minus offset wraps past the out-time. */
  lemma NegativeTargetReadyIffLatenessWraps(b: Barrier, rule: TimestampRule, s: Input, out: u64)
    requires rule.ruleType == RULE_OFFSET && out + rule.offset < 0
    ensures TimestampRuleReady(b, rule, s, out) == 1 <==>
            && s.hasObservedTime && (b.requireProcessed ==> s.hasProcessedTime)
            && U64 <= Late(b) - rule.offset <= U64 + out
  {
    TimestampRuleOnState(b, rule, s, out);
  }

  /** For instance, a lateness of 2^63 makes out-time 0 ready under an offset of -2^63. */
  lemma WrappedLatenessIsReady(b: Barrier, rule: TimestampRule, s: Input)
    requires b.lateness == U64 / 2 && rule == TimestampRule(1, RULE_OFFSET, 0, -(U64 / 2), 0)
    requires !b.requireProcessed && s.hasObservedTime
    ensures TimestampRuleReady(b, rule, s, 0) == 1 && TimeTarget(rule, 0) < 0
  {
    NegativeTargetReadyIffLatenessWraps(b, rule, s, 0);
  }

  lemma {:induction false} EveryTimestampRule(b: Barrier, out: u64, now: u64, i: nat)
    requires |b.inputs| == |b.timestampRules| && i <= |b.inputs|
    ensures TimestampReadyFrom(b, out, now, i) == 1
       <==> forall j :: i <= j < |b.inputs| ==>
              IsStale(b, b.inputs[j], now) || TimestampRuleReady(b, b.timestampRules[j], b.inputs[j], out) == 1
    decreases |b.inputs| - i
  {
    if i < |b.inputs| {
      EveryTimestampRule(b, out, now, i + 1);
    }
  }

  // ---- Runs of updates and questions ----

  datatype Event = Offer(update: Update) | Ask(out: u64, clockDomain: nat, now: u64)

  function Answer(b: Barrier, e: Event): (int, Barrier)
    requires e.Ask? && (b.kind == Timestamp ==> |b.inputs| == |b.timestampRules|)
  {
    if b.kind == Timestamp then TimestampReady(b, e.out, e.clockDomain, e.now)
    else LatestReady(b, e.out, e.clockDomain, e.now)
  }

  predicate WellFormed(b: Barrier) { b.kind == Timestamp ==> |b.inputs| == |b.timestampRules| }

  /** The barrier after some events, and every question asked with its verdict. */
  function Run(b: Barrier, es: seq<Event>): (r: (Barrier, seq<(u64, int)>))
    requires WellFormed(b)
    ensures WellFormed(r.0)
  {
    if es == [] then (b, []) else
      var (b', log) := Run(b, es[..|es| - 1]);
      var e := es[|es| - 1];
      if e.Offer? then (ApplyUpdate(b', e.update).1, log)
      else var (verdict, b'') := Answer(b', e); (b'', log + [(e.out, verdict)])
  }

  function Updates(es: seq<Event>): seq<Update> {
    if es == [] then []
    else if es[|es| - 1].Offer? then Updates(es[..|es| - 1]) + [es[|es| - 1].update]
    else Updates(es[..|es| - 1])
  }

  /** A barrier up to the out-time it remembers. */
  predicate SameButOutTime(r: Barrier, b: Barrier) {
    r == b.(lastOutTime := r.lastOutTime, hasLastOutTime := r.hasLastOutTime)
  }

  lemma UpdateIgnoresOutTime(r: Barrier, b: Barrier, u: Update)
    requires SameButOutTime(r, b)
    ensures SameButOutTime(ApplyUpdate(r, u).1, ApplyUpdate(b, u).1)
  {
    var i := Find(b.inputs, u.stream);
    if i < |b.inputs| {
      assert UpdateInput(r, r.inputs[i], u) == UpdateInput(b, b.inputs[i], u);
    }
  }

  lemma AnswerKeepsInputs(r: Barrier, e: Event)
    requires e.Ask? && WellFormed(r)
    ensures SameButOutTime(Answer(r, e).1, r)
  {
  }

  /** Questions disturb nothing but the remembered out-time. */
  lemma {:induction false} RunIsReplay(b: Barrier, es: seq<Event>)
    requires WellFormed(b)
    ensures SameButOutTime(Run(b, es).0, Replay(b, Updates(es)))
  {
    if es != [] {
      var front, e, us := es[..|es| - 1], es[|es| - 1], Updates(es);
      RunIsReplay(b, front);
      if e.Offer? {
        assert us[..|us| - 1] == Updates(front);
        UpdateIgnoresOutTime(Run(b, front).0, Replay(b, Updates(front)), e.update);
      } else {
        AnswerKeepsInputs(Run(b, front).0, e);
      }
    }
  }

  /** Barriers whose answers are tied to a non-decreasing out-time. */
  predicate TracksTime(b: Barrier) {
    |b.inputs| > 0 && (b.kind == Timestamp || (b.kind == LatestValue && b.ordering == ORDER_TIMESTAMP))
  }

  ghost predicate BelowLast(b: Barrier, log: seq<(u64, int)>) {
    forall k :: 0 <= k < |log| && log[k].1 >= 0 ==> b.hasLastOutTime && log[k].0 <= b.lastOutTime
  }

  lemma {:induction false} AcceptedTimesBelowLast(b: Barrier, es: seq<Event>)
    requires WellFormed(b) && TracksTime(b)
    ensures TracksTime(Run(b, es).0) && BelowLast(Run(b, es).0, Run(b, es).1)
  {
    RunIsReplay(b, es);
    ReplayKeepsSetup(b, Updates(es));
    if es != [] {
      AcceptedTimesBelowLast(b, es[..|es| - 1]);
    }
  }

  /** Among the questions a barrier does not refuse, out-times never go back. */
  lemma {:induction false} AcceptedTimesNeverDecrease(b: Barrier, es: seq<Event>, j: nat, k: nat)
    requires WellFormed(b) && TracksTime(b)
    requires j < k < |Run(b, es).1| && Run(b, es).1[j].1 >= 0 && Run(b, es).1[k].1 >= 0
    ensures Run(b, es).1[j].0 <= Run(b, es).1[k].0
  {
    var front := es[..|es| - 1];
    var (b', log) := Run(b, front);
    if k < |log| {
      AcceptedTimesNeverDecrease(b, front, j, k);
    } else {
      AcceptedTimesBelowLast(b, front);
      assert log[j] == Run(b, es).1[j];
    }
  }

  /** A question that reaches the out-time check: for a timestamp barrier it must come from the map's clock. */
  predicate Counts(g: Terms, e: Event) {
    e.Ask? && (g.kind == Timestamp ==> g.clockDomain == 0 || e.clockDomain == g.clockDomain)
  }

  /** A question with a larger out-time was asked before. */
  ghost predicate LaterQuestion(g: Terms, es: seq<Event>, t: u64) {
    exists k :: 0 <= k < |es| && Counts(g, es[k]) && es[k].out > t
  }

  lemma LaterQuestionStep(g: Terms, es: seq<Event>, t: u64)
    requires es != []
    ensures var e := es[|es| - 1];
            LaterQuestion(g, es, t) <==> LaterQuestion(g, es[..|es| - 1], t) || (Counts(g, e) && e.out > t)
  {
    var front := es[..|es| - 1];
    if k :| 0 <= k < |front| && Counts(g, front[k]) && front[k].out > t {
      assert es[k] == front[k];
    }
    if k :| 0 <= k < |es| && Counts(g, es[k]) && es[k].out > t {
      assert k < |front| ==> front[k] == es[k];
    }
  }

  /** The out-time remembered is past t. */
  predicate RemembersLater(b: Barrier, t: u64) { b.hasLastOutTime && t < b.lastOutTime }

  /** Barriers that always get as far as the out-time check. */
  predicate ComparesTimes(b: Barrier) { TracksTime(b) && (b.kind == LatestValue ==> b.clockDomain != 0) }

  lemma AskRemembers(r: Barrier, e: Event, t: u64)
    requires WellFormed(r) && ComparesTimes(r) && e.Ask?
    ensures RemembersLater(Answer(r, e).1, t) <==> RemembersLater(r, t) || (Counts(TermsOf(r), e) && e.out > t)
  {
  }

  lemma OfferRemembers(r: Barrier, u: Update, t: u64)
    ensures RemembersLater(ApplyUpdate(r, u).1, t) == RemembersLater(r, t)
  {
  }

  /**
    The remembered out-time is the largest ever asked about: an out-time is refused only if a later one was asked
    before.
   */
  lemma {:induction false} RegressionIffLaterQuestion(b: Barrier, es: seq<Event>, t: u64)
    requires WellFormed(b) && ComparesTimes(b) && !b.hasLastOutTime
    ensures RemembersLater(Run(b, es).0, t) <==> LaterQuestion(TermsOf(b), es, t)
  {
    if es != [] {
      var front, e := es[..|es| - 1], es[|es| - 1];
      var r := Run(b, front).0;
      RegressionIffLaterQuestion(b, front, t);
      LaterQuestionStep(TermsOf(b), es, t);
      if e.Offer? {
        OfferRemembers(r, e.update, t);
      } else {
        RunIsReplay(b, front);
        ReplayKeepsSetup(b, Updates(front));
        AskRemembers(r, e, t);
      }
    }
  }

  // ---- Readiness by history ----

  /** The largest time offered, plus the lateness as 64 bits form it, is at least t. */
  ghost predicate MaximumReaches(g: Terms, i: nat, c: Channel, us: seq<Update>, t: int)
    requires i < |g.feeds|
  {
    exists v: u64 :: IsLargest(g, i, c, us, v) && Add64(v, g.lateness) >= t
  }

  ghost predicate TimeRuleMet(g: Terms, i: nat, us: seq<Update>, rule: TimestampRule, out: u64)
    requires i < |g.feeds|
  {
    var asked := TimeAsked(g.lateness, rule, out);
    && asked >= 0
    && MaximumReaches(g, i, SeenTime, us, asked)
    && (g.requireProcessed ==> MaximumReaches(g, i, DoneTime, us, asked))
  }

  lemma LargestIsUnique(g: Terms, i: nat, c: Channel, us: seq<Update>, v: int, w: int)
    requires i < |g.feeds| && IsLargest(g, i, c, us, v) && IsLargest(g, i, c, us, w)
    ensures v == w
  {
  }

  lemma MaximumOnState(b: Barrier, us: seq<Update>, i: nat, c: Channel, t: int)
    requires Fresh(b) && i < |b.inputs|
    ensures SameSetup(b, Replay(b, us))
    ensures var s := Replay(b, us).inputs[i];
            MaximumReaches(TermsOf(b), i, c, us, t) <==> Has(s, c) && Add64(Value(s, c), Late(b)) >= t
  {
    RunningMaximum(b, us, i, c);
    var s := Replay(b, us).inputs[i];
    if v: u64 :| IsLargest(TermsOf(b), i, c, us, v) && Add64(v, Late(b)) >= t {
      StateIsRunningMax(b, us, i, c, v);
      LargestIsUnique(TermsOf(b), i, c, us, v, Value(s, c));
    }
  }

  lemma TimestampRuleFromHistory(b: Barrier, us: seq<Update>, r: Barrier, i: nat, out: u64)
    requires Fresh(b) && i < |b.inputs| == |b.timestampRules| && SameButOutTime(r, Replay(b, us))
    ensures |r.inputs| == |b.inputs|
    ensures TimestampRuleReady(r, b.timestampRules[i], r.inputs[i], out) == 1
       <==> TimeRuleMet(TermsOf(b), i, us, b.timestampRules[i], out)
  {
    ReplayKeepsSetup(b, us);
    var asked := TimeAsked(Late(b), b.timestampRules[i], out);
    MaximumOnState(b, us, i, SeenTime, asked);
    MaximumOnState(b, us, i, DoneTime, asked);
    assert r.inputs[i] == Replay(b, us).inputs[i];
    TimestampRuleOnState(r, b.timestampRules[i], r.inputs[i], out);
  }

  /**
    A timestamp barrier answers 1 exactly when the clock is right, no later out-time was asked about before, and every
    rule whose input is not stale has been offered the time it waits for.
   */
  lemma TimestampReadyIffHistory(b: Barrier, es: seq<Event>, ask: Event)
    requires Fresh(b) && b.kind == Timestamp && |b.timestampRules| == |b.inputs| && !b.hasLastOutTime && ask.Ask?
    ensures var us := Updates(es);
            Answer(Run(b, es).0, ask).0 == 1 <==>
            && |b.inputs| > 0 && Counts(TermsOf(b), ask) && !LaterQuestion(TermsOf(b), es, ask.out)
            && forall i :: 0 <= i < |b.inputs| ==>
                 || StaleByHistory(TermsOf(b), i, us, ask.now)
                 || TimeRuleMet(TermsOf(b), i, us, b.timestampRules[i], ask.out)
  {
    var us, r := Updates(es), Run(b, es).0;
    RunIsReplay(b, es);
    ReplayKeepsSetup(b, us);
    if |b.inputs| > 0 {
      RegressionIffLaterQuestion(b, es, ask.out);
      EachRuleByHistory(b, us, r.(lastOutTime := ask.out, hasLastOutTime := true), ask);
    }
  }

  lemma EachRuleByHistory(b: Barrier, us: seq<Update>, r: Barrier, ask: Event)
    requires Fresh(b) && |b.timestampRules| == |b.inputs| && ask.Ask? && SameButOutTime(r, Replay(b, us))
    ensures |r.inputs| == |r.timestampRules| == |b.inputs|
    ensures TimestampReadyFrom(r, ask.out, ask.now, 0) == 1 <==>
            forall i :: 0 <= i < |b.inputs| ==>
              StaleByHistory(TermsOf(b), i, us, ask.now) || TimeRuleMet(TermsOf(b), i, us, b.timestampRules[i], ask.out)
  {
    ReplayKeepsSetup(b, us);
    EveryTimestampRule(r, ask.out, ask.now, 0);
    forall i | 0 <= i < |b.inputs|
      ensures IsStale(r, r.inputs[i], ask.now) <==> StaleByHistory(TermsOf(b), i, us, ask.now)
      ensures TimestampRuleReady(r, b.timestampRules[i], r.inputs[i], ask.out) == 1
         <==> TimeRuleMet(TermsOf(b), i, us, b.timestampRules[i], ask.out)
    {
      StalenessFromHistory(b, us, i, ask.now);
      TimestampRuleFromHistory(b, us, r, i, ask.out);
    }
  }

  /** No time offered wraps with the lateness. */
  ghost predicate TimesFit(g: Terms, us: seq<Update>) {
    forall k :: 0 <= k < |us| && (us[k].ObservedTime? || us[k].ProcessedTime?) && us[k].value != NULL_U64 ==>
      us[k].value + g.lateness < U64
  }

  lemma MaximumWithoutWrap(b: Barrier, us: seq<Update>, i: nat, c: Channel, t: int)
    requires Fresh(b) && i < |b.inputs| && TimesFit(TermsOf(b), us) && c in {SeenTime, DoneTime}
    ensures MaximumReaches(TermsOf(b), i, c, us, t) <==> Reached(TermsOf(b), i, c, us, t - Late(b))
  {
    ReplayKeepsSetup(b, us);
    var s := Replay(b, us).inputs[i];
    MaximumOnState(b, us, i, c, t);
    StateIsRunningMax(b, us, i, c, t - Late(b));
    StateIsRunningMax(b, us, i, c, Value(s, c));
    if Has(s, c) {
      var k :| 0 <= k < |us| && Offers(TermsOf(b), i, c, us[k]) && us[k].value >= Value(s, c);
      InRange(Value(s, c) + Late(b), U64);
    }
  }

  /** In range, a rule is met exactly when some time within the lateness of its target was offered. */
  lemma RuleMetWithinLateness(b: Barrier, us: seq<Update>, i: nat, rule: TimestampRule, out: u64)
    requires Fresh(b) && i < |b.inputs| && TimesFit(TermsOf(b), us) && TimeFits(Late(b), rule, out)
    ensures TimeRuleMet(TermsOf(b), i, us, rule, out) <==>
            && TimeTarget(rule, out) >= 0
            && Reached(TermsOf(b), i, SeenTime, us, TimeTarget(rule, out) - Late(b))
            && (b.requireProcessed ==> Reached(TermsOf(b), i, DoneTime, us, TimeTarget(rule, out) - Late(b)))
  {
    AskedIsTargetIffFits(b, rule, out);
    MaximumWithoutWrap(b, us, i, SeenTime, TimeTarget(rule, out));
    MaximumWithoutWrap(b, us, i, DoneTime, TimeTarget(rule, out));
  }
}
