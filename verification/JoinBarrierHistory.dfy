/** What a barrier's answers say about everything offered to it since its map was applied. */
module JoinBarrierHistory {
  import opened Bits
  import opened JoinBarrier

  /** The four running maxima kept per input. */
  datatype Channel = SeenSeq | DoneSeq | SeenTime | DoneTime

  predicate Has(s: Input, c: Channel) {
    match c
    case SeenSeq => s.hasObservedSeq
    case DoneSeq => s.hasProcessedSeq
    case SeenTime => s.hasObservedTime
    case DoneTime => s.hasProcessedTime
  }

  function Value(s: Input, c: Channel): u64 {
    match c
    case SeenSeq => s.observedSeq
    case DoneSeq => s.processedSeq
    case SeenTime => s.observedTime
    case DoneTime => s.processedTime
  }

  /** An input as its rule names it: the stream it follows, and the timestamp source it insists on, 0 for any. */
  datatype Feed = Feed(stream: nat, source: nat)

  /** What the meaning of a history depends on, besides the rules. */
  datatype Terms = Terms(
    kind: Kind,
    feeds: seq<Feed>,
    clockDomain: nat,
    lateness: u64,
    staleTimeout: u64,
    allowStale: bool,
    requireProcessed: bool,
    ordering: int)

  /** The lateness in force; none set is none allowed. */
  function Late(b: Barrier): u64 { if b.lateness == NULL_U64 then 0 else b.lateness }

  /** The terms a barrier stands on. */
  function TermsOf(b: Barrier): (g: Terms)
    ensures |g.feeds| == |b.inputs|
    ensures forall i :: 0 <= i < |g.feeds| ==> g.feeds[i] == Feed(b.inputs[i].stream, b.inputs[i].source)
  {
    Terms(b.kind, seq(|b.inputs|, i requires 0 <= i < |b.inputs| => Feed(b.inputs[i].stream, b.inputs[i].source)),
          b.clockDomain, Late(b), b.staleTimeout, b.allowStale, b.requireProcessed, b.ordering)
  }

  /** Update u offers a value on channel c under this clock and source, accepted or not. */
  predicate OffersTo(clockDomain: nat, source: nat, c: Channel, u: Update) {
    match c
    case SeenSeq => u.ObservedSeq?
    case DoneSeq => u.ProcessedSeq?
    case SeenTime =>
      && u.ObservedTime? && u.value != NULL_U64
      && (clockDomain == 0 || u.clockDomain == clockDomain) && (source == 0 || u.source == source)
    case DoneTime =>
      && u.ProcessedTime? && u.value != NULL_U64
      && (clockDomain == 0 || u.clockDomain == clockDomain) && (source == 0 || u.source == source)
  }

  /** Position i is the first that follows a stream. */
  predicate Follows(g: Terms, i: nat, stream: nat)
    requires i < |g.feeds|
  {
    g.feeds[i].stream == stream && forall j :: 0 <= j < i ==> g.feeds[j].stream != stream
  }

  lemma FollowsIsFound(b: Barrier, i: nat, stream: nat)
    requires i < |b.inputs|
    ensures Follows(TermsOf(b), i, stream) <==> Find(b.inputs, stream) == i
  {
  }

  /** Position i is the one an update reaches: the first input of the update's stream. */
  predicate Offers(g: Terms, i: nat, c: Channel, u: Update)
    requires i < |g.feeds|
  {
    Follows(g, i, u.stream) && OffersTo(g.clockDomain, g.feeds[i].source, c, u)
  }

  /** Some offer in the history is at least t. */
  ghost predicate Reached(g: Terms, i: nat, c: Channel, us: seq<Update>, t: int)
    requires i < |g.feeds|
  {
    exists k :: 0 <= k < |us| && Offers(g, i, c, us[k]) && us[k].value >= t
  }

  /** v is the largest value offered. */
  ghost predicate IsLargest(g: Terms, i: nat, c: Channel, us: seq<Update>, v: int)
    requires i < |g.feeds|
  {
    Reached(g, i, c, us, v) && forall t :: t > v ==> !Reached(g, i, c, us, t)
  }

  function Replay(b: Barrier, us: seq<Update>): Barrier {
    if us == [] then b else ApplyUpdate(Replay(b, us[..|us| - 1]), us[|us| - 1]).1
  }

  /** Inputs as a map application leaves them. */
  ghost predicate Fresh(b: Barrier) {
    forall i :: 0 <= i < |b.inputs| ==>
      b.inputs[i] == Cleared.(stream := b.inputs[i].stream, source := b.inputs[i].source)
  }

  /** Only the inputs' running state differs. */
  ghost predicate SameSetup(b: Barrier, b': Barrier) {
    && b' == b.(inputs := b'.inputs)
    && |b'.inputs| == |b.inputs|
    && forall i :: 0 <= i < |b.inputs| ==>
         b'.inputs[i].stream == b.inputs[i].stream && b'.inputs[i].source == b.inputs[i].source
  }

  lemma {:induction false} SameFind(a: seq<Input>, b: seq<Input>, stream: nat, i: nat)
    requires |a| == |b| && i <= |a| && forall j :: 0 <= j < |a| ==> a[j].stream == b[j].stream
    ensures Find(a, stream, i) == Find(b, stream, i)
    decreases |a| - i
  {
    if i < |a| {
      SameFind(a, b, stream, i + 1);
    }
  }

  lemma {:induction false} ReplayKeepsSetup(b: Barrier, us: seq<Update>)
    ensures SameSetup(b, Replay(b, us))
  {
    if us != [] {
      ReplayKeepsSetup(b, us[..|us| - 1]);
    }
  }

  /** One update: a channel keeps the larger of what it had and what it was offered. */
  lemma UpdateTakesLarger(b: Barrier, s: Input, c: Channel, u: Update)
    ensures var s' := UpdateInput(b, s, u).1;
            if OffersTo(b.clockDomain, s.source, c, u) then
              Has(s', c) && Value(s', c) == if Has(s, c) && u.value < Value(s, c) then Value(s, c) else u.value
            else Has(s', c) == Has(s, c) && Value(s', c) == Value(s, c)
  {
    match u
    case ObservedSeq(_, _, _) =>
    case ProcessedSeq(_, _, _) =>
    case ObservedTime(_, _, _, _, _) =>
    case ProcessedTime(_, _, _, _, _) =>
    case Invalidate(_) =>
  }

  /** An update looks at nothing of the barrier but its clock, and at nothing else fixed but the input's source. */
  lemma UpdateDependsOnClock(b: Barrier, r: Barrier, s: Input, t: Input, u: Update)
    requires r.clockDomain == b.clockDomain && s.source == t.source
    ensures UpdateInput(r, s, u) == UpdateInput(b, s, u)
    ensures forall c :: OffersTo(b.clockDomain, s.source, c, u) == OffersTo(b.clockDomain, t.source, c, u)
  {
  }

  /** The last update of a history reaches one input and leaves the others alone. */
  lemma ReplayStep(b: Barrier, us: seq<Update>, i: nat)
    requires i < |b.inputs| && us != []
    ensures SameSetup(b, Replay(b, us)) && SameSetup(b, Replay(b, us[..|us| - 1]))
    ensures var (s, u) := (Replay(b, us[..|us| - 1]).inputs[i], us[|us| - 1]);
            && Replay(b, us).inputs[i] == (if Find(b.inputs, u.stream) == i then UpdateInput(b, s, u).1 else s)
            && forall c :: OffersTo(b.clockDomain, s.source, c, u) == OffersTo(b.clockDomain, b.inputs[i].source, c, u)
  {
    var front, u := us[..|us| - 1], us[|us| - 1];
    ReplayKeepsSetup(b, us);
    ReplayKeepsSetup(b, front);
    var r := Replay(b, front);
    SameFind(b.inputs, r.inputs, u.stream, 0);
    UpdateDependsOnClock(b, r, r.inputs[i], b.inputs[i], u);
  }

  lemma ReachedStep(g: Terms, i: nat, c: Channel, us: seq<Update>, t: int)
    requires i < |g.feeds| && us != []
    ensures var u := us[|us| - 1];
            Reached(g, i, c, us, t)
            <==> Reached(g, i, c, us[..|us| - 1], t) || (Offers(g, i, c, u) && u.value >= t)
  {
    var front := us[..|us| - 1];
    if Reached(g, i, c, front, t) {
      var k :| 0 <= k < |front| && Offers(g, i, c, front[k]) && front[k].value >= t;
      assert us[k] == front[k];
    }
    if Reached(g, i, c, us, t) {
      var k :| 0 <= k < |us| && Offers(g, i, c, us[k]) && us[k].value >= t;
      assert k < |front| ==> front[k] == us[k];
    }
  }

  /**
    The state of an input is a threshold on its history: t is reached exactly when the running maximum is at least t.
   */
  lemma {:induction false} StateIsRunningMax(b: Barrier, us: seq<Update>, i: nat, c: Channel, t: int)
    requires Fresh(b) && i < |b.inputs|
    ensures SameSetup(b, Replay(b, us))
    ensures var s := Replay(b, us).inputs[i];
            Reached(TermsOf(b), i, c, us, t) <==> Has(s, c) && Value(s, c) >= t
  {
    ReplayKeepsSetup(b, us);
    if us != [] {
      var front, u := us[..|us| - 1], us[|us| - 1];
      StateIsRunningMax(b, front, i, c, t);
      ReachedStep(TermsOf(b), i, c, us, t);
      ReplayStep(b, us, i);
      UpdateTakesLarger(b, Replay(b, front).inputs[i], c, u);
    }
  }

  /** A channel is set exactly when something was offered on it, and then it holds the largest offer. */
  lemma RunningMaximum(b: Barrier, us: seq<Update>, i: nat, c: Channel)
    requires Fresh(b) && i < |b.inputs|
    ensures SameSetup(b, Replay(b, us))
    ensures var s := Replay(b, us).inputs[i];
            && (Has(s, c) <==> exists k :: 0 <= k < |us| && Offers(TermsOf(b), i, c, us[k]))
            && (Has(s, c) ==> IsLargest(TermsOf(b), i, c, us, Value(s, c)))
  {
    ReplayKeepsSetup(b, us);
    var s := Replay(b, us).inputs[i];
    StateIsRunningMax(b, us, i, c, 0);
    StateIsRunningMax(b, us, i, c, Value(s, c));
    assert Reached(TermsOf(b), i, c, us, 0) <==> exists k :: 0 <= k < |us| && Offers(TermsOf(b), i, c, us[k]) by {
      if k :| 0 <= k < |us| && Offers(TermsOf(b), i, c, us[k]) {
        assert us[k].value >= 0;
      }
    }
    forall t | t > Value(s, c)
      ensures !Reached(TermsOf(b), i, c, us, t)
    {
      StateIsRunningMax(b, us, i, c, t);
    }
  }

  // ---- Staleness ----

  /** An offer at the end of a history that is not below an earlier one. */
  ghost predicate Advances(g: Terms, i: nat, c: Channel, us: seq<Update>)
    requires i < |g.feeds| && us != []
  {
    var u := us[|us| - 1];
    Offers(g, i, c, u) && !Reached(g, i, c, us[..|us| - 1], u.value + 1)
  }

  /** The time of the last observation that advanced its input; 0 when there is none. */
  ghost function LastFresh(g: Terms, i: nat, us: seq<Update>): u64
    requires i < |g.feeds|
  {
    if us == [] then 0
    else if Advances(g, i, SeenSeq, us) || Advances(g, i, SeenTime, us) then us[|us| - 1].now
    else LastFresh(g, i, us[..|us| - 1])
  }

  ghost predicate StaleByHistory(g: Terms, i: nat, us: seq<Update>, now: u64)
    requires i < |g.feeds|
  {
    var last := LastFresh(g, i, us);
    g.allowStale && g.staleTimeout != NULL_U64 && last != 0 && Sub64(now, last) > g.staleTimeout
  }

  /** Accepting an observation, and nothing else, refreshes an input. */
  lemma UpdateRefreshes(b: Barrier, s: Input, u: Update)
    ensures UpdateInput(b, s, u).1.lastObserved ==
            if exists c :: c in {SeenSeq, SeenTime} && OffersTo(b.clockDomain, s.source, c, u)
                && !(Has(s, c) && Value(s, c) >= u.value + 1)
            then u.now else s.lastObserved
  {
    var c := if u.ObservedSeq? then SeenSeq else SeenTime;
    assert c in {SeenSeq, SeenTime};
    if u.ObservedSeq? || u.ObservedTime? {
      assert OffersTo(b.clockDomain, s.source, c, u) && !(Has(s, c) && Value(s, c) >= u.value + 1) ==>
          UpdateInput(b, s, u).1.lastObserved == u.now;
    }
  }

  lemma {:induction false} StalenessFromHistory(b: Barrier, us: seq<Update>, i: nat, now: u64)
    requires Fresh(b) && i < |b.inputs|
    ensures SameSetup(b, Replay(b, us))
    ensures Replay(b, us).inputs[i].lastObserved == LastFresh(TermsOf(b), i, us)
    ensures IsStale(Replay(b, us), Replay(b, us).inputs[i], now) <==> StaleByHistory(TermsOf(b), i, us, now)
  {
    ReplayKeepsSetup(b, us);
    if us != [] {
      var front, u := us[..|us| - 1], us[|us| - 1];
      StalenessFromHistory(b, front, i, now);
      ReplayStep(b, us, i);
      UpdateRefreshes(b, Replay(b, front).inputs[i], u);
      if !u.Invalidate? {
        StateIsRunningMax(b, front, i, SeenSeq, u.value + 1);
        StateIsRunningMax(b, front, i, SeenTime, u.value + 1);
      }
    }
  }

  lemma {:induction false} StaleStreamsAreTheStaleOnes(b: Barrier, now: u64, n: nat, stream: nat)
    requires n <= |b.inputs|
    ensures stream in StaleStreams(b, now, n)
       <==> exists i :: 0 <= i < n && b.inputs[i].stream == stream && IsStale(b, b.inputs[i], now)
    ensures |StaleStreams(b, now, n)| <= n
  {
    if n > 0 {
      StaleStreamsAreTheStaleOnes(b, now, n - 1, stream);
    }
  }

  // ---- Sequence readiness ----

  /** The sequence number a rule means to ask for, negative when it asks in vain. */
  function SequenceTarget(rule: SequenceRule, out: u64): int {
    if rule.ruleType == RULE_OFFSET then out + rule.offset
    else if rule.ruleType == RULE_WINDOW && 0 < rule.window <= out + 1 then out
    else -1
  }

  /** The one it does ask for: past 2^63 an offset sum reads as negative, past 2^64 it starts again at zero. */
  function SequenceAsked(rule: SequenceRule, out: u64): int {
    var target := SequenceTarget(rule, out);
    if rule.ruleType == RULE_OFFSET && target >= U64 then target - U64
    else if rule.ruleType == RULE_OFFSET && target >= U64 / 2 then -1
    else if rule.ruleType == RULE_WINDOW && out == NULL_U64 then -1
    else target
  }

  /** The sums the code forms stay inside its machine words. */
  predicate SequenceFits(rule: SequenceRule, out: u64) {
    && (rule.ruleType == RULE_OFFSET ==> out + rule.offset < U64 / 2)
    && (rule.ruleType == RULE_WINDOW && rule.window > 0 ==> out < NULL_U64)
  }

  /** A rule asks for what it means exactly when its sums fit. */
  lemma AskedIsTargetIffFits(rule: SequenceRule, out: u64)
    ensures SequenceAsked(rule, out) == SequenceTarget(rule, out) <==> SequenceFits(rule, out)
  {
  }

  ghost predicate SequenceRuleMet(g: Terms, i: nat, us: seq<Update>, rule: SequenceRule, out: u64)
    requires i < |g.feeds|
  {
    var asked := SequenceAsked(rule, out);
    && asked >= 0
    && Reached(g, i, SeenSeq, us, asked)
    && (g.requireProcessed ==> Reached(g, i, DoneSeq, us, asked))
  }

  lemma {:induction false} EverySequenceRule(b: Barrier, out: u64, now: u64, i: nat)
    requires |b.inputs| == |b.sequenceRules| && i <= |b.inputs|
    ensures SequenceReadyFrom(b, out, now, i) == 1
       <==> forall j :: i <= j < |b.inputs| ==>
              IsStale(b, b.inputs[j], now) || SequenceRuleReady(b, b.sequenceRules[j], b.inputs[j], out) == 1
    decreases |b.inputs| - i
  {
    if i < |b.inputs| {
      EverySequenceRule(b, out, now, i + 1);
    }
  }

  /** Reading the out-sequence as signed and adding the offset gives the exact sum precisely when that sum fits. */
  lemma SignedSum(out: u64, offset: int)
    requires -(U64 / 2) <= offset < U64 / 2
    ensures Int64(Int64(out) + offset) == out + offset <==> out + offset < U64 / 2
    ensures U64 / 2 <= out + offset < U64 ==> Int64(Int64(out) + offset) < 0
    ensures U64 <= out + offset ==> Int64(Int64(out) + offset) == out + offset - U64
  {
    assert Int64(out) == if out < U64 / 2 then out else out - U64 by { InRange(out, U64); }
    var x := Int64(out) + offset;
    var t := out + offset;
    if t < 0 {
      DivModUnique(x, U64, -1, t + U64);
    } else if t < U64 {
      if out < U64 / 2 { DivModUnique(x, U64, 0, t); } else { DivModUnique(x, U64, -1, t); }
    } else {
      if out < U64 / 2 { DivModUnique(x, U64, 1, t - U64); } else { DivModUnique(x, U64, 0, t - U64); }
    }
  }

  lemma SequenceRuleOnState(b: Barrier, rule: SequenceRule, s: Input, out: u64)
    ensures var asked := SequenceAsked(rule, out);
            SequenceRuleReady(b, rule, s, out) == 1 <==>
            && asked >= 0 && s.hasObservedSeq && s.observedSeq >= asked
            && (b.requireProcessed ==> s.hasProcessedSeq && s.processedSeq >= asked)
  {
    SignedSum(out, rule.offset);
    if out < NULL_U64 { InRange(out + 1, U64); } else { DivModUnique(out + 1, U64, 1, 0); }
  }

  lemma SequenceRuleFromHistory(b: Barrier, us: seq<Update>, i: nat, rule: SequenceRule, out: u64)
    requires Fresh(b) && i < |b.inputs|
    ensures SameSetup(b, Replay(b, us))
    ensures SequenceRuleReady(Replay(b, us), rule, Replay(b, us).inputs[i], out) == 1
       <==> SequenceRuleMet(TermsOf(b), i, us, rule, out)
  {
    var asked := SequenceAsked(rule, out);
    StateIsRunningMax(b, us, i, SeenSeq, asked);
    StateIsRunningMax(b, us, i, DoneSeq, asked);
    SequenceRuleOnState(Replay(b, us), rule, Replay(b, us).inputs[i], out);
  }

  /**
    Readiness is a property of the history alone: there are rules, and every rule whose input is not stale has been
    offered a sequence number at least as large as the one it asks for (and processed one, where that is required).
   */
  lemma SequenceReadyIffHistory(b: Barrier, us: seq<Update>, out: u64, now: u64)
    requires Fresh(b) && b.kind == Sequence && |b.sequenceRules| == |b.inputs|
    ensures |Replay(b, us).inputs| == |Replay(b, us).sequenceRules|
    ensures SequenceReady(Replay(b, us), out, now) == 1
       <==> |b.inputs| > 0 && forall i :: 0 <= i < |b.inputs| ==>
              StaleByHistory(TermsOf(b), i, us, now) || SequenceRuleMet(TermsOf(b), i, us, b.sequenceRules[i], out)
  {
    ReplayKeepsSetup(b, us);
    EverySequenceRule(Replay(b, us), out, now, 0);
    forall i | 0 <= i < |b.inputs|
      ensures IsStale(Replay(b, us), Replay(b, us).inputs[i], now) <==> StaleByHistory(TermsOf(b), i, us, now)
      ensures SequenceRuleReady(Replay(b, us), b.sequenceRules[i], Replay(b, us).inputs[i], out) == 1
         <==> SequenceRuleMet(TermsOf(b), i, us, b.sequenceRules[i], out)
    {
      StalenessFromHistory(b, us, i, now);
      SequenceRuleFromHistory(b, us, i, b.sequenceRules[i], out);
    }
  }

  /** The input has the numbers a rule looks at; without them the answer is no, and rightly so. */
  predicate HasSequences(b: Barrier, s: Input) { s.hasObservedSeq && (b.requireProcessed ==> s.hasProcessedSeq) }

  /** With v observed and w processed, the rule answers as exact arithmetic would. */
  ghost predicate SequenceExactAt(b: Barrier, rule: SequenceRule, s: Input, out: u64, v: u64, w: u64) {
    SequenceRuleReady(b, rule, s.(observedSeq := v, processedSeq := w), out) == 1 <==>
      HasSequences(b, s) && 0 <= SequenceTarget(rule, out) <= v
          && (b.requireProcessed ==> SequenceTarget(rule, out) <= w)
  }

  /**
    Outside that range the code does not compute the rule's meaning: a rule agrees with exact arithmetic on all observed
    and processed sequence numbers exactly when its sums fit the machine word, or the input lacks them.
   */
  lemma SequenceRuleExactIffFits(b: Barrier, rule: SequenceRule, s: Input, out: u64)
    ensures (forall v: u64, w: u64 :: SequenceExactAt(b, rule, s, out, v, w))
          <==> SequenceFits(rule, out) || !HasSequences(b, s)
  {
    var t, asked := SequenceTarget(rule, out), SequenceAsked(rule, out);
    forall v: u64, w: u64
      ensures SequenceExactAt(b, rule, s, out, v, w) <==>
                (HasSequences(b, s) ==> ((0 <= asked <= v && (b.requireProcessed ==> asked <= w))
                                    <==> (0 <= t <= v && (b.requireProcessed ==> t <= w))))
    {
      SequenceRuleOnState(b, rule, s.(observedSeq := v, processedSeq := w), out);
    }
    AskedIsTargetIffFits(rule, out);
    if !SequenceFits(rule, out) && HasSequences(b, s) {
      var v: u64 := if t < U64 then t else t - U64;
      assert !SequenceExactAt(b, rule, s, out, v, v);
    }
  }

  /** For instance, at the last out-sequence an offset of 5 asks only for sequence number 4. */
  lemma LastOutSequenceAsksForFour(b: Barrier, rule: SequenceRule, s: Input)
    requires rule == SequenceRule(1, RULE_OFFSET, 5, 0) && !b.requireProcessed && s.hasObservedSeq && s.observedSeq == 4
    ensures SequenceRuleReady(b, rule, s, NULL_U64) == 1 && s.observedSeq < SequenceTarget(rule, NULL_U64)
  {
    SequenceRuleOnState(b, rule, s, NULL_U64);
  }

  /** And a window is never ready there, even when that very number was observed. */
  lemma LastOutSequenceClosesWindows(b: Barrier, rule: SequenceRule, s: Input)
    requires rule == SequenceRule(1, RULE_WINDOW, 0, 1) && s.hasObservedSeq && s.observedSeq == NULL_U64
    ensures SequenceRuleReady(b, rule, s, NULL_U64) == 0 && s.observedSeq >= SequenceTarget(rule, NULL_U64) >= 0
  {
    DivModUnique(NULL_U64 + 1, U64, 1, 0);
  }

  /** More updates never take an input's maxima back. */
  lemma {:induction false} ReplayGrows(b: Barrier, us: seq<Update>, i: nat, c: Channel)
    requires i < |b.inputs|
    ensures SameSetup(b, Replay(b, us))
    ensures Has(b.inputs[i], c) ==> Has(Replay(b, us).inputs[i], c)
    ensures Has(b.inputs[i], c) ==> Value(b.inputs[i], c) <= Value(Replay(b, us).inputs[i], c)
  {
    ReplayKeepsSetup(b, us);
    if us != [] {
      var front, u := us[..|us| - 1], us[|us| - 1];
      ReplayGrows(b, front, i, c);
      ReplayStep(b, us, i);
      UpdateTakesLarger(b, Replay(b, front).inputs[i], c, u);
    }
  }

  /** With staleness off a sequence barrier that answered 1 answers 1 until another map is applied. */
  lemma SequenceReadyIsStable(b: Barrier, us: seq<Update>, out: u64, now: u64, later: u64)
    requires b.kind == Sequence && |b.sequenceRules| == |b.inputs| && !b.allowStale
    requires SequenceReady(b, out, now) == 1
    ensures |Replay(b, us).inputs| == |Replay(b, us).sequenceRules|
    ensures SequenceReady(Replay(b, us), out, later) == 1
  {
    ReplayKeepsSetup(b, us);
    EverySequenceRule(b, out, now, 0);
    EverySequenceRule(Replay(b, us), out, later, 0);
    forall i | 0 <= i < |b.inputs|
      ensures SequenceRuleReady(Replay(b, us), b.sequenceRules[i], Replay(b, us).inputs[i], out) == 1
    {
      ReplayGrows(b, us, i, SeenSeq);
      ReplayGrows(b, us, i, DoneSeq);
    }
  }
}
