/**
  The join barrier: per-input running state under a merge map, and the three readiness decisions.
  Values are 64-bit words; sums, differences and conversions to signed are formed as C forms them.
 */
module JoinBarrier {
  import opened Bits

  const RULE_OFFSET := 0
  const RULE_WINDOW := 1

  const ORDER_SEQUENCE := 1
  const ORDER_TIMESTAMP := 2

  type i64 = x: int | -0x8000_0000_0000_0000 <= x < 0x8000_0000_0000_0000

  datatype Kind = Sequence | Timestamp | LatestValue

  datatype SequenceRule = SequenceRule(input: nat, ruleType: int, offset: i32, window: u64)

  datatype TimestampRule = TimestampRule(input: nat, ruleType: int, source: nat, offset: i64, window: u64)

  datatype SequenceMap = SequenceMap(outStream: nat, epoch: u64, staleTimeout: u64, rules: seq<SequenceRule>)

  datatype TimestampMap = TimestampMap(
    outStream: nat, epoch: u64, staleTimeout: u64, clockDomain: nat, lateness: u64, rules: seq<TimestampRule>)

  datatype Input = Input(
    stream: nat,
    source: nat,
    observedSeq: u64,
    processedSeq: u64,
    observedTime: u64,
    processedTime: u64,
    minSeq: u64,
    lastObserved: u64,
    lastProcessed: u64,
    hasObservedSeq: bool,
    hasProcessedSeq: bool,
    hasObservedTime: bool,
    hasProcessedTime: bool,
    hasMinSeq: bool,
    latestValid: bool)

  const Cleared := Input(0, 0, 0, 0, 0, 0, 0, 0, 0, false, false, false, false, false, false)

  /** Everything a barrier decides with: the map's parameters, the rules in force, and the inputs in rule order. */
  datatype Barrier = Barrier(
    kind: Kind,
    outStream: nat,
    epoch: u64,
    staleTimeout: u64,
    lateness: u64,
    lastOutTime: u64,
    hasLastOutTime: bool,
    clockDomain: nat,
    allowStale: bool,
    requireProcessed: bool,
    ordering: int,
    capacity: nat,
    sequenceRules: seq<SequenceRule>,
    timestampRules: seq<TimestampRule>,
    inputs: seq<Input>)

  // ---- Applying a map ----

  /** Applying a sequence map forgets everything but the barrier's own settings. */
  function ApplySequenceMap(b: Barrier, kind: Kind, m: SequenceMap): (r: (bool, Barrier)) {
    if |m.rules| > b.capacity || b.kind != kind then (false, b)
    else (true, b.(outStream := m.outStream, epoch := m.epoch, staleTimeout := m.staleTimeout, lateness := NULL_U64,
                   lastOutTime := 0, hasLastOutTime := false, clockDomain := 0,
                   sequenceRules := if kind == Sequence then m.rules else [], timestampRules := [],
                   inputs := SequenceInputs(m.rules)))
  }

  function SequenceInputs(rules: seq<SequenceRule>): seq<Input> {
    seq(|rules|, i requires 0 <= i < |rules| => Cleared.(stream := rules[i].input))
  }

  function ApplyTimestampMap(b: Barrier, kind: Kind, m: TimestampMap): (r: (bool, Barrier)) {
    if |m.rules| > b.capacity || b.kind != kind then (false, b)
    else (true, b.(outStream := m.outStream, epoch := m.epoch, staleTimeout := m.staleTimeout,
                   lateness := if m.lateness == NULL_U64 then 0 else m.lateness,
                   lastOutTime := 0, hasLastOutTime := false, clockDomain := m.clockDomain,
                   sequenceRules := [], timestampRules := if kind == Timestamp then m.rules else [],
                   inputs := TimestampInputs(m.rules)))
  }

  function TimestampInputs(rules: seq<TimestampRule>): seq<Input> {
    seq(|rules|, i requires 0 <= i < |rules| => Cleared.(stream := rules[i].input, source := rules[i].source))
  }

  // ---- Updates ----

  /** The first input of a stream from position i on, or the number of inputs. */
  function Find(inputs: seq<Input>, stream: nat, i: nat := 0): (r: nat)
    requires i <= |inputs|
    ensures i <= r <= |inputs|
    ensures r < |inputs| ==> inputs[r].stream == stream
    ensures forall j :: i <= j < r ==> inputs[j].stream != stream
    decreases |inputs| - i
  {
    if i == |inputs| || inputs[i].stream == stream then i else Find(inputs, stream, i + 1)
  }

  datatype Update =
    | ObservedSeq(stream: nat, value: u64, now: u64)
    | ProcessedSeq(stream: nat, value: u64, now: u64)
    | ObservedTime(stream: nat, value: u64, now: u64, source: nat, clockDomain: nat)
    | ProcessedTime(stream: nat, value: u64, now: u64, source: nat, clockDomain: nat)
    | Invalidate(stream: nat)

  /** A timestamp update must come from the map's clock and from the source its rule names. */
  predicate TimestampAllowed(b: Barrier, s: Input, u: Update)
    requires u.ObservedTime? || u.ProcessedTime?
  {
    && (b.clockDomain == 0 || u.clockDomain == b.clockDomain)
    && (s.source == 0 || u.source == s.source)
  }

  /** The effect of an update on the input it names: whether it is accepted, and the new state. */
  function UpdateInput(b: Barrier, s: Input, u: Update): (r: (bool, Input)) {
    match u
    case ObservedSeq(_, value, now) =>
      if s.hasObservedSeq && value < s.observedSeq then (false, s)
      else (true, s.(observedSeq := value, hasObservedSeq := true,
                     minSeq := if s.hasMinSeq then s.minSeq else value, hasMinSeq := true,
                     latestValid := true, lastObserved := now))
    case ProcessedSeq(_, value, now) =>
      if s.hasProcessedSeq && value < s.processedSeq then (false, s)
      else (true, s.(processedSeq := value, hasProcessedSeq := true, lastProcessed := now))
    case ObservedTime(_, value, now, _, _) =>
      if !TimestampAllowed(b, s, u) then (false, s)
      else if value == NULL_U64 then (true, s)
      else if s.hasObservedTime && value < s.observedTime then (false, s)
      else (true, s.(observedTime := value, hasObservedTime := true, latestValid := true, lastObserved := now))
    case ProcessedTime(_, value, now, _, _) =>
      if !TimestampAllowed(b, s, u) then (false, s)
      else if value == NULL_U64 then (true, s)
      else if s.hasProcessedTime && value < s.processedTime then (false, s)
      else (true, s.(processedTime := value, hasProcessedTime := true, lastProcessed := now))
    case Invalidate(_) => (true, s.(latestValid := false))
  }

  function ApplyUpdate(b: Barrier, u: Update): (r: (bool, Barrier)) {
    var i := Find(b.inputs, u.stream);
    if i == |b.inputs| then (false, b) else
      var (ok, s) := UpdateInput(b, b.inputs[i], u);
      (ok, b.(inputs := b.inputs[i := s]))
  }

  // ---- Staleness and readiness ----

  predicate IsStale(b: Barrier, s: Input, now: u64) {
    b.allowStale && b.staleTimeout != NULL_U64 && s.lastObserved != 0 && Sub64(now, s.lastObserved) > b.staleTimeout
  }

  /** One rule of a sequence barrier: 1 ready, 0 not ready, -1 invalid. */
  function SequenceRuleReady(b: Barrier, rule: SequenceRule, s: Input, out: u64): int {
    if !s.hasObservedSeq then 0
    else if rule.ruleType == RULE_OFFSET then
      var required := Int64(Int64(out) + rule.offset);
      if required < 0 then 0 else SequenceReached(b, s, required)
    else if rule.ruleType == RULE_WINDOW then
      if rule.window == 0 || Add64(out, 1) < rule.window then 0 else SequenceReached(b, s, out)
    else -1
  }

  function SequenceReached(b: Barrier, s: Input, required: u64): int {
    if s.observedSeq < required then 0
    else if b.requireProcessed && (!s.hasProcessedSeq || s.processedSeq < required) then 0
    else 1
  }

  /** The rules from i on, in order; the first that is not ready decides. */
  function SequenceReadyFrom(b: Barrier, out: u64, now: u64, i: nat): int
    requires |b.inputs| == |b.sequenceRules| && i <= |b.inputs|
    decreases |b.inputs| - i
  {
    if i == |b.inputs| then 1
    else if IsStale(b, b.inputs[i], now) then SequenceReadyFrom(b, out, now, i + 1)
    else
      var ready := SequenceRuleReady(b, b.sequenceRules[i], b.inputs[i], out);
      if ready <= 0 then ready else SequenceReadyFrom(b, out, now, i + 1)
  }

  function SequenceReady(b: Barrier, out: u64, now: u64): int
    requires b.kind == Sequence ==> |b.inputs| == |b.sequenceRules|
  {
    if b.kind != Sequence then -1 else if |b.inputs| == 0 then 0 else SequenceReadyFrom(b, out, now, 0)
  }

  /** One rule of a timestamp barrier, with the lateness allowance. */
  function TimestampRuleReady(b: Barrier, rule: TimestampRule, s: Input, out: u64): int {
    var lateness := if b.lateness == NULL_U64 then 0 else b.lateness;
    if !s.hasObservedTime then 0
    else if rule.ruleType == RULE_OFFSET then
      var required := Int64(Int64(out) + rule.offset);
      if required < 0 then
        var offset: int := rule.offset;
        var threshold := if offset < 0 then Add64(lateness, (-offset) % U64) else lateness;
        if out < threshold then 0 else TimestampReached(b, s, lateness, 0)
      else TimestampReached(b, s, lateness, required)
    else if rule.ruleType == RULE_WINDOW then
      if rule.window == 0 then -1
      else if out < rule.window then 0
      else TimestampReached(b, s, lateness, out)
    else -1
  }

  function TimestampReached(b: Barrier, s: Input, lateness: u64, required: u64): int {
    if Add64(s.observedTime, lateness) < required then 0
    else if b.requireProcessed && (!s.hasProcessedTime || Add64(s.processedTime, lateness) < required) then 0
    else 1
  }

  function TimestampReadyFrom(b: Barrier, out: u64, now: u64, i: nat): int
    requires |b.inputs| == |b.timestampRules| && i <= |b.inputs|
    decreases |b.inputs| - i
  {
    if i == |b.inputs| then 1
    else if IsStale(b, b.inputs[i], now) then TimestampReadyFrom(b, out, now, i + 1)
    else
      var ready := TimestampRuleReady(b, b.timestampRules[i], b.inputs[i], out);
      if ready <= 0 then ready else TimestampReadyFrom(b, out, now, i + 1)
  }

  /** An out-time that passes the clock and regression checks is remembered, whatever the verdict. */
  function TimestampReady(b: Barrier, out: u64, clockDomain: nat, now: u64): (r: (int, Barrier))
    requires b.kind == Timestamp ==> |b.inputs| == |b.timestampRules|
  {
    if b.kind != Timestamp then (-1, b)
    else if |b.inputs| == 0 then (0, b)
    else if b.clockDomain != 0 && clockDomain != b.clockDomain then (-1, b)
    else if b.hasLastOutTime && out < b.lastOutTime then (-1, b)
    else
      var b' := b.(lastOutTime := out, hasLastOutTime := true);
      (TimestampReadyFrom(b', out, now, 0), b')
  }

  /** One input of a latest-value barrier. */
  function LatestInputReady(b: Barrier, s: Input, out: u64, clockDomain: nat): int {
    if b.ordering == ORDER_SEQUENCE && !s.hasObservedSeq then 0
    else if b.ordering == ORDER_TIMESTAMP && !s.hasObservedTime then 0
    else if b.clockDomain != 0 && clockDomain != b.clockDomain then -1
    else if b.ordering == ORDER_TIMESTAMP && s.source == 0 then -1
    else if !s.latestValid then 0
    else if !s.hasObservedSeq && !s.hasObservedTime then 0
    else if b.clockDomain != 0 && !s.hasObservedTime then 0
    else if !s.hasMinSeq then 0
    else if s.hasObservedSeq && s.observedSeq < s.minSeq then 0
    else if s.hasObservedTime && s.observedTime > 0 && out == 0 then 0
    else 1
  }

  function LatestReadyFrom(b: Barrier, out: u64, clockDomain: nat, now: u64, i: nat): int
    requires i <= |b.inputs|
    decreases |b.inputs| - i
  {
    if i == |b.inputs| then 1
    else if IsStale(b, b.inputs[i], now) then LatestReadyFrom(b, out, clockDomain, now, i + 1)
    else
      var ready := LatestInputReady(b, b.inputs[i], out, clockDomain);
      if ready <= 0 then ready else LatestReadyFrom(b, out, clockDomain, now, i + 1)
  }

  function LatestReady(b: Barrier, out: u64, clockDomain: nat, now: u64): (r: (int, Barrier)) {
    if b.kind != LatestValue then (-1, b)
    else if |b.inputs| == 0 then (0, b)
    else if b.ordering == ORDER_TIMESTAMP && b.clockDomain == 0 then (-1, b)
    else if b.ordering == ORDER_TIMESTAMP && b.hasLastOutTime && out < b.lastOutTime then (-1, b)
    else
      var b' := if b.ordering == ORDER_TIMESTAMP then b.(lastOutTime := out, hasLastOutTime := true) else b;
      (LatestReadyFrom(b', out, clockDomain, now, 0), b')
  }

  datatype Selection = Selection(stream: nat, sequence: u64, timestamp: u64, source: nat)

  predicate Collectable(b: Barrier, s: Input) {
    && s.latestValid && s.hasMinSeq
    && (b.ordering == ORDER_SEQUENCE ==> s.hasObservedSeq)
    && (b.ordering == ORDER_TIMESTAMP ==> s.hasObservedTime && s.source != 0)
  }

  function SelectionOf(s: Input): Selection { Selection(s.stream, s.observedSeq, s.observedTime, s.source) }

  /** Collecting the latest values: every input must qualify. */
  function CollectLatest(b: Barrier, capacity: nat): (r: (bool, seq<Selection>)) {
    if b.kind != LatestValue || |b.inputs| > capacity || (b.ordering == ORDER_TIMESTAMP && b.clockDomain == 0)
       || exists i :: 0 <= i < |b.inputs| && !Collectable(b, b.inputs[i])
    then (false, [])
    else (true, seq(|b.inputs|, i requires 0 <= i < |b.inputs| => SelectionOf(b.inputs[i])))
  }

  lemma {:induction false} NothingStale(b: Barrier, now: u64, n: nat)
    requires n <= |b.inputs| && (n == 0 || !b.allowStale || b.staleTimeout == NULL_U64)
    ensures StaleStreams(b, now, n) == []
  {
    if n > 0 {
      NothingStale(b, now, n - 1);
    }
  }

  /** The streams that are stale, in rule order. */
  function StaleStreams(b: Barrier, now: u64, n: nat): seq<nat>
    requires n <= |b.inputs|
  {
    if n == 0 then []
    else StaleStreams(b, now, n - 1) + (if IsStale(b, b.inputs[n - 1], now) then [b.inputs[n - 1].stream] else [])
  }
}
