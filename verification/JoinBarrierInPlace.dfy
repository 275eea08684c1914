/** The barrier as the structure it is: fixed arrays of rules and input states, updated in place. */
module JoinBarrierInPlace {
  import opened Bits
  import opened JoinBarrier

  class BarrierState {
    const kind: Kind
    const capacity: nat
    const sequenceRules: array<SequenceRule>
    const timestampRules: array<TimestampRule>
    const inputs: array<Input>
    var outStream: nat
    var epoch: u64
    var staleTimeout: u64
    var lateness: u64
    var lastOutTime: u64
    var hasLastOutTime: bool
    var clockDomain: nat
    var allowStale: bool
    var requireProcessed: bool
    var ordering: int
    var ruleCount: nat

    ghost predicate Valid()
      reads this
    {
      && sequenceRules.Length == timestampRules.Length == inputs.Length == capacity
      && ruleCount <= capacity
    }

    ghost function View(): (b: Barrier)
      reads this, sequenceRules, timestampRules, inputs
      requires Valid()
      ensures b.kind == kind && b.capacity == capacity && |b.inputs| == ruleCount
      ensures kind == Sequence ==> |b.sequenceRules| == ruleCount
      ensures kind == Timestamp ==> |b.timestampRules| == ruleCount
    {
      Barrier(kind, outStream, epoch, staleTimeout, lateness, lastOutTime, hasLastOutTime, clockDomain,
              allowStale, requireProcessed, ordering, capacity,
              if kind == Sequence then sequenceRules[..ruleCount] else [],
              if kind == Timestamp then timestampRules[..ruleCount] else [],
              inputs[..ruleCount])
    }

    constructor (kind: Kind, capacity: nat)
      ensures Valid() && this.kind == kind && this.capacity == capacity
      ensures View() == Barrier(kind, 0, 0, NULL_U64, NULL_U64, 0, false, 0, false, false, ORDER_SEQUENCE, capacity,
            [], [], [])
      ensures fresh(sequenceRules) && fresh(timestampRules) && fresh(inputs)
    {
      this.kind, this.capacity := kind, capacity;
      sequenceRules := new SequenceRule[capacity](_ => SequenceRule(0, 0, 0, 0));
      timestampRules := new TimestampRule[capacity](_ => TimestampRule(0, 0, 0, 0, 0));
      inputs := new Input[capacity](_ => Cleared);
      outStream, epoch, staleTimeout, lateness := 0, 0, NULL_U64, NULL_U64;
      lastOutTime, hasLastOutTime, clockDomain := 0, false, 0;
      allowStale, requireProcessed, ordering, ruleCount := false, false, ORDER_SEQUENCE, 0;
    }

    /** Forgets the map and every input; the caller's settings stay. */
    method Clear()
      requires Valid()
      modifies this, inputs
      ensures Valid() && ruleCount == 0
      ensures forall i :: 0 <= i < capacity ==> inputs[i] == Cleared
      ensures allowStale == old(allowStale) && requireProcessed == old(requireProcessed) && ordering == old(ordering)
      ensures clockDomain == 0 && lateness == NULL_U64 && lastOutTime == 0 && !hasLastOutTime
    {
      outStream, epoch, staleTimeout, lateness := 0, 0, NULL_U64, NULL_U64;
      lastOutTime, hasLastOutTime, clockDomain, ruleCount := 0, false, 0, 0;
      for i := 0 to capacity
        modifies inputs
        invariant forall j :: 0 <= j < i ==> inputs[j] == Cleared
      {
        inputs[i] := Cleared;
      }
    }

    method LoadSequenceRules(m: SequenceMap)
      requires Valid() && |m.rules| == ruleCount
      requires forall j :: 0 <= j < capacity ==> inputs[j] == Cleared
      modifies inputs, sequenceRules
      ensures sequenceRules[..ruleCount] == m.rules
      ensures inputs[..ruleCount] == SequenceInputs(m.rules)
    {
      for i := 0 to |m.rules|
        modifies inputs, sequenceRules
        invariant sequenceRules[..i] == m.rules[..i]
        invariant forall j :: 0 <= j < i ==> inputs[j] == Cleared.(stream := m.rules[j].input)
        invariant forall j :: i <= j < capacity ==> inputs[j] == Cleared
      {
        sequenceRules[i] := m.rules[i];
        inputs[i] := inputs[i].(stream := m.rules[i].input, latestValid := false);
      }
      assert m.rules[..|m.rules|] == m.rules;
    }

    /** Both entry points for a sequence map: the barrier must be of the kind the caller asks for. */
    method ApplySequence(wanted: Kind, m: SequenceMap) returns (ok: bool)
      requires Valid() && wanted in {Sequence, LatestValue}
      modifies this, inputs, sequenceRules
      ensures Valid() && ok == ApplySequenceMap(old(View()), wanted, m).0
      ensures View() == ApplySequenceMap(old(View()), wanted, m).1
    {
      if |m.rules| > capacity || kind != wanted { return false; }
      Clear();
      outStream, epoch, staleTimeout := m.outStream, m.epoch, m.staleTimeout;
      ruleCount := |m.rules|;
      LoadSequenceRules(m);
      ok := true;
    }

    method LoadTimestampRules(m: TimestampMap)
      requires Valid() && |m.rules| == ruleCount
      requires forall j :: 0 <= j < capacity ==> inputs[j] == Cleared
      modifies inputs, timestampRules
      ensures timestampRules[..ruleCount] == m.rules
      ensures inputs[..ruleCount] == TimestampInputs(m.rules)
    {
      for i := 0 to |m.rules|
        modifies inputs, timestampRules
        invariant timestampRules[..i] == m.rules[..i]
        invariant forall j :: 0 <= j < i ==>
          inputs[j] == Cleared.(stream := m.rules[j].input, source := m.rules[j].source)
        invariant forall j :: i <= j < capacity ==> inputs[j] == Cleared
      {
        timestampRules[i] := m.rules[i];
        inputs[i] := inputs[i].(stream := m.rules[i].input, source := m.rules[i].source, latestValid := false);
      }
      assert m.rules[..|m.rules|] == m.rules;
    }

    /** Both entry points for a timestamp map. */
    method ApplyTimestamp(wanted: Kind, m: TimestampMap) returns (ok: bool)
      requires Valid() && wanted in {Timestamp, LatestValue}
      modifies this, inputs, timestampRules
      ensures Valid() && ok == ApplyTimestampMap(old(View()), wanted, m).0
      ensures View() == ApplyTimestampMap(old(View()), wanted, m).1
    {
      if |m.rules| > capacity || kind != wanted { return false; }
      Clear();
      outStream, epoch, staleTimeout := m.outStream, m.epoch, m.staleTimeout;
      lateness := if m.lateness == NULL_U64 then 0 else m.lateness;
      clockDomain := m.clockDomain;
      ruleCount := |m.rules|;
      LoadTimestampRules(m);
      ok := true;
    }

    /** Linear search for the first input of a stream; ruleCount when there is none. */
    method FindState(stream: nat) returns (i: nat)
      requires Valid()
      ensures i == Find(View().inputs, stream)
    {
      i := 0;
      while i < ruleCount
        invariant i <= ruleCount
        invariant Find(inputs[..ruleCount], stream, i) == Find(inputs[..ruleCount], stream, 0)
      {
        if inputs[i].stream == stream { return; }
        i := i + 1;
      }
    }

    method UpdateObservedSeq(stream: nat, value: u64, now: u64) returns (ok: bool)
      requires Valid()
      modifies inputs
      ensures ok == ApplyUpdate(old(View()), ObservedSeq(stream, value, now)).0
      ensures View() == ApplyUpdate(old(View()), ObservedSeq(stream, value, now)).1
    {
      ghost var was := inputs[..ruleCount];
      var i := FindState(stream);
      if i == ruleCount { return false; }
      var s := inputs[i];
      if s.hasObservedSeq && value < s.observedSeq {
        assert was[i := s] == was;
        return false;
      }
      inputs[i] := s.(observedSeq := value, hasObservedSeq := true);
      if !s.hasMinSeq {
        inputs[i] := inputs[i].(minSeq := value, hasMinSeq := true);
      }
      inputs[i] := inputs[i].(latestValid := true, lastObserved := now);
      ok := true;
      assert inputs[..ruleCount] == was[i := inputs[i]];
    }

    method UpdateProcessedSeq(stream: nat, value: u64, now: u64) returns (ok: bool)
      requires Valid()
      modifies inputs
      ensures ok == ApplyUpdate(old(View()), ProcessedSeq(stream, value, now)).0
      ensures View() == ApplyUpdate(old(View()), ProcessedSeq(stream, value, now)).1
    {
      ghost var was := inputs[..ruleCount];
      var i := FindState(stream);
      if i == ruleCount { return false; }
      var s := inputs[i];
      if s.hasProcessedSeq && value < s.processedSeq {
        assert was[i := s] == was;
        return false;
      }
      inputs[i] := s.(processedSeq := value, hasProcessedSeq := true, lastProcessed := now);
      ok := true;
      assert inputs[..ruleCount] == was[i := inputs[i]];
    }

    method UpdateObservedTime(stream: nat, value: u64, source: nat, domain: nat, now: u64) returns (ok: bool)
      requires Valid()
      modifies inputs
      ensures ok == ApplyUpdate(old(View()), ObservedTime(stream, value, now, source, domain)).0
      ensures View() == ApplyUpdate(old(View()), ObservedTime(stream, value, now, source, domain)).1
    {
      ghost var was := inputs[..ruleCount];
      var i := FindState(stream);
      if i == ruleCount { return false; }
      var s := inputs[i];
      assert was[i := s] == was;
      if clockDomain != 0 && domain != clockDomain { return false; }
      if s.source != 0 && source != s.source { return false; }
      if value == NULL_U64 { return true; }
      if s.hasObservedTime && value < s.observedTime { return false; }
      inputs[i] := s.(observedTime := value, hasObservedTime := true, latestValid := true, lastObserved := now);
      ok := true;
      assert inputs[..ruleCount] == was[i := inputs[i]];
    }

    method UpdateProcessedTime(stream: nat, value: u64, source: nat, domain: nat, now: u64) returns (ok: bool)
      requires Valid()
      modifies inputs
      ensures ok == ApplyUpdate(old(View()), ProcessedTime(stream, value, now, source, domain)).0
      ensures View() == ApplyUpdate(old(View()), ProcessedTime(stream, value, now, source, domain)).1
    {
      ghost var was := inputs[..ruleCount];
      var i := FindState(stream);
      if i == ruleCount { return false; }
      var s := inputs[i];
      assert was[i := s] == was;
      if clockDomain != 0 && domain != clockDomain { return false; }
      if s.source != 0 && source != s.source { return false; }
      if value == NULL_U64 { return true; }
      if s.hasProcessedTime && value < s.processedTime { return false; }
      inputs[i] := s.(processedTime := value, hasProcessedTime := true, lastProcessed := now);
      ok := true;
      assert inputs[..ruleCount] == was[i := inputs[i]];
    }

    method InvalidateLatest(stream: nat) returns (ok: bool)
      requires Valid()
      modifies inputs
      ensures ok == ApplyUpdate(old(View()), Invalidate(stream)).0
      ensures View() == ApplyUpdate(old(View()), Invalidate(stream)).1
    {
      ghost var was := inputs[..ruleCount];
      var i := FindState(stream);
      if i == ruleCount { return false; }
      inputs[i] := inputs[i].(latestValid := false);
      ok := true;
      assert inputs[..ruleCount] == was[i := inputs[i]];
    }

    method Stale(i: nat, now: u64) returns (stale: bool)
      requires Valid() && i < ruleCount
      ensures stale == IsStale(View(), View().inputs[i], now)
    {
      if !allowStale || staleTimeout == NULL_U64 { return false; }
      if inputs[i].lastObserved == 0 { return false; }
      stale := Sub64(now, inputs[i].lastObserved) > staleTimeout;
    }

    method IsReadySequence(out: u64, now: u64) returns (ready: int)
      requires Valid()
      ensures ready == SequenceReady(View(), out, now)
    {
      if kind != Sequence { return -1; }
      if ruleCount == 0 { return 0; }
      ghost var b := View();
      var i := 0;
      while i < ruleCount
        invariant i <= ruleCount
        invariant SequenceReadyFrom(b, out, now, i) == SequenceReadyFrom(b, out, now, 0)
      {
        var stale := Stale(i, now);
        if !stale {
          var rule, s := sequenceRules[i], inputs[i];
          if !s.hasObservedSeq { return 0; }
          var required: int;
          if rule.ruleType == RULE_OFFSET {
            required := Int64(Int64(out) + rule.offset);
            if required < 0 { return 0; }
          } else if rule.ruleType == RULE_WINDOW {
            if rule.window == 0 { return 0; }
            if Add64(out, 1) < rule.window { return 0; }
            required := out;
          } else {
            return -1;
          }
          if s.observedSeq < required { return 0; }
          if requireProcessed {
            if !s.hasProcessedSeq || s.processedSeq < required { return 0; }
          }
        }
        i := i + 1;
      }
      ready := 1;
    }

    method RuleReadyTimestamp(i: nat, out: u64) returns (ready: int)
      requires Valid() && kind == Timestamp && i < ruleCount
      ensures ready == TimestampRuleReady(View(), timestampRules[i], inputs[i], out)
    {
      var rule, s := timestampRules[i], inputs[i];
      var late := if lateness == NULL_U64 then 0 else lateness;
      if !s.hasObservedTime { return 0; }
      var required: int;
      if rule.ruleType == RULE_OFFSET {
        required := Int64(Int64(out) + rule.offset);
        if required < 0 {
          var threshold := late;
          var offset: int := rule.offset;
          if offset < 0 { threshold := Add64(threshold, (-offset) % U64); }
          if out < threshold { return 0; }
          required := 0;
        }
      } else if rule.ruleType == RULE_WINDOW {
        if rule.window == 0 { return -1; }
        if out < rule.window { return 0; }
        required := out;
      } else {
        return -1;
      }
      if Add64(s.observedTime, late) < required { return 0; }
      if requireProcessed {
        if !s.hasProcessedTime || Add64(s.processedTime, late) < required { return 0; }
      }
      ready := 1;
    }

    method IsReadyTimestamp(out: u64, domain: nat, now: u64) returns (ready: int)
      requires Valid()
      modifies this`lastOutTime, this`hasLastOutTime
      ensures ready == TimestampReady(old(View()), out, domain, now).0
      ensures View() == TimestampReady(old(View()), out, domain, now).1
    {
      if kind != Timestamp { return -1; }
      if ruleCount == 0 { return 0; }
      if clockDomain != 0 && domain != clockDomain { return -1; }
      if hasLastOutTime && out < lastOutTime { return -1; }
      lastOutTime, hasLastOutTime := out, true;
      ready := EachRuleTimestamp(out, now);
    }

    method EachRuleTimestamp(out: u64, now: u64) returns (ready: int)
      requires Valid() && kind == Timestamp
      ensures ready == TimestampReadyFrom(View(), out, now, 0)
    {
      ghost var b := View();
      var i := 0;
      while i < ruleCount
        invariant i <= ruleCount
        invariant TimestampReadyFrom(b, out, now, i) == TimestampReadyFrom(b, out, now, 0)
      {
        var stale := Stale(i, now);
        if !stale {
          ready := RuleReadyTimestamp(i, out);
          if ready <= 0 { return; }
        }
        i := i + 1;
      }
      ready := 1;
    }

    method IsReadyLatest(out: u64, domain: nat, now: u64) returns (ready: int)
      requires Valid()
      modifies this`lastOutTime, this`hasLastOutTime
      ensures ready == LatestReady(old(View()), out, domain, now).0
      ensures View() == LatestReady(old(View()), out, domain, now).1
    {
      if kind != LatestValue { return -1; }
      if ruleCount == 0 { return 0; }
      if ordering == ORDER_TIMESTAMP {
        if clockDomain == 0 { return -1; }
        if hasLastOutTime && out < lastOutTime { return -1; }
        lastOutTime, hasLastOutTime := out, true;
      }
      ready := EachInputLatest(out, domain, now);
    }

    method EachInputLatest(out: u64, domain: nat, now: u64) returns (ready: int)
      requires Valid() && kind == LatestValue
      ensures ready == LatestReadyFrom(View(), out, domain, now, 0)
    {
      ghost var b := View();
      var i := 0;
      while i < ruleCount
        invariant i <= ruleCount
        invariant LatestReadyFrom(b, out, domain, now, i) == LatestReadyFrom(b, out, domain, now, 0)
      {
        var stale := Stale(i, now);
        if !stale {
          ready := InputReadyLatest(i, out, domain);
          if ready <= 0 { return; }
        }
        i := i + 1;
      }
      ready := 1;
    }

    method InputReadyLatest(i: nat, out: u64, domain: nat) returns (ready: int)
      requires Valid() && i < ruleCount
      ensures ready == LatestInputReady(View(), inputs[i], out, domain)
    {
      var s := inputs[i];
      if ordering == ORDER_SEQUENCE && !s.hasObservedSeq { return 0; }
      if ordering == ORDER_TIMESTAMP && !s.hasObservedTime { return 0; }
      if clockDomain != 0 && domain != clockDomain { return -1; }
      if ordering == ORDER_TIMESTAMP && s.source == 0 { return -1; }
      if !s.latestValid { return 0; }
      if !s.hasObservedSeq && !s.hasObservedTime { return 0; }
      if clockDomain != 0 && !s.hasObservedTime { return 0; }
      if !s.hasMinSeq { return 0; }
      if s.hasObservedSeq && s.observedSeq < s.minSeq { return 0; }
      if s.hasObservedTime && s.observedTime > 0 && out == 0 { return 0; }
      ready := 1;
    }

    method Collect(size: nat) returns (ok: bool, selections: seq<Selection>)
      requires Valid()
      ensures ok == CollectLatest(View(), size).0 && selections == CollectLatest(View(), size).1
    {
      ghost var b := View();
      selections := [];
      if kind != LatestValue || ruleCount > size { return false, []; }
      if ordering == ORDER_TIMESTAMP && clockDomain == 0 { return false, []; }
      for i := 0 to ruleCount
        invariant |selections| == i
        invariant forall j :: 0 <= j < i ==> Collectable(b, b.inputs[j]) && selections[j] == SelectionOf(b.inputs[j])
      {
        var s := inputs[i];
        assert s == b.inputs[i];
        if !s.latestValid || !s.hasMinSeq
           || (ordering == ORDER_SEQUENCE && !s.hasObservedSeq)
           || (ordering == ORDER_TIMESTAMP && !s.hasObservedTime)
           || (ordering == ORDER_TIMESTAMP && s.source == 0)
        {
          assert !Collectable(b, b.inputs[i]);
          return false, [];
        }
        selections := selections + [SelectionOf(s)];
      }
      ok := true;
    }

    /**
      The stale streams in rule order. Without a buffer (size zero) only their number is reported;
      a buffer that is too small is refused.
     */
    method CollectStale(now: u64, size: nat) returns (ok: bool, count: nat, streams: seq<nat>)
      requires Valid()
      ensures ok <==> size == 0 || |StaleStreams(View(), now, ruleCount)| <= size
      ensures ok ==> count == |StaleStreams(View(), now, ruleCount)|
      ensures ok && size > 0 ==> streams == StaleStreams(View(), now, ruleCount)
    {
      ghost var b := View();
      count, streams := 0, [];
      if !allowStale || staleTimeout == NULL_U64 || ruleCount == 0 {
        NothingStale(b, now, ruleCount);
        return true, 0, [];
      }
      for i := 0 to ruleCount
        invariant count == |StaleStreams(b, now, i)|
      {
        var stale := Stale(i, now);
        if stale { count := count + 1; }
      }
      if size == 0 { return true, count, []; }
      if size < count { return false, count, []; }
      for i := 0 to ruleCount
        invariant streams == StaleStreams(b, now, i)
      {
        var stale := Stale(i, now);
        if stale { streams := streams + [inputs[i].stream]; }
      }
      ok := true;
    }
  }
}
