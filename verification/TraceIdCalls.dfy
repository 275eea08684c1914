/** What one undisturbed call of the generator issues, in the fields of its word, and when it has to wait. */
module TraceIdCalls {
  import opened Bits
  import opened TraceId
  import opened TraceIdSafety

  /** The time a reading stands for. */
  function TimeOf(l: Layout, now: u64): u64
    requires l.timestampOffset < U64
  {
    Sub64(now, l.timestampOffset)
  }

  /**
    A call waits exactly when its reading is not ahead and all 2^sequenceBits numbers of the word's timestamp are used.
   */
  lemma WaitsIffExhausted(l: Layout, nodeId: nat, timestamp: nat, sequence: nat, now: u64)
    requires WellFormed(l, nodeId) && sequence < Pow2(l.sequenceBits) && Word(l, timestamp, sequence) < U64
    ensures Spins(l, Word(l, timestamp, sequence), now) <==>
            TimeOf(l, now) <= timestamp && sequence + 1 == Pow2(l.sequenceBits)
  {
    WordIsOk(l, nodeId, timestamp, sequence);
  }

  /** What comes next: the first number of the new time, or the next number of the old one. */
  function NextTime(l: Layout, timestamp: nat, now: u64): nat
    requires l.timestampOffset < U64
  {
    if TimeOf(l, now) > timestamp then TimeOf(l, now) else timestamp
  }

  function NextSequence(l: Layout, timestamp: nat, sequence: nat, now: u64): nat
    requires l.timestampOffset < U64
  {
    if TimeOf(l, now) > timestamp then 0 else sequence + 1
  }

  lemma NextFields(l: Layout, nodeId: nat, timestamp: nat, sequence: nat, now: u64)
    requires WellFormed(l, nodeId) && sequence < Pow2(l.sequenceBits) && Word(l, timestamp, sequence) < U64
    requires ClockFits(l, now) && (TimeOf(l, now) <= timestamp ==> sequence + 1 < Pow2(l.sequenceBits))
    ensures var (t, q) := (NextTime(l, timestamp, now), NextSequence(l, timestamp, sequence, now));
            && q < Pow2(l.sequenceBits) && Word(l, t, q) < U64
            && Proposed(l, Word(l, timestamp, sequence), now) == Word(l, t, q)
  {
    var w := Word(l, timestamp, sequence);
    WordIsOk(l, nodeId, timestamp, sequence);
    if TimeOf(l, now) > timestamp {
      InRange(Shl(TimeOf(l, now), l.nodeIdAndSequenceBits), U64);
    } else {
      RoomForSequence(l, nodeId, w);
      InRange(w + 1, U64);
    }
  }

  /** The shared word holds this timestamp and sequence number, and thread 0 is between calls. */
  ghost predicate Rests(l: Layout, g: Generator, timestamp: nat, sequence: nat) {
    && sequence < Pow2(l.sequenceBits) && g.word == Word(l, timestamp, sequence) < U64 && g.At(0) == Resting
  }

  ghost predicate HasFields(l: Layout, id: nat, timestamp: nat, nodeId: nat, sequence: nat) {
    ExtractTimestamp(l, id) == timestamp && ExtractNodeId(l, id) == nodeId && ExtractSequence(l, id) == sequence
  }

  /** An undisturbed call with a reading that fits issues the id that comes next, unless there is none. */
  lemma CallIssuesNext(l: Layout, nodeId: nat, s: Schedule, timestamp: nat, sequence: nat, now: u64) returns (id: nat)
    requires WellFormed(l, nodeId) && Rests(l, Run(l, s), timestamp, sequence) && ClockFits(l, now)
    requires TimeOf(l, now) <= timestamp ==> sequence + 1 < Pow2(l.sequenceBits)
    ensures var (g, t, q) :=
              (Run(l, s + CallAlone(now)), NextTime(l, timestamp, now), NextSequence(l, timestamp, sequence, now));
            Rests(l, g, t, q) && g.issued == Run(l, s).issued + [id] && HasFields(l, id, t, nodeId, q)
  {
    WaitsIffExhausted(l, nodeId, timestamp, sequence, now);
    NextFields(l, nodeId, timestamp, sequence, now);
    UndisturbedCall(l, now, s);
    Packing(l, nodeId, NextTime(l, timestamp, now), NextSequence(l, timestamp, sequence, now));
    id := Or(Proposed(l, Run(l, s).word, now), l.nodeBits);
  }

  /** A call that finds nothing left goes back to load the word again and leaves everything as it was. */
  lemma CallWaits(l: Layout, nodeId: nat, s: Schedule, timestamp: nat, sequence: nat, now: u64)
    requires WellFormed(l, nodeId) && Rests(l, Run(l, s), timestamp, sequence)
    requires TimeOf(l, now) <= timestamp && sequence + 1 == Pow2(l.sequenceBits)
    ensures var g := Run(l, s + [(0, Call), (0, Call), (0, Clock(now))]);
            g == Run(l, s).(threads := g.threads) && g.At(0) == Called
  {
    var s1 := s + [(0, Call)];
    var s2 := s1 + [(0, Call)];
    WaitsIffExhausted(l, nodeId, timestamp, sequence, now);
    RunSnoc(l, s, 0, Call);
    RunSnoc(l, s1, 0, Call);
    RunSnoc(l, s2, 0, Clock(now));
    assert s + [(0, Call), (0, Call), (0, Clock(now))] == s2 + [(0, Clock(now))];
  }

  /** n undisturbed calls whose clock stands still. */
  function Calls(now: u64, n: nat): Schedule { if n == 0 then [] else Calls(now, n - 1) + CallAlone(now) }

  /** These ids carry one timestamp and one node, and the sequence numbers 0, 1, and so on. */
  ghost predicate CountUp(l: Layout, ids: seq<nat>, timestamp: nat, nodeId: nat) {
    forall k: nat :: k < |ids| ==> HasFields(l, ids[k], timestamp, nodeId, k)
  }

  /** With a clock that has moved on and then stands still, calls count through the sequence numbers from 0. */
  lemma {:induction false} StandingClock(l: Layout, nodeId: nat, s: Schedule, timestamp: nat, sequence: nat, now: u64,
      n: nat) returns (ids: seq<nat>)
    requires WellFormed(l, nodeId) && Rests(l, Run(l, s), timestamp, sequence) && ClockFits(l, now)
    requires TimeOf(l, now) > timestamp && n <= Pow2(l.sequenceBits)
    ensures n > 0 ==> Rests(l, Run(l, s + Calls(now, n)), TimeOf(l, now), n - 1)
    ensures Run(l, s + Calls(now, n)).issued == Run(l, s).issued + ids
    ensures |ids| == n && CountUp(l, ids, TimeOf(l, now), nodeId)
    decreases n
  {
    if n == 0 {
      ids := [];
      assert s + Calls(now, 0) == s;
    } else {
      var front := StandingClock(l, nodeId, s, timestamp, sequence, now, n - 1);
      var before := s + Calls(now, n - 1);
      var t, q := if n == 1 then timestamp else TimeOf(l, now), if n == 1 then sequence else n - 2;
      assert Rests(l, Run(l, before), t, q) by {
        if n == 1 { assert before == s; }
      }
      var id := NextAtTime(l, nodeId, before, t, q, now, n - 1);
      OneMoreCall(s, now, n);
      ids := front + [id];
      CountOneMore(l, front, id, TimeOf(l, now), nodeId);
    }
  }

  lemma OneMoreCall(s: Schedule, now: u64, n: nat)
    requires n > 0
    ensures s + Calls(now, n) == s + Calls(now, n - 1) + CallAlone(now)
  {
  }

  lemma NextAtTime(l: Layout, nodeId: nat, s: Schedule, timestamp: nat, sequence: nat, now: u64, k: nat)
    returns (id: nat)
    requires WellFormed(l, nodeId) && Rests(l, Run(l, s), timestamp, sequence) && ClockFits(l, now)
    requires k < Pow2(l.sequenceBits)
    requires if k == 0 then TimeOf(l, now) > timestamp else TimeOf(l, now) == timestamp && sequence == k - 1
    ensures Rests(l, Run(l, s + CallAlone(now)), TimeOf(l, now), k)
    ensures Run(l, s + CallAlone(now)).issued == Run(l, s).issued + [id] && HasFields(l, id, TimeOf(l, now), nodeId, k)
  {
    id := CallIssuesNext(l, nodeId, s, timestamp, sequence, now);
  }

  lemma CountOneMore(l: Layout, ids: seq<nat>, id: nat, timestamp: nat, nodeId: nat)
    requires CountUp(l, ids, timestamp, nodeId) && HasFields(l, id, timestamp, nodeId, |ids|)
    ensures CountUp(l, ids + [id], timestamp, nodeId)
  {
  }

  /** Exactly 2^sequenceBits of them: all return, each number once, and the next call waits. */
  lemma AMillisecondHoldsEverySequence(l: Layout, nodeId: nat, now: u64)
    requires WellFormed(l, nodeId) && ClockFits(l, now) && TimeOf(l, now) > 0
    ensures var (g, n) := (Run(l, Calls(now, Pow2(l.sequenceBits))), Pow2(l.sequenceBits));
            && |g.issued| == n && CountUp(l, g.issued, TimeOf(l, now), nodeId)
            && Run(l, Calls(now, n) + [(0, Call), (0, Call), (0, Clock(now))]).issued == g.issued
  {
    var n := Pow2(l.sequenceBits);
    FreshRests(l);
    var ids := StandingClock(l, nodeId, [], 0, 0, now, n);
    assert [] + Calls(now, n) == Calls(now, n);
    assert Run(l, []).issued + ids == ids;
    CallWaits(l, nodeId, Calls(now, n), TimeOf(l, now), n - 1, now);
  }

  lemma FreshRests(l: Layout)
    requires l.timestampOffset < U64
    ensures Rests(l, Run(l, []), 0, 0)
  {
    ShlZero(l.nodeIdAndSequenceBits);
  }

  // ---- Among other threads ----

  /** A call ends only by issuing the id of the word it installs; until then it changes nothing but its own thread. */
  lemma CallsEndWithAnId(l: Layout, nodeId: nat, g: Generator, t: nat, c: Choice)
    requires WellFormed(l, nodeId) && Packed(l, g) && g.At(t) != Resting
    ensures var g' := Step(l, g, t, c);
            && (forall u: nat :: u != t ==> g'.At(u) == g.At(u))
            && (if g'.At(t) == Resting then g'.issued == g.issued + [g'.word + l.nodeBits]
                else g'.word == g.word && g'.issued == g.issued)
  {
    assert ThreadPacked(l, g.At(t));
    match g.At(t) {
      case Exchange(_, next) => IssuedIsPacked(l, nodeId, next);
      case _ =>
    }
  }

  /** Steps of one thread with nothing in between, its clock standing still. */
  function Alone(t: nat, now: u64, n: nat): Schedule { seq(n, _ => (t, Clock(now))) }

  /** How many steps at most a lone call is from its id, once the clock is ahead of the word. */
  function StepsLeft(g: Generator, t: nat): (n: nat)
    ensures n <= 5
  {
    match g.At(t)
    case Resting => 0
    case Called => 3
    case Loaded(seen) => if seen == g.word then 2 else 5
    case Exchange(seen, _) => if seen == g.word then 1 else 4
  }

  ghost predicate Ahead(l: Layout, w: nat, now: u64) {
    l.timestampOffset < U64 && TimeOf(l, now) > Shr(w, l.nodeIdAndSequenceBits)
  }

  lemma StepTowardsId(l: Layout, g: Generator, t: nat, now: u64)
    requires Packed(l, g) && Ahead(l, g.word, now) && g.At(t) != Resting
    ensures StepsLeft(Step(l, g, t, Clock(now)), t) < StepsLeft(g, t)
  {
    assert ThreadPacked(l, g.At(t));
  }

  /** Thread t has issued one id, that of the word it left, and no other thread has moved. */
  ghost predicate IssuesOne(l: Layout, g: Generator, t: nat, g': Generator) {
    && g'.At(t) == Resting && g'.issued == g.issued + [g'.word + l.nodeBits]
    && forall u: nat :: u != t ==> g'.At(u) == g.At(u)
  }

  /**
    From any reachable state, a thread left alone anywhere inside a call, with a clock ahead of the word, returns an id
    within five steps: that of the word it leaves.
   */
  lemma {:induction false} LoneCallReturns(l: Layout, nodeId: nat, s: Schedule, t: nat, now: u64, n: nat)
    requires WellFormed(l, nodeId) && Ahead(l, Run(l, s).word, now) && Run(l, s).At(t) != Resting
    requires n >= StepsLeft(Run(l, s), t)
    ensures IssuesOne(l, Run(l, s), t, Run(l, s + Alone(t, now, n)))
    decreases n
  {
    var g, s' := Run(l, s), s + [(t, Clock(now))];
    RunKeepsPacked(l, nodeId, s);
    RunSnoc(l, s, t, Clock(now));
    StepTowardsId(l, g, t, now);
    AloneFirst(s, t, now, n);
    CallsEndWithAnId(l, nodeId, g, t, Clock(now));
    if Run(l, s').At(t) == Resting {
      RestStays(l, s', t, now, n - 1);
    } else {
      LoneCallReturns(l, nodeId, s', t, now, n - 1);
      StillIssuesOne(l, g, Run(l, s'), t, Run(l, s' + Alone(t, now, n - 1)));
    }
  }

  lemma StillIssuesOne(l: Layout, g: Generator, g': Generator, t: nat, r: Generator)
    requires g'.issued == g.issued && (forall u: nat :: u != t ==> g'.At(u) == g.At(u)) && IssuesOne(l, g', t, r)
    ensures IssuesOne(l, g, t, r)
  {
  }

  lemma AloneFirst(s: Schedule, t: nat, now: u64, n: nat)
    requires n > 0
    ensures s + Alone(t, now, n) == s + [(t, Clock(now))] + Alone(t, now, n - 1)
  {
    assert Alone(t, now, n) == [(t, Clock(now))] + Alone(t, now, n - 1);
  }

  lemma {:induction false} RestStays(l: Layout, s: Schedule, t: nat, now: u64, n: nat)
    requires l.timestampOffset < U64 && Run(l, s).At(t) == Resting
    ensures Run(l, s + Alone(t, now, n)) == Run(l, s)
  {
    if n == 0 {
      assert s + Alone(t, now, 0) == s;
    } else {
      RestStays(l, s, t, now, n - 1);
      RunSnoc(l, s + Alone(t, now, n - 1), t, Clock(now));
      assert s + Alone(t, now, n) == s + Alone(t, now, n - 1) + [(t, Clock(now))];
    }
  }
}
