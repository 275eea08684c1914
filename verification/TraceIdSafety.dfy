/** Trace ids over every interleaving: their fields under any clock, their order under exactly the clocks that fit. */
module TraceIdSafety {
  import opened Bits
  import opened TraceId

  /** A word that fits and whose node field is clear. */
  ghost predicate WordOk(l: Layout, w: nat) {
    w < U64 && w == Word(l, Shr(w, l.nodeIdAndSequenceBits), And(w, l.maxSequence))
  }

  lemma WordIsOk(l: Layout, nodeId: nat, timestamp: nat, sequence: nat)
    requires WellFormed(l, nodeId) && sequence <= l.maxSequence && Word(l, timestamp, sequence) < U64
    ensures WordOk(l, Word(l, timestamp, sequence))
    ensures Shr(Word(l, timestamp, sequence), l.nodeIdAndSequenceBits) == timestamp
    ensures And(Word(l, timestamp, sequence), l.maxSequence) == sequence
  {
    Pow2Monotone(l.sequenceBits, l.nodeIdAndSequenceBits);
    ShiftBack(timestamp, sequence, l.nodeIdAndSequenceBits);
    ShlTwice(timestamp, l.nodeIdBits, l.sequenceBits);
    MaskLow(Shl(timestamp, l.nodeIdBits), sequence, l.sequenceBits);
  }

  lemma ZeroIsOk(l: Layout, nodeId: nat)
    requires WellFormed(l, nodeId)
    ensures WordOk(l, 0)
  {
    ShlZero(l.nodeIdAndSequenceBits);
    WordIsOk(l, nodeId, 0, 0);
  }

  lemma {:induction false} ShlZero(k: nat)
    ensures Shl(0, k) == 0
  {
    if k != 0 { ShlZero(k - 1); }
  }

  /** The words under one timestamp end before the next timestamp's first, inside 64 bits. */
  lemma RoomForSequence(l: Layout, nodeId: nat, w: nat)
    requires WellFormed(l, nodeId) && WordOk(l, w)
    ensures Shl(Shr(w, l.nodeIdAndSequenceBits), l.nodeIdAndSequenceBits) + l.maxSequence < U64
  {
    var k := l.nodeIdAndSequenceBits;
    var t := Shr(w, k);
    Pow2Monotone(l.sequenceBits, k);
    ShlPow2(64 - k, k);
    WholeWord();
    if t >= Pow2(64 - k) {
      if t > Pow2(64 - k) { ShlOrder(Pow2(64 - k), t, k); }
    } else {
      ShlOrder(t, Pow2(64 - k), k);
    }
  }

  lemma WholeWord()
    ensures Pow2(64) == U64
  {
    SmallPowers();
    Pow2Add(22, 22);
    Pow2Add(44, 20);
    assert Pow2(22) == 4 * Pow2(20);
  }

  /**
    Whatever the clock says, the word proposed is well packed: a timestamp shifted out of the word loses high bits only.
   */
  lemma ProposedIsPacked(l: Layout, nodeId: nat, seen: nat, now: u64)
    requires WellFormed(l, nodeId) && WordOk(l, seen)
    ensures WordOk(l, Proposed(l, seen, now))
  {
    var k := l.nodeIdAndSequenceBits;
    var timestamp := Sub64(now, l.timestampOffset);
    var t, q := Shr(seen, k), And(seen, l.maxSequence);
    if timestamp > t {
      TimestampIsPacked(l, nodeId, timestamp);
    } else if q < l.maxSequence {
      RoomForSequence(l, nodeId, seen);
      InRange(seen + 1, U64);
      WordIsOk(l, nodeId, t, q + 1);
    }
  }

  lemma TimestampIsPacked(l: Layout, nodeId: nat, timestamp: nat)
    requires WellFormed(l, nodeId)
    ensures WordOk(l, Shl(timestamp, l.nodeIdAndSequenceBits) % U64)
  {
    var k := l.nodeIdAndSequenceBits;
    if Shl(timestamp, k) < U64 {
      InRange(Shl(timestamp, k), U64);
      WordIsOk(l, nodeId, timestamp, 0);
    } else {
      TruncatedShift(timestamp, k);
      WordIsOk(l, nodeId, timestamp % Pow2(64 - k), 0);
    }
  }

  /** A thread that does not spin proposes a later word, if its reading fits. */
  lemma ProposedAdvances(l: Layout, nodeId: nat, seen: nat, now: u64)
    requires WellFormed(l, nodeId) && WordOk(l, seen) && ClockFits(l, now) && !Spins(l, seen, now)
    ensures WordOk(l, Proposed(l, seen, now)) && Proposed(l, seen, now) > seen
  {
    var k := l.nodeIdAndSequenceBits;
    var timestamp := Sub64(now, l.timestampOffset);
    var t := Shr(seen, k);
    ProposedIsPacked(l, nodeId, seen, now);
    if timestamp > t {
      InRange(Shl(timestamp, k), U64);
      ShlOrder(t, timestamp, k);
      Pow2Monotone(l.sequenceBits, k);
    } else {
      RoomForSequence(l, nodeId, seen);
      InRange(seen + 1, U64);
    }
  }

  // ---- Under any clock ----

  /** The node added to a well-packed word. */
  ghost predicate IdPacked(l: Layout, id: nat) {
    id >= l.nodeBits && WordOk(l, id - l.nodeBits)
  }

  ghost predicate ThreadPacked(l: Layout, pc: Thread) {
    match pc
    case Loaded(seen) => WordOk(l, seen)
    case Exchange(seen, next) => WordOk(l, seen) && WordOk(l, next)
    case _ => true
  }

  ghost predicate Packed(l: Layout, g: Generator) {
    && WordOk(l, g.word)
    && (forall t: nat :: ThreadPacked(l, g.At(t)))
    && (forall k :: 0 <= k < |g.issued| ==> IdPacked(l, g.issued[k]))
  }

  lemma IssuedIsPacked(l: Layout, nodeId: nat, next: nat)
    requires WellFormed(l, nodeId) && WordOk(l, next)
    ensures Or(next, l.nodeBits) == next + l.nodeBits && IdPacked(l, next + l.nodeBits)
  {
    IdShape(l, nodeId, Shr(next, l.nodeIdAndSequenceBits), And(next, l.maxSequence));
  }

  /** Every step of every thread, under any clock, keeps the word, the proposals and the ids well packed. */
  lemma StepKeepsPacked(l: Layout, nodeId: nat, g: Generator, t: nat, c: Choice)
    requires WellFormed(l, nodeId) && Packed(l, g)
    ensures Packed(l, Step(l, g, t, c))
  {
    var g' := Step(l, g, t, c);
    assert ThreadPacked(l, g.At(t));
    match g.At(t) {
      case Loaded(seen) => if c.Clock? { ProposedIsPacked(l, nodeId, seen, c.now); }
      case Exchange(_, next) => IssuedIsPacked(l, nodeId, next);
      case _ =>
    }
    forall u: nat
      ensures ThreadPacked(l, g'.At(u))
    {
      assert ThreadPacked(l, g.At(u));
    }
  }

  lemma {:induction false} RunKeepsPacked(l: Layout, nodeId: nat, s: Schedule)
    requires WellFormed(l, nodeId)
    ensures Packed(l, Run(l, s))
    decreases |s|
  {
    if s == [] {
      ZeroIsOk(l, nodeId);
    } else {
      var last := |s| - 1;
      RunKeepsPacked(l, nodeId, s[..last]);
      StepKeepsPacked(l, nodeId, Run(l, s[..last]), s[last].0, s[last].1);
    }
  }

  lemma IdFields(l: Layout, nodeId: nat, id: nat)
    requires WellFormed(l, nodeId) && IdPacked(l, id)
    ensures ExtractNodeId(l, id) == nodeId
    ensures id == Word(l, ExtractTimestamp(l, id), ExtractSequence(l, id)) + l.nodeBits
    ensures ExtractSequence(l, id) <= l.maxSequence
  {
    var w := id - l.nodeBits;
    var t, q := Shr(w, l.nodeIdAndSequenceBits), And(w, l.maxSequence);
    IdShape(l, nodeId, t, q);
    Packing(l, nodeId, t, q);
  }

  /** Every id carries the generator's node, whatever the clock says. */
  lemma EveryIdCarriesNode(l: Layout, nodeId: nat, s: Schedule, k: nat)
    requires WellFormed(l, nodeId) && k < |Run(l, s).issued|
    ensures ExtractNodeId(l, Run(l, s).issued[k]) == nodeId
  {
    RunKeepsPacked(l, nodeId, s);
    IdFields(l, nodeId, Run(l, s).issued[k]);
  }

  /** Generators that share a layout but not a node never issue the same id, whatever their runs and clocks. */
  lemma NodesNeverCollide(l: Layout, m: Layout, a: nat, b: nat, s: Schedule, r: Schedule, i: nat, j: nat)
    requires WellFormed(l, a) && WellFormed(m, b) && a != b
    requires l.nodeIdBits == m.nodeIdBits && l.sequenceBits == m.sequenceBits
    requires i < |Run(l, s).issued| && j < |Run(m, r).issued|
    ensures Run(l, s).issued[i] != Run(m, r).issued[j]
  {
    EveryIdCarriesNode(l, a, s, i);
    EveryIdCarriesNode(m, b, r, j);
    var id := Run(l, s).issued[i];
    assert ExtractNodeId(l, id) == ExtractNodeId(m, id);
  }

  // ---- Under a clock that fits ----

  /** An issued id: the node added to a nonzero word. */
  ghost predicate IdOk(l: Layout, id: nat) {
    id > l.nodeBits && IdPacked(l, id)
  }

  ghost predicate ThreadOk(l: Layout, pc: Thread) {
    match pc
    case Loaded(seen) => WordOk(l, seen)
    case Exchange(seen, next) => WordOk(l, seen) && WordOk(l, next) && next > seen
    case _ => true
  }

  ghost predicate Increasing(ids: seq<nat>) {
    forall i, j :: 0 <= i < j < |ids| ==> ids[i] < ids[j]
  }

  ghost predicate Inv(l: Layout, g: Generator) {
    && WordOk(l, g.word)
    && (forall t: nat :: ThreadOk(l, g.At(t)))
    && (forall k :: 0 <= k < |g.issued| ==> IdOk(l, g.issued[k]) && g.issued[k] <= g.word + l.nodeBits)
    && Increasing(g.issued)
  }

  lemma StepKeepsInv(l: Layout, nodeId: nat, g: Generator, t: nat, c: Choice)
    requires WellFormed(l, nodeId) && Inv(l, g) && (c.Clock? ==> ClockFits(l, c.now))
    ensures Inv(l, Step(l, g, t, c))
  {
    assert ThreadOk(l, g.At(t));
    match g.At(t)
    case Loaded(seen) =>
      if c.Clock? && !Spins(l, seen, c.now) { ProposedAdvances(l, nodeId, seen, c.now); }
      Moved(l, g, t, Step(l, g, t, c));
    case Exchange(seen, next) =>
      if g.word == seen && !c.FailSpuriously? {
        ExchangeIssues(l, nodeId, g, t);
      } else {
        Moved(l, g, t, Step(l, g, t, c));
      }
    case _ => Moved(l, g, t, Step(l, g, t, c));
  }

  /** A successful exchange issues an id above all earlier ones. */
  lemma ExchangeIssues(l: Layout, nodeId: nat, g: Generator, t: nat)
    requires WellFormed(l, nodeId) && Inv(l, g) && g.At(t).Exchange? && g.word == g.At(t).seen
    ensures Inv(l, Generator(g.At(t).next, g.threads[t := Resting], g.issued + [Or(g.At(t).next, l.nodeBits)]))
  {
    var next := g.At(t).next;
    var g' := Generator(next, g.threads[t := Resting], g.issued + [Or(next, l.nodeBits)]);
    assert ThreadOk(l, g.At(t));
    IssuedIsPacked(l, nodeId, next);
    forall u: nat
      ensures ThreadOk(l, g'.At(u))
    {
      assert ThreadOk(l, g.At(u));
    }
  }

  lemma Moved(l: Layout, g: Generator, t: nat, g': Generator)
    requires Inv(l, g) && (g' == g || (g' == g.Goto(t, g'.At(t)) && ThreadOk(l, g'.At(t))))
    ensures Inv(l, g')
  {
    forall u: nat
      ensures ThreadOk(l, g'.At(u))
    {
      assert ThreadOk(l, g.At(u));
    }
  }

  lemma {:induction false} RunKeepsInv(l: Layout, nodeId: nat, s: Schedule)
    requires WellFormed(l, nodeId) && ClocksFit(l, s)
    ensures Inv(l, Run(l, s))
    decreases |s|
  {
    if s == [] {
      ZeroIsOk(l, nodeId);
    } else {
      var last := |s| - 1;
      RunKeepsInv(l, nodeId, s[..last]);
      StepKeepsInv(l, nodeId, Run(l, s[..last]), s[last].0, s[last].1);
    }
  }

  /** Every id is nonzero and exceeds every id whose exchange came earlier. */
  lemma IdsIncrease(l: Layout, nodeId: nat, s: Schedule)
    requires WellFormed(l, nodeId) && ClocksFit(l, s)
    ensures var ids := Run(l, s).issued;
      Increasing(ids) && forall k :: 0 <= k < |ids| ==> ids[k] != 0
  {
    RunKeepsInv(l, nodeId, s);
  }

  lemma {:induction false} Spread(ids: seq<nat>, i: nat, j: nat)
    requires Increasing(ids) && i <= j < |ids|
    ensures ids[j] - ids[i] >= j - i
    decreases j - i
  {
    if i < j { Spread(ids, i, j - 1); }
  }

  /**
    However clock readings that fit moved, timestamps never go back along the issued ids, and at most
    2^sequenceBits ids share one timestamp.
   */
  lemma TimestampsOrderedAndBounded(l: Layout, nodeId: nat, s: Schedule, i: nat, j: nat)
    requires WellFormed(l, nodeId) && ClocksFit(l, s) && i <= j < |Run(l, s).issued|
    ensures var ids := Run(l, s).issued;
      var ti, tj := ExtractTimestamp(l, ids[i]), ExtractTimestamp(l, ids[j]);
      ti <= tj && (ti == tj ==> j - i < Pow2(l.sequenceBits))
  {
    RunKeepsInv(l, nodeId, s);
    var ids := Run(l, s).issued;
    IdFields(l, nodeId, ids[i]);
    IdFields(l, nodeId, ids[j]);
    Spread(ids, i, j);
    var ti, tj := ExtractTimestamp(l, ids[i]), ExtractTimestamp(l, ids[j]);
    if tj < ti {
      ShlOrder(tj, ti, l.nodeIdAndSequenceBits);
      Pow2Monotone(l.sequenceBits, l.nodeIdAndSequenceBits);
    }
  }

  /**
    The first id a fresh generator issues tells the time exactly when the reading is not before the offset and fits.
   */
  lemma FirstIdTellsTimeIffClockFits(l: Layout, nodeId: nat, now: u64)
    requires WellFormed(l, nodeId) && !Spins(l, 0, now)
    ensures ExtractTimestamp(l, Or(Proposed(l, 0, now), l.nodeBits)) == now - l.timestampOffset
       <==> l.timestampOffset <= now && ClockFits(l, now)
  {
    var k := l.nodeIdAndSequenceBits;
    var d := now - l.timestampOffset;
    ZeroIsOk(l, nodeId);
    ShrZero(k);
    if d > 0 {
      InRange(d, U64);
      if ClockFits(l, now) {
        InRange(Shl(d, k), U64);
        Packing(l, nodeId, d, 0);
      } else {
        TruncatedTimestamp(l, nodeId, d);
      }
    } else if d == 0 {
      InRange(0, U64);
      ShlZero(k);
      InRange(1, U64);
      Packing(l, nodeId, 0, 1);
    }
  }

  lemma {:induction false} ShrZero(k: nat)
    ensures Shr(0, k) == 0
  {
    if k != 0 { ShrZero(k - 1); }
  }

  /** A timestamp shifted out of the word does not come back. */
  lemma TruncatedTimestamp(l: Layout, nodeId: nat, d: nat)
    requires WellFormed(l, nodeId) && Shl(d, l.nodeIdAndSequenceBits) >= U64
    ensures ExtractTimestamp(l, Or(Shl(d, l.nodeIdAndSequenceBits) % U64, l.nodeBits)) != d
  {
    var k := l.nodeIdAndSequenceBits;
    TruncatedShift(d, k);
    Packing(l, nodeId, d % Pow2(64 - k), 0);
  }

  lemma TruncatedShift(d: nat, k: nat)
    requires k <= 22 && Shl(d, k) >= U64
    ensures Shl(d, k) % U64 == Shl(d % Pow2(64 - k), k) && d % Pow2(64 - k) < d
  {
    FieldEnds(64 - k, k);
    ShiftPast(d, Pow2(64 - k), k);
  }

  lemma FieldEnds(m: nat, k: nat)
    requires m + k == 64
    ensures Shl(Pow2(m), k) == U64
  {
    ShlPow2(m, k);
    WholeWord();
  }

  lemma ShiftPast(d: nat, m: nat, k: nat)
    requires m > 0 && Shl(m, k) == U64 && Shl(d, k) >= U64
    ensures Shl(d, k) % U64 == Shl(d % m, k) && d % m < d
  {
    if d < m { ShlOrder(d, m, k); }
    var q, r := d / m, d % m;
    assert d == q * m + r;
    ShiftedParts(q, m, r, k);
  }

  lemma ShiftedParts(q: nat, m: nat, r: nat, k: nat)
    requires r < m && Shl(m, k) == U64
    ensures Shl(q * m + r, k) % U64 == Shl(r, k)
  {
    ShlAdd(q * m, r, k);
    ShlScale(q, m, k);
    ShlOrder(r, m, k);
    assert q * U64 == U64 * q;
    DivModUnique(Shl(q * m + r, k), U64, q, Shl(r, k));
  }

  lemma {:induction false} ShlScale(q: nat, m: nat, k: nat)
    ensures Shl(q * m, k) == q * Shl(m, k)
  {
    if k != 0 {
      ShlScale(q, m, k - 1);
      assert q * (2 * Shl(m, k - 1)) == 2 * (q * Shl(m, k - 1));
    }
  }

  /** One undisturbed call whose clock reads now. */
  function CallAlone(now: u64): Schedule { [(0, Call), (0, Call), (0, Clock(now)), (0, Call)] }

  lemma RunSnoc(l: Layout, s: Schedule, t: nat, c: Choice)
    requires l.timestampOffset < U64
    ensures Run(l, s + [(t, c)]) == Step(l, Run(l, s), t, c)
  {
    assert (s + [(t, c)])[..|s|] == s;
  }

  /** An undisturbed call that does not have to wait installs its proposal and issues its id. */
  lemma UndisturbedCall(l: Layout, now: u64, s: Schedule)
    requires l.timestampOffset < U64 && Run(l, s).At(0) == Resting
    requires Run(l, s).word < U64 && !Spins(l, Run(l, s).word, now)
    ensures var (g, next) := (Run(l, s + CallAlone(now)), Proposed(l, Run(l, s).word, now));
      g.word == next && g.At(0) == Resting && g.issued == Run(l, s).issued + [Or(next, l.nodeBits)]
  {
    var s1 := s + [(0, Call)];
    var s2 := s1 + [(0, Call)];
    var s3 := s2 + [(0, Clock(now))];
    RunSnoc(l, s, 0, Call);
    RunSnoc(l, s1, 0, Call);
    RunSnoc(l, s2, 0, Clock(now));
    RunSnoc(l, s3, 0, Call);
    assert s + CallAlone(now) == s3 + [(0, Call)];
    CallSteps(l, Run(l, s), now, Run(l, s1), Run(l, s2), Run(l, s3));
  }

  lemma CallSteps(l: Layout, g: Generator, now: u64, g1: Generator, g2: Generator, g3: Generator)
    requires l.timestampOffset < U64 && g.At(0) == Resting && g.word < U64 && !Spins(l, g.word, now)
    requires g1 == Step(l, g, 0, Call) && g2 == Step(l, g1, 0, Call) && g3 == Step(l, g2, 0, Clock(now))
    ensures var (g', next) := (Step(l, g3, 0, Call), Proposed(l, g.word, now));
      g'.word == next && g'.At(0) == Resting && g'.issued == g.issued + [Or(next, l.nodeBits)]
  {
    assert g1 == g.Goto(0, Called);
    assert g2 == g1.Goto(0, Loaded(g.word));
    assert g3 == g2.Goto(0, Exchange(g.word, Proposed(l, g.word, now)));
  }

  /** What a reading that does not fit leaves of its timestamp. */
  function Leftover(l: Layout, now: u64): nat
    requires l.nodeIdAndSequenceBits <= 64 && l.timestampOffset < U64
  {
    Sub64(now, l.timestampOffset) % Pow2(64 - l.nodeIdAndSequenceBits)
  }

  /** A reading that does not fit proposes its leftover, over any word that is still behind the full timestamp. */
  lemma LateProposal(l: Layout, nodeId: nat, now: u64, timestamp: nat)
    requires WellFormed(l, nodeId) && !ClockFits(l, now) && timestamp in {0, Leftover(l, now)}
    ensures var (k, left) := (l.nodeIdAndSequenceBits, Leftover(l, now));
      && Word(l, timestamp, 0) < U64 && Word(l, left, 0) < U64 && !Spins(l, Word(l, timestamp, 0), now)
      && Proposed(l, Word(l, timestamp, 0), now) == Word(l, left, 0)
  {
    var k, d := l.nodeIdAndSequenceBits, Sub64(now, l.timestampOffset);
    TruncatedShift(d, k);
    ShlZero(k);
    WordIsOk(l, nodeId, Leftover(l, now), 0);
    WordIsOk(l, nodeId, timestamp, 0);
    assert d > 0;
  }

  /** One call with such a reading issues the leftover's id and leaves the leftover in the word. */
  lemma LateCall(l: Layout, nodeId: nat, now: u64, timestamp: nat, s: Schedule)
    requires WellFormed(l, nodeId) && !ClockFits(l, now) && timestamp in {0, Leftover(l, now)}
    requires Run(l, s).word == Word(l, timestamp, 0) && Run(l, s).At(0) == Resting
    ensures var (g, w) := (Run(l, s + CallAlone(now)), Word(l, Leftover(l, now), 0));
      g.word == w && g.At(0) == Resting && g.issued == Run(l, s).issued + [Or(w, l.nodeBits)]
  {
    LateProposal(l, nodeId, now, timestamp);
    UndisturbedCall(l, now, s);
  }

  /** Any reading that does not fit makes two calls in a row return the same id. */
  lemma LateClockRepeatsIds(l: Layout, nodeId: nat, now: u64, c: Schedule)
    requires WellFormed(l, nodeId) && !ClockFits(l, now) && c == CallAlone(now)
    ensures var id := Or(Word(l, Leftover(l, now), 0), l.nodeBits); Run(l, c + c).issued == [id, id]
  {
    assert [] + c == c;
    ShlZero(l.nodeIdAndSequenceBits);
    LateCall(l, nodeId, now, 0, []);
    LateCall(l, nodeId, now, Leftover(l, now), c);
  }

  /** For instance, in the default layout with offset 0 the reading 2^42 makes node 5 issue its bare node bits twice. */
  lemma ReadingPastTheField(l: Layout, c: Schedule)
    requires l == Layout(10, 12, 22, 1023, 4095, 20480, 0) && c == CallAlone(0x400_0000_0000)
    ensures WellFormed(l, 5) && Run(l, c + c).issued == [20480, 20480]
  {
    DefaultLayout(l);
    LargePower();
    NothingLeftOver(l, 0x400_0000_0000, 42);
    ShlZero(22);
    LateClockRepeatsIds(l, 5, 0x400_0000_0000, c);
    assert Or(0, 20480) == 20480;
  }

  lemma DefaultLayout(l: Layout)
    requires l == Layout(10, 12, 22, 1023, 4095, 20480, 0)
    ensures WellFormed(l, 5)
  {
    SmallPowers();
    assert Pow2(10) == 1024 && Pow2(12) == 4 * Pow2(10);
    NodeBitsOfFive();
  }

  /** The first reading past a field of m bits leaves nothing. */
  lemma NothingLeftOver(l: Layout, now: u64, m: nat)
    requires l.timestampOffset == 0 && l.nodeIdAndSequenceBits + m == 64 && now == Pow2(m)
    ensures Leftover(l, now) == 0 && !ClockFits(l, now)
  {
    assert Sub64(now, 0) == now by { InRange(now, U64); }
    assert m == 64 - l.nodeIdAndSequenceBits;
    assert now % Pow2(m) == 0 by { DivModUnique(now, now, 1, 0); }
    FieldEnds(m, l.nodeIdAndSequenceBits);
  }

  lemma LargePower()
    ensures Pow2(42) == 0x400_0000_0000
  {
    SmallPowers();
    Pow2Add(21, 21);
  }

  lemma NodeBitsOfFive()
    ensures Shl(5, 12) == 20480
  {
    assert Shl(5, 6) == 320;
    ShlTwice(5, 6, 6);
    assert Shl(320, 6) == 20480;
  }

  ghost predicate Distinct(ids: seq<nat>) {
    forall i, j :: 0 <= i < j < |ids| ==> ids[i] != ids[j]
  }

  ghost predicate ReadsOnly(s: Schedule, readings: iset<u64>) {
    forall k :: 0 <= k < |s| && s[k].1.Clock? ==> s[k].1.now in readings
  }

  /**
    The exact condition on the clock: over every schedule whose readings come from a given set, ids are distinct, and
    indeed increasing, if and only if every reading of the set fits.
   */
  lemma IdsDistinctIffReadingsFit(l: Layout, nodeId: nat, readings: iset<u64>)
    requires WellFormed(l, nodeId)
    ensures (forall now :: now in readings ==> ClockFits(l, now))
       <==> forall s: Schedule :: ReadsOnly(s, readings) ==> Distinct(Run(l, s).issued)
    ensures (forall now :: now in readings ==> ClockFits(l, now))
       <==> forall s: Schedule :: ReadsOnly(s, readings) ==> Increasing(Run(l, s).issued)
  {
    if forall now :: now in readings ==> ClockFits(l, now) {
      forall s: Schedule | ReadsOnly(s, readings)
        ensures Increasing(Run(l, s).issued) && Distinct(Run(l, s).issued)
      {
        IdsIncrease(l, nodeId, s);
      }
    } else {
      var now :| now in readings && !ClockFits(l, now);
      var c := CallAlone(now);
      LateClockRepeatsIds(l, nodeId, now, c);
      var ids := Run(l, c + c).issued;
      assert ReadsOnly(c + c, readings) && ids[0] == ids[1];
    }
  }
}
