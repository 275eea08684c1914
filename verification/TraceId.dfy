/**
  The trace-id generator: a word packing timestamp, node and sequence, advanced by compare-exchange.
  Any number of threads interleave one access at a time, and the clock may say anything it likes,
  backwards included, as long as the shifted timestamp fits the word.
 */
module TraceId {
  import opened Bits

  const MAX_NODE_AND_SEQUENCE_BITS := 22

  /** The fields initialisation computes; the word itself belongs to the machine below. */
  datatype Layout = Layout(
    nodeIdBits: nat,
    sequenceBits: nat,
    nodeIdAndSequenceBits: nat,
    maxNodeId: nat,
    maxSequence: nat,
    nodeBits: nat,
    timestampOffset: nat)

  datatype InitResult =
    | Initialised(layout: Layout)
    | TooManyBits
    | NodeIdOutOfRange
    | OffsetInFuture
    | OffsetBeyondClock
    | UndefinedShift // C leaves a shift of a 64-bit one by 64 or more places undefined

  /** Initialisation with byte-wide bit counts; their sum wraps like the byte it is stored in. */
  function Init(nodeIdBits: nat, sequenceBits: nat, nodeId: u64, offset: u64, realtime: u64, now: u64): InitResult
    requires nodeIdBits < U8 && sequenceBits < U8
  {
    var both := (nodeIdBits + sequenceBits) % U8;
    if both > MAX_NODE_AND_SEQUENCE_BITS then TooManyBits
    else if nodeIdBits >= 64 then UndefinedShift
    else if nodeId > Pow2(nodeIdBits) - 1 then NodeIdOutOfRange
    else if offset > realtime then OffsetInFuture
    else if sequenceBits >= 64 then UndefinedShift
    else if offset > now then OffsetBeyondClock
    else Initialised(Layout(nodeIdBits, sequenceBits, both, Pow2(nodeIdBits) - 1, Pow2(sequenceBits) - 1,
                            Shl(nodeId, sequenceBits) % U64, offset))
  }

  /** What an accepted layout guarantees: the counts add up within 22 bits and the node fits its field. */
  ghost predicate WellFormed(l: Layout, nodeId: nat) {
    && l.nodeIdAndSequenceBits == l.nodeIdBits + l.sequenceBits <= MAX_NODE_AND_SEQUENCE_BITS
    && l.maxNodeId == Pow2(l.nodeIdBits) - 1 && l.maxSequence == Pow2(l.sequenceBits) - 1
    && nodeId <= l.maxNodeId
    && l.nodeBits == Shl(nodeId, l.sequenceBits)
    && l.timestampOffset < U64
  }

  /** An accepted layout is well formed. */
  lemma InitIsWellFormed(n: nat, s: nat, nodeId: u64, offset: u64, realtime: u64, now: u64)
    requires n < U8 && s < U8 && Init(n, s, nodeId, offset, realtime, now).Initialised?
    ensures var l := Init(n, s, nodeId, offset, realtime, now).layout;
            WellFormed(l, nodeId) && l.nodeIdBits == n && l.sequenceBits == s && l.timestampOffset == offset
  {
    InRange(n + s, U8);
    NodeFits(nodeId, n, s);
    InRange(Shl(nodeId, s), U64);
  }

  /**
    An undefined shift is reached only when the byte-wide sum of the two counts wraps; when it does
    not, initialisation accepts exactly the sensible arguments.
   */
  lemma InitAcceptance(n: nat, s: nat, nodeId: u64, offset: u64, realtime: u64, now: u64)
    requires n < U8 && s < U8
    ensures Init(n, s, nodeId, offset, realtime, now).UndefinedShift? ==> n + s >= U8
    ensures n + s < U8 ==>
      (Init(n, s, nodeId, offset, realtime, now).Initialised? <==>
       n + s <= 22 && nodeId < Pow2(n) && offset <= realtime && offset <= now)
    ensures n + s >= U8 ==> !Init(n, s, nodeId, offset, realtime, now).Initialised?
    ensures n + s < U8 ==>
      Init(n, s, nodeId, offset, realtime, now).Initialised? ||
      Init(n, s, nodeId, offset, realtime, now) ==
        if n + s > 22 then TooManyBits
        else if nodeId >= Pow2(n) then NodeIdOutOfRange
        else if offset > realtime then OffsetInFuture
        else OffsetBeyondClock
  {
    assert n + s < U8 ==> (n + s) % U8 == n + s;
  }

  lemma NodeFits(nodeId: nat, n: nat, s: nat)
    requires n + s <= MAX_NODE_AND_SEQUENCE_BITS && nodeId < Pow2(n)
    ensures Shl(nodeId, s) < Pow2(n + s) <= Pow2(22) < U64
  {
    ShlOrder(nodeId, Pow2(n), s);
    ShlPow2(n, s);
    Pow2Monotone(n + s, 22);
    SmallPowers();
  }

  // ---- The machine ----

  datatype Thread =
    | Resting
    | Called                            // inside next, about to load the word
    | Loaded(seen: nat)                  // holds the word, about to read the clock
    | Exchange(seen: nat, next: nat)     // about to compare-exchange seen for next

  datatype Choice =
    | Call
    | Clock(now: u64) // one access; when the access reads the clock, the clock says this
    | FailSpuriously

  /** The shared word, the threads, and the ids in the order of the exchanges that made them. */
  datatype Generator = Generator(word: nat, threads: map<nat, Thread>, issued: seq<nat>) {
    function At(t: nat): Thread { if t in threads then threads[t] else Resting }

    function Goto(t: nat, pc: Thread): Generator { this.(threads := threads[t := pc]) }
  }

  const Fresh := Generator(0, map[], [])

  /** The word a thread tries to install after loading seen and reading the clock, or none: then it spins. */
  function Proposed(l: Layout, seen: nat, now: u64): (next: nat)
    requires seen < U64 && l.timestampOffset < U64
  {
    var timestamp := Sub64(now, l.timestampOffset);
    if timestamp > Shr(seen, l.nodeIdAndSequenceBits) then
      Shl(timestamp, l.nodeIdAndSequenceBits) % U64
    else if And(seen, l.maxSequence) < l.maxSequence then
      (seen + 1) % U64
    else
      seen
  }

  predicate Spins(l: Layout, seen: nat, now: u64)
    requires l.timestampOffset < U64
  {
    && Sub64(now, l.timestampOffset) <= Shr(seen, l.nodeIdAndSequenceBits)
    && And(seen, l.maxSequence) >= l.maxSequence
  }

  function Step(l: Layout, g: Generator, t: nat, c: Choice): Generator
    requires l.timestampOffset < U64
  {
    match g.At(t)
    case Resting => if c.Call? then g.Goto(t, Called) else g
    case Called => g.Goto(t, Loaded(g.word))
    case Loaded(seen) =>
      if c.Clock? && seen < U64 then
        if Spins(l, seen, c.now) then g.Goto(t, Called)
        else g.Goto(t, Exchange(seen, Proposed(l, seen, c.now)))
      else g
    case Exchange(seen, next) =>
      if g.word == seen && !c.FailSpuriously? then
        Generator(next, g.threads[t := Resting], g.issued + [Or(next, l.nodeBits)])
      else
        g.Goto(t, Called)
  }

  type Schedule = seq<(nat, Choice)>

  function Run(l: Layout, s: Schedule): Generator
    requires l.timestampOffset < U64
    decreases |s|
  {
    if s == [] then Fresh else
      var last := |s| - 1;
      Step(l, Run(l, s[..last]), s[last].0, s[last].1)
  }

  function ExtractTimestamp(l: Layout, id: nat): nat { Shr(id, l.nodeIdAndSequenceBits) }

  function ExtractNodeId(l: Layout, id: nat): nat { And(Shr(id, l.sequenceBits), l.maxNodeId) }

  function ExtractSequence(l: Layout, id: nat): nat { And(id, l.maxSequence) }

  // ---- Packing ----

  /** A word of the generator: timestamp above, sequence below, and the node field clear. */
  ghost function Word(l: Layout, timestamp: nat, sequence: nat): nat {
    Shl(timestamp, l.nodeIdAndSequenceBits) + sequence
  }

  /** A clock reading whose distance from the offset, formed in 64 bits, survives the shift. */
  predicate ClockFits(l: Layout, now: u64)
    requires l.timestampOffset < U64
  {
    Shl(Sub64(now, l.timestampOffset), l.nodeIdAndSequenceBits) < U64
  }

  predicate ClocksFit(l: Layout, s: Schedule)
    requires l.timestampOffset < U64
  {
    forall k :: 0 <= k < |s| && s[k].1.Clock? ==> ClockFits(l, s[k].1.now)
  }

  /** The id of a word puts the node between the timestamp and the sequence. */
  lemma IdShape(l: Layout, nodeId: nat, timestamp: nat, sequence: nat)
    requires WellFormed(l, nodeId) && sequence <= l.maxSequence
    ensures Or(Word(l, timestamp, sequence), l.nodeBits) ==
          Shl(Shl(timestamp, l.nodeIdBits) + nodeId, l.sequenceBits) + sequence
    ensures Or(Word(l, timestamp, sequence), l.nodeBits) == Word(l, timestamp, sequence) + l.nodeBits
  {
    var n, s := l.nodeIdBits, l.sequenceBits;
    var t := Shl(timestamp, n);
    ShlTwice(timestamp, n, s);
    OrShifted(t, sequence, nodeId, s);
    OrDisjoint(timestamp, nodeId, n);
    ShlAdd(t, nodeId, s);
  }

  /** An id takes apart into exactly the timestamp, node and sequence it was made of. */
  lemma Packing(l: Layout, nodeId: nat, timestamp: nat, sequence: nat)
    requires WellFormed(l, nodeId) && sequence <= l.maxSequence
    ensures var id := Or(Word(l, timestamp, sequence), l.nodeBits);
      && ExtractTimestamp(l, id) == timestamp
      && ExtractNodeId(l, id) == nodeId
      && ExtractSequence(l, id) == sequence
  {
    var n, s := l.nodeIdBits, l.sequenceBits;
    var t := Shl(timestamp, n) + nodeId;
    IdShape(l, nodeId, timestamp, sequence);
    ShiftBack(t, sequence, s);
    MaskLow(t, sequence, s);
    ShrTwice(Shl(t, s) + sequence, s, n);
    ShiftBack(timestamp, nodeId, n);
    MaskLow(timestamp, nodeId, n);
  }
}
