/** The generator as a caller alone with it sees it: one word, advanced in place. */
module TraceIdInPlace {
  import opened Bits
  import opened TraceId
  import opened TraceIdSafety
  import opened TraceIdCalls

  datatype NextId = Id(id: nat) | OutOfReadings

  /** What holds of the word a reading lets through, and of its id. */
  lemma ProposalIsIssued(l: Layout, nodeId: nat, w: nat, now: u64)
    requires WellFormed(l, nodeId) && WordOk(l, w) && !Spins(l, w, now)
    ensures var next := Proposed(l, w, now);
      && WordOk(l, next) && Or(next, l.nodeBits) == next + l.nodeBits
      && ExtractNodeId(l, next + l.nodeBits) == nodeId && (ClockFits(l, now) ==> next > w)
  {
    ProposedIsPacked(l, nodeId, w, now);
    if ClockFits(l, now) { ProposedAdvances(l, nodeId, w, now); }
    IssuedIsPacked(l, nodeId, Proposed(l, w, now));
    IdFields(l, nodeId, Proposed(l, w, now) + l.nodeBits);
  }

  /** The reading is not ahead of the word, and the word has used its last sequence number. */
  predicate Exhausted(l: Layout, w: nat, now: u64)
    requires l.timestampOffset < U64
  {
    TimeOf(l, now) <= ExtractTimestamp(l, w) && ExtractSequence(l, w) + 1 == Pow2(l.sequenceBits)
  }

  /** The id takes the reading's time and number 0 if the reading is ahead, else the next number of the word's time. */
  predicate Follows(l: Layout, w: nat, now: u64, id: nat)
    requires l.timestampOffset < U64
  {
    if TimeOf(l, now) > ExtractTimestamp(l, w) then
      ExtractTimestamp(l, id) == TimeOf(l, now) && ExtractSequence(l, id) == 0
    else
      ExtractTimestamp(l, id) == ExtractTimestamp(l, w) && ExtractSequence(l, id) == ExtractSequence(l, w) + 1
  }

  lemma WaitsWhenExhausted(l: Layout, nodeId: nat, w: nat, now: u64)
    requires WellFormed(l, nodeId) && WordOk(l, w)
    ensures Spins(l, w, now) <==> Exhausted(l, w, now)
  {
    WordFields(l, nodeId, w);
    WaitsIffExhausted(l, nodeId, ExtractTimestamp(l, w), ExtractSequence(l, w), now);
  }

  lemma WordFields(l: Layout, nodeId: nat, w: nat)
    requires WellFormed(l, nodeId) && WordOk(l, w)
    ensures w == Word(l, ExtractTimestamp(l, w), ExtractSequence(l, w)) && ExtractSequence(l, w) < Pow2(l.sequenceBits)
  {
    RingIndexOfMask(l.sequenceBits, w);
  }

  lemma RingIndexOfMask(k: nat, w: nat)
    ensures And(w, Pow2(k) - 1) < Pow2(k)
  {
    MaskIsResidue(w, k);
  }

  lemma ProposalFollows(l: Layout, nodeId: nat, w: nat, now: u64)
    requires WellFormed(l, nodeId) && WordOk(l, w) && !Spins(l, w, now) && ClockFits(l, now)
    ensures Follows(l, w, now, Or(Proposed(l, w, now), l.nodeBits))
  {
    var t, q := ExtractTimestamp(l, w), ExtractSequence(l, w);
    WordFields(l, nodeId, w);
    WaitsIffExhausted(l, nodeId, t, q, now);
    NextFields(l, nodeId, t, q, now);
    Packing(l, nodeId, NextTime(l, t, now), NextSequence(l, t, q, now));
  }

  class Generator {
    const layout: Layout
    ghost const node: nat
    var word: nat

    ghost predicate Valid()
      reads this
    {
      WellFormed(layout, node) && WordOk(layout, word)
    }

    constructor (layout: Layout, ghost node: nat)
      requires WellFormed(layout, node)
      ensures Valid() && this.layout == layout && this.node == node && word == 0
    {
      this.layout, this.node, word := layout, node, 0;
      new;
      ZeroIsOk(layout, node);
    }

    /**
      Reads the clock until it does not have to wait. The readings are the caller's; the id found belongs to the first
      one that lets the word move, and the word moves forward by it when that reading fits.
     */
    method Next(clock: seq<u64>) returns (r: NextId)
      requires Valid()
      modifies this
      ensures Valid()
      ensures r.OutOfReadings? <==> forall k :: 0 <= k < |clock| ==> Exhausted(layout, old(word), clock[k])
      ensures r.OutOfReadings? ==> word == old(word)
      ensures r.Id? ==> r.id == word + layout.nodeBits && ExtractNodeId(layout, r.id) == node
      ensures r.Id? ==> exists k :: 0 <= k < |clock| && !Exhausted(layout, old(word), clock[k])
                          && (forall j :: 0 <= j < k ==> Exhausted(layout, old(word), clock[j]))
                          && (ClockFits(layout, clock[k]) ==>
                              word > old(word) && Follows(layout, old(word), clock[k], r.id))
    {
      var i := 0;
      while i < |clock|
        invariant i <= |clock| && word == old(word)
        invariant forall j :: 0 <= j < i ==> Exhausted(layout, word, clock[j])
      {
        var seen := word;
        var timestamp := Sub64(clock[i], layout.timestampOffset);
        var next := seen;
        if timestamp > Shr(seen, layout.nodeIdAndSequenceBits) {
          next := Shl(timestamp, layout.nodeIdAndSequenceBits) % U64;
        } else if And(seen, layout.maxSequence) < layout.maxSequence {
          next := (seen + 1) % U64;
        }
        WaitsWhenExhausted(layout, node, seen, clock[i]);
        if !Spins(layout, seen, clock[i]) {
          ProposalIsIssued(layout, node, seen, clock[i]);
          if ClockFits(layout, clock[i]) { ProposalFollows(layout, node, seen, clock[i]); }
          word := next;
          return Id(Or(next, layout.nodeBits));
        }
        i := i + 1;
      }
      r := OutOfReadings;
    }
  }
}
