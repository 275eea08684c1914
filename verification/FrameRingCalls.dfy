/** What each call of the producer does, refusals included, and the round trip of a claimed frame. */
module FrameRingCalls {
  import opened Bits
  import opened Options
  import opened Tensor
  import TensorAddressing
  import opened FrameRing
  import opened FrameRingSafety
  import opened FrameRingProgress
  import opened FrameRingPayload
  import FrameRingOverlap

  // ---- Preparing a header ----

  /**
    A prepared header has its dimensions as given and its inferred strides, nothing beyond them, and all else unchanged.
   */
  lemma PreparedMeans(h: Header)
    requires WireHeader(h) && Prepare(h).Some?
    ensures var p := Prepare(h).value;
            && 1 <= h.ndims <= MAX_DIMS && p == h.(dims := p.dims, strides := p.strides) && p.Shaped()
            && (forall i :: 0 <= i < h.ndims ==> p.dims[i] == h.dims[i])
            && (forall i :: h.ndims <= i < MAX_DIMS ==> p.dims[i] == 0 == p.strides[i])
            && (forall k: nat :: k < h.ndims ==>
                  p.strides[Axis(h.majorOrder, h.ndims, k)] == TensorAddressing.WrappedStride(h, k))
  {
    var p := Prepare(h).value;
    TensorAddressing.AcceptedMeans(Cleared(h));
    forall k: nat | k < h.ndims
      ensures p.strides[Axis(h.majorOrder, h.ndims, k)] == TensorAddressing.WrappedStride(h, k)
    {
      TensorAddressing.StridesAreWrapped(Cleared(h), p, k);
      ClearedStrides(h, k);
    }
  }

  // ---- Calls ----

  /** Marking the slot of a number in progress, and nothing else in shared memory. */
  ghost predicate OnlyMarks(c: Config, r: Ring, r': Ring, sn: nat)
    requires c.Valid()
  {
    && r'.memory == r.memory && r'.readers == r.readers && r'.done == r.done
    && forall offset: nat :: r'.At(offset) ==
         if offset == c.SlotOffset(c.Index(sn)) then r.At(offset).(word := 2 * sn) else r.At(offset)
  }

  lemma BeginOnlyMarks(c: Config, r: Ring, sn: nat, f: Frame, copy: bool)
    requires c.Valid() && sn < U64 / 2
    ensures OnlyMarks(c, r, Begin(c, r, sn, f, copy), sn)
    ensures Begin(c, r, sn, f, copy) ==
              r.(slots := Begin(c, r, sn, f, copy).slots, published := r.published[sn := f],
                 job := if copy then CopyPayload(sn, f, 0) else StoreFields(sn, f, 0))
  {
    InRange(sn, U64);
  }

  /** Best fit over all pools. */
  ghost predicate Takes(c: Config, pool: nat, length: nat) { FitsBest(c.pools, length, Some(pool)) }

  lemma BestPoolFits(c: Config, length: nat)
    ensures FitsBest(c.pools, length, BestPool(c.pools, length, |c.pools|))
  {
    assert c.pools[..|c.pools|] == c.pools;
  }

  /**
    An offer too large for every pool changes nothing; one whose header is refused spends its number; any other marks
    its slot and begins to publish its frame, in the best-fitting pool, under the next number.
   */
  lemma OfferOutcome(c: Config, r: Ring, h: Header, payload: seq<int>, timestamp: nat, metaVersion: nat)
    requires c.Valid() && r.job.NoJob? && WireHeader(h) && r.nextSeq < U64 / 2
    ensures var r' := DoOffer(c, r, h, payload, timestamp, metaVersion);
            if forall i :: 0 <= i < |c.pools| ==> c.pools[i].stride < |payload| then r' == r
            else if Prepare(h).None? then r' == r.(nextSeq := r.nextSeq + 1)
            else
              && r'.nextSeq == r.nextSeq + 1 && r'.claims == r.claims && r'.issued == r.issued
              && OnlyMarks(c, r, r', r.nextSeq)
              && r'.job.CopyPayload? && r'.job.sn == r.nextSeq && r'.job.k == 0
              && r'.published == r.published[r.nextSeq := r'.job.frame]
              && Takes(c, r'.job.frame.pool, |payload|)
              && r'.job.frame == Frame(Prepare(h).value, payload, r'.job.frame.pool, timestamp, metaVersion)
  {
    BestPoolFits(c, |payload|);
    var best := BestPool(c.pools, |payload|, |c.pools|);
    if best.Some? && Prepare(h).Some? {
      var f := Frame(Prepare(h).value, payload, best.value, timestamp, metaVersion);
      OfferStarts(c, r, h, f);
      BeginOnlyMarks(c, r.(nextSeq := r.nextSeq + 1), r.nextSeq, f, true);
    }
  }

  lemma OfferStarts(c: Config, r: Ring, h: Header, f: Frame)
    requires c.Valid() && r.job.NoJob? && WireHeader(h) && Prepare(h) == Some(f.tensor)
    requires BestPool(c.pools, |f.payload|, |c.pools|) == Some(f.pool)
    ensures DoOffer(c, r, h, f.payload, f.timestamp, f.metaVersion) ==
              Begin(c, r.(nextSeq := r.nextSeq + 1), r.nextSeq, f, true)
  {
    OfferIntoIsBegin(c, r, f.pool, h, f.tensor, f.payload, f.timestamp, f.metaVersion);
  }

  /** A claim too large for every pool changes nothing; any other marks its slot and is open under the next number. */
  lemma ClaimOutcome(c: Config, r: Ring, length: nat)
    requires c.Valid() && r.job.NoJob? && r.nextSeq < U64 / 2
    ensures var r' := DoTryClaim(c, r, length);
            if forall i :: 0 <= i < |c.pools| ==> c.pools[i].stride < length then r' == r
            else
              && r'.nextSeq == r.nextSeq + 1 && r'.published == r.published && r'.job == r.job
              && OnlyMarks(c, r, r', r.nextSeq)
              && r.nextSeq in r'.claims && r'.claims == r.claims[r.nextSeq := r'.claims[r.nextSeq]]
              && r'.issued == r.issued[r.nextSeq := r'.claims[r.nextSeq]]
              && r'.claims[r.nextSeq].length == length && Takes(c, r'.claims[r.nextSeq].pool, length)
  {
    BestPoolFits(c, length);
    InRange(r.nextSeq, U64);
  }

  /** Writing a byte of an open claim changes that byte of its payload slot and no other; beyond its length nothing. */
  lemma WriteOutcome(c: Config, r: Ring, sn: nat, k: nat, byte: int, pool: nat, address: nat)
    requires c.Valid() && sn in r.claims && r.claims[sn].pool < |c.pools|
    ensures var (r', claim) := (DoWriteClaim(c, r, sn, k, byte), r.claims[sn]);
            && r' == r.(memory := r'.memory) && (k >= claim.length ==> r' == r)
            && (k < claim.length ==>
                  r'.Byte(pool, address) ==
                  if pool == claim.pool && address == c.PayloadOffset(pool, c.Index(sn)) + k then byte
                  else r.Byte(pool, address))
  {
  }

  /** A commit whose header is refused leaves the claim open; any other closes it and begins to publish its frame. */
  lemma CommitOutcome(c: Config, r: Ring, sn: nat, h: Header, timestamp: nat, metaVersion: nat)
    requires c.Valid() && BookInv(c, r) && r.job.NoJob? && sn in r.claims && WireHeader(h)
    ensures var (r', claim) := (DoCommit(c, r, sn, r.claims[sn], h, timestamp, metaVersion), r.claims[sn]);
            if Prepare(h).None? then r' == r
            else
              && r'.nextSeq == r.nextSeq && r'.claims == r.claims - {sn} && r'.issued == r.issued
              && OnlyMarks(c, r, r', sn) && claim.pool < |c.pools|
              && r'.job.StoreFields? && r'.job.sn == sn && r'.job.k == 0
              && r'.published == r.published[sn := r'.job.frame]
              && r'.job.frame == Frame(Prepare(h).value, r'.job.frame.payload, claim.pool, timestamp, metaVersion)
              && Spells(c, r, sn, claim, r'.job.frame.payload)
  {
    if Prepare(h).Some? {
      var claim, closed := r.claims[sn], r.(claims := r.claims - {sn});
      ClaimBooked(c, r, sn);
      var f := Frame(Prepare(h).value, ClaimedBytes(c, r, sn, claim), claim.pool, timestamp, metaVersion);
      CommitIsBegin(c, r, sn, claim, h, timestamp, metaVersion, f);
      BeginOnlyMarks(c, closed, sn, f, false);
      assert OnlyMarks(c, r, Begin(c, closed, sn, f, false), sn);
    }
  }

  lemma ClaimBooked(c: Config, r: Ring, sn: nat)
    requires c.Valid() && BookInv(c, r) && sn in r.claims
    ensures sn < U64 / 2 && r.claims[sn].pool < |c.pools|
    ensures Spells(c, r, sn, r.claims[sn], ClaimedBytes(c, r, sn, r.claims[sn]))
  {
  }

  /** The bytes of a claim's payload slot, as many as the claim is long. */
  ghost predicate Spells(c: Config, r: Ring, sn: nat, claim: Claim, payload: seq<int>)
    requires c.Valid() && claim.pool < |c.pools|
  {
    && |payload| == claim.length
    && forall k :: 0 <= k < |payload| ==> payload[k] == r.Byte(claim.pool, c.PayloadOffset(claim.pool, c.Index(sn)) + k)
  }

  // ---- The round trip of a claim ----

  /** A commit and all its stores. */
  function CommitAlone(c: Config, r: Ring, sn: nat, claim: Claim, h: Header, timestamp: nat, metaVersion: nat): Ring
    requires c.Valid()
  {
    Stores(c, DoCommit(c, r, sn, claim, h, timestamp, metaVersion), CELLS + 1)
  }

  /**
    From any reachable state at rest, a claim that is committed and then read comes back with the header prepared, the
    claim's own pool and length, and the bytes its slot held at the commit, exactly when no inferred stride wraps below
    zero; otherwise the frame is skipped.
   */
  lemma ClaimedFrameIsRead(c: Config, s: Schedule, id: nat, sn: nat, h: Header, timestamp: nat, metaVersion: nat)
    requires c.Valid() && PublishesOnce(s) && Run(c, s).job.NoJob? && sn in Run(c, s).claims
    requires WireHeader(h) && Prepare(h).Some?
    ensures 1 <= h.ndims <= MAX_DIMS
    ensures var (r, claim) := (Run(c, s), Run(c, s).claims[sn]);
            var r' := CommitAlone(c, r, sn, claim, h, timestamp, metaVersion);
            && claim.pool < |c.pools| && r'.memory == r.memory
            && Read(c, r', id, sn).Reader(id) == Finished(sn,
                 if TensorAddressing.NoNegativeWrap(h)
                 then Got(View(Prepare(h).value, claim.length, claim.pool, c.pools[claim.pool].id, sn % c.nslots,
                               timestamp, metaVersion))
                 else Skipped)
  {
    RunKeeps(c, s);
    PreparedIsSettled(h);
    CommitThenRead(c, Run(c, s), id, sn, h, timestamp, metaVersion);
  }

  lemma CommitThenRead(c: Config, r: Ring, id: nat, sn: nat, h: Header, timestamp: nat, metaVersion: nat)
    requires c.Valid() && Inv(c, r) && r.job.NoJob? && sn in r.claims && WireHeader(h) && Prepare(h).Some?
    requires 1 <= h.ndims <= MAX_DIMS
    ensures var claim := r.claims[sn];
            var r' := CommitAlone(c, r, sn, claim, h, timestamp, metaVersion);
            && claim.pool < |c.pools| && r'.memory == r.memory
            && Read(c, r', id, sn).Reader(id) == Finished(sn,
                 if TensorAddressing.NoNegativeWrap(h)
                 then Got(View(Prepare(h).value, claim.length, claim.pool, c.pools[claim.pool].id, sn % c.nslots,
                               timestamp, metaVersion))
                 else Skipped)
  {
    var claim := r.claims[sn];
    var f := Frame(Prepare(h).value, ClaimedBytes(c, r, sn, claim), claim.pool, timestamp, metaVersion);
    var begun := DoCommit(c, r, sn, claim, h, timestamp, metaVersion);
    CommitKeeps(c, r, sn, h, timestamp, metaVersion);
    CommitIsBegin(c, r, sn, claim, h, timestamp, metaVersion, f);
    PreparedIsSettled(h);
    CommittedFrame(c, begun, sn, f);
    FrameRingOverlap.MemoryKept(c, begun, CELLS + 1);
    ReadAloneReturnsFrame(c, Stores(c, begun, CELLS + 1), id, sn, f);
  }

  /** A publication that begins at its fields, run to its end, holds its frame. */
  lemma CommittedFrame(c: Config, r: Ring, sn: nat, f: Frame)
    requires c.Valid() && Inv(c, r) && r.job == StoreFields(sn, f, 0)
    ensures HoldsFrame(c, Stores(c, r, CELLS + 1), sn, f)
  {
    assert SlotInv(c, r, c.SlotOffset(c.Index(sn)));
    FieldsThenCommit(c, r, sn, f);
    StoresKeepBook(c, r, CELLS + 1);
  }
}
