/** No torn reads: a read that succeeds returns exactly the frame published under the sequence number asked for. */
module FrameRingSafety {
  import opened Bits
  import opened Options
  import opened Tensor
  import TensorAddressing
  import opened FrameRing

  // ---- The wire round trip ----

  /** Decoding the embedded header gives back what was encoded. */
  lemma HeaderRoundTrip(h: Header)
    requires WireHeader(h)
    ensures DecodeHeader(EncodeHeader(h)) == Some(h)
  {
    var words := EncodeHeader(h);
    var d := DecodeHeader(words).value;
    forall i | 0 <= i < MAX_DIMS
      ensures d.dims[i] == h.dims[i] && d.strides[i] == h.strides[i]
    {
      Int32Of(h.dims[i]);
      Int32Of(h.strides[i]);
    }
    assert d.dims == h.dims && d.strides == h.strides;
    InRange(h.ndims, U8);
    InRange(h.progressStride, U32);
  }

  /** A header that validation, if it accepts it, leaves alone. */
  ghost predicate Settled(h: Header) {
    WireHeader(h) && (Validate(h).0 ==> Validate(h).1 == h)
  }

  /** Clearing the unused dimensions changes nothing that inference looks at. */
  lemma {:induction false} ClearedStrides(h: Header, k: nat)
    requires WireHeader(h) && k < h.ndims <= MAX_DIMS
    ensures TensorAddressing.WrappedStride(Cleared(h), k) == TensorAddressing.WrappedStride(h, k)
    ensures TensorAddressing.ExactStride(Cleared(h), k) == TensorAddressing.ExactStride(h, k)
    ensures k > 0 ==> TensorAddressing.ExactProduct(Cleared(h), k) == TensorAddressing.ExactProduct(h, k)
  {
    if k > 0 { ClearedStrides(h, k - 1); }
  }

  lemma ClearedFits(h: Header)
    requires WireHeader(h) && h.ndims <= MAX_DIMS
    ensures TensorAddressing.NoNegativeWrap(Cleared(h)) <==> TensorAddressing.NoNegativeWrap(h)
    ensures TensorAddressing.ExactFits(Cleared(h)) <==> TensorAddressing.ExactFits(h)
  {
    forall k: nat | k < h.ndims
      ensures TensorAddressing.WrappedStride(Cleared(h), k) == TensorAddressing.WrappedStride(h, k)
      ensures k > 0 ==> TensorAddressing.ExactProduct(Cleared(h), k) == TensorAddressing.ExactProduct(h, k)
    {
      ClearedStrides(h, k);
    }
  }

  /**
    What a producer prepares, a consumer's validation accepts exactly when no stride inferred from the producer's
    header wraps below zero, in particular when the exact strides fit; and it then leaves the header unchanged.
   */
  lemma PreparedIsSettled(h: Header)
    requires WireHeader(h) && Prepare(h).Some?
    ensures 1 <= h.ndims <= MAX_DIMS && Settled(Prepare(h).value)
    ensures Validate(Prepare(h).value).0 <==> TensorAddressing.NoNegativeWrap(h)
    ensures TensorAddressing.ExactFits(h) ==> Validate(Prepare(h).value) == (true, Prepare(h).value)
  {
    TensorAddressing.ValidationIsFixedPoint(Cleared(h));
    TensorAddressing.ExactFitsIsFixedPoint(Cleared(h));
    ClearedFits(h);
  }

  ghost predicate FrameOk(c: Config, f: Frame) {
    && f.pool < |c.pools| && |f.payload| <= c.pools[f.pool].stride
    && Settled(f.tensor)
  }

  lemma {:induction false} FindPoolFinds(c: Config, pool: nat, from: nat)
    requires c.Valid() && from <= pool < |c.pools|
    ensures c.FindPool(c.pools[pool].id, from) == Some(pool)
    decreases pool - from
  {
    if from < pool { FindPoolFinds(c, pool, from + 1); }
  }

  /** Interpreting the fields of a frame, where it succeeds, gives the frame's own view. */
  lemma InterpretFrame(c: Config, sn: nat, f: Frame)
    requires c.Valid() && FrameOk(c, f)
    requires Interpret(c, c.Index(sn), FrameCells(c, f, c.Index(sn))).Some?
    ensures Interpret(c, c.Index(sn), FrameCells(c, f, c.Index(sn))) == Some(ViewOf(c, sn, f))
  {
    var cells := FrameCells(c, f, c.Index(sn));
    assert cells[FIELDS..] == EncodeHeader(f.tensor);
    HeaderRoundTrip(f.tensor);
    FindPoolFinds(c, f.pool, 0);
  }

  // ---- The invariant ----

  ghost predicate Holds(c: Config, r: Ring, offset: nat, v: nat)
    requires c.Valid()
  {
    && v in r.done && v in r.published && FrameOk(c, r.published[v])
    && offset == c.SlotOffset(c.Index(v))
    && r.At(offset).cells == FrameCells(c, r.published[v], c.Index(v))
  }

  ghost predicate SlotInv(c: Config, r: Ring, offset: nat)
    requires c.Valid()
  {
    var s := r.At(offset);
    |s.cells| == CELLS && (s.word % 2 == 1 ==> Holds(c, r, offset, s.word / 2))
  }

  ghost predicate JobInv(c: Config, r: Ring)
    requires c.Valid()
  {
    r.job.NoJob? ||
    (var sn := r.job.sn;
     var s := r.At(c.SlotOffset(c.Index(sn)));
     && sn in r.published && sn !in r.done && sn < r.nextSeq
     && r.job.frame == r.published[sn] && FrameOk(c, r.job.frame)
     && s.word == 2 * sn
     && (r.job.StoreFields? ==>
           r.job.k <= CELLS && |s.cells| == CELLS &&
           s.cells[..r.job.k] == FrameCells(c, r.job.frame, c.Index(sn))[..r.job.k]))
  }

  ghost predicate ReaderInv(c: Config, r: Ring, id: nat)
    requires c.Valid()
  {
    match r.Reader(id)
    case Resting => true
    case FirstLoad(_) => true
    case Reading(sn, first, got) =>
      var offset := c.SlotOffset(c.Index(sn));
      && first % 2 == 1 && first / 2 in r.done && |got| <= CELLS
      && (r.At(offset).word == first ==> got <= r.At(offset).cells)
    case SecondLoad(sn, first, view) =>
      var offset := c.SlotOffset(c.Index(sn));
      && first % 2 == 1 && first / 2 in r.done
      && (r.At(offset).word == first ==>
            |r.At(offset).cells| == CELLS && Interpret(c, c.Index(sn), r.At(offset).cells) == Some(view))
    case Finished(sn, result) =>
      result.Got? ==>
        && sn in r.done && sn in r.published && FrameOk(c, r.published[sn])
        && result.view == ViewOf(c, sn, r.published[sn])
  }

  ghost predicate BookInv(c: Config, r: Ring) {
    && (forall s :: s in r.published ==> s < r.nextSeq && (s in r.done || (!r.job.NoJob? && s == r.job.sn)))
    && (forall s :: s in r.done ==> s in r.published)
    && (forall s :: s in r.claims ==>
          s < r.nextSeq && s !in r.published && r.claims[s].pool < |c.pools| &&
          r.claims[s].length <= c.pools[r.claims[s].pool].stride)
    && r.nextSeq < U64 / 2
  }

  ghost predicate Inv(c: Config, r: Ring)
    requires c.Valid()
  {
    && BookInv(c, r)
    && JobInv(c, r)
    && (forall offset: nat :: SlotInv(c, r, offset))
    && (forall id: nat :: ReaderInv(c, r, id))
  }

  /** Steps outside the slots keep everything about slots and readers. */
  lemma SlotsUntouched(c: Config, r: Ring, r': Ring)
    requires c.Valid() && Inv(c, r) && BookInv(c, r') && JobInv(c, r')
    requires r'.slots == r.slots && r'.readers == r.readers && r'.published == r.published && r'.done == r.done
    ensures Inv(c, r')
  {
    forall offset: nat
      ensures SlotInv(c, r', offset)
    {
      assert SlotInv(c, r, offset);
    }
    forall id: nat
      ensures ReaderInv(c, r', id)
    {
      assert ReaderInv(c, r, id);
    }
  }

  ghost predicate Marks(c: Config, r: Ring, r': Ring, sn: nat)
    requires c.Valid()
  {
    && sn < U64 / 2 && sn !in r.done
    && r'.slots == r.Mark(c.SlotOffset(c.Index(sn)), InProgress(sn)).slots
    && r'.readers == r.readers && r'.done == r.done
    && forall v :: v in r.published && v != sn ==> v in r'.published && r'.published[v] == r.published[v]
  }

  lemma MarkedReaders(c: Config, r: Ring, r': Ring, sn: nat, id: nat)
    requires c.Valid() && Inv(c, r) && Marks(c, r, r', sn)
    ensures ReaderInv(c, r', id)
  {
    assert ReaderInv(c, r, id);
  }

  /** Marking a slot in progress invalidates what readers of that slot have loaded, and no other slot. */
  lemma Marked(c: Config, r: Ring, r': Ring, sn: nat)
    requires c.Valid() && Inv(c, r) && BookInv(c, r') && JobInv(c, r') && Marks(c, r, r', sn)
    ensures Inv(c, r')
  {
    var marked := c.SlotOffset(c.Index(sn));
    assert SlotInv(c, r, marked);
    forall offset: nat
      ensures SlotInv(c, r', offset)
    {
      assert SlotInv(c, r, offset);
    }
    forall id: nat
      ensures ReaderInv(c, r', id)
    {
      MarkedReaders(c, r, r', sn, id);
    }
  }

  lemma BestPoolInRange(c: Config, length: nat)
    ensures var p := BestPool(c.pools, length, |c.pools|);
      p.Some? ==> p.value < |c.pools| && length <= c.pools[p.value].stride
  {
    assert c.pools[..|c.pools|] == c.pools;
  }

  lemma BeginKeeps(c: Config, r: Ring, sn: nat, f: Frame, copy: bool)
    requires c.Valid() && Inv(c, r) && r.job.NoJob? && FrameOk(c, f)
    requires sn < r.nextSeq && sn !in r.published && sn !in r.claims
    ensures Inv(c, Begin(c, r, sn, f, copy))
  {
    var r' := Begin(c, r, sn, f, copy);
    var offset := c.SlotOffset(c.Index(sn));
    InRange(sn, U64);
    assert SlotInv(c, r, offset);
    assert r'.published == r.published[sn := f];
    Marked(c, r, r', sn);
  }

  lemma PreparedFrameOk(c: Config, tensor: Header, h: Header, payload: seq<int>, pool: nat, timestamp: nat,
      metaVersion: nat)
    requires c.Valid() && WireHeader(tensor) && Prepare(tensor) == Some(h)
    requires BestPool(c.pools, |payload|, |c.pools|) == Some(pool)
    ensures FrameOk(c, Frame(h, payload, pool, timestamp, metaVersion))
  {
    BestPoolInRange(c, |payload|);
    PreparedIsSettled(tensor);
  }

  /** Spending a sequence number without publishing it, as an offer whose header is refused does. */
  lemma SpendKeeps(c: Config, r: Ring)
    requires c.Valid() && Inv(c, r) && r.nextSeq + 1 < U64 / 2
    ensures Inv(c, r.(nextSeq := r.nextSeq + 1))
  {
    SlotsUntouched(c, r, r.(nextSeq := r.nextSeq + 1));
  }

  lemma BeginNextKeeps(c: Config, r: Ring, f: Frame)
    requires c.Valid() && Inv(c, r) && r.nextSeq + 1 < U64 / 2 && r.job.NoJob? && FrameOk(c, f)
    ensures Inv(c, Begin(c, r.(nextSeq := r.nextSeq + 1), r.nextSeq, f, true))
  {
    SpendKeeps(c, r);
    BeginKeeps(c, r.(nextSeq := r.nextSeq + 1), r.nextSeq, f, true);
  }

  lemma PreparedKeeps(c: Config, r: Ring, tensor: Header, h: Header, payload: seq<int>, pool: nat, timestamp: nat,
      metaVersion: nat)
    requires c.Valid() && Inv(c, r) && r.nextSeq + 1 < U64 / 2 && r.job.NoJob?
    requires WireHeader(tensor) && Prepare(tensor) == Some(h) && BestPool(c.pools, |payload|, |c.pools|) == Some(pool)
    ensures Inv(c, Begin(c, r.(nextSeq := r.nextSeq + 1), r.nextSeq, Frame(h, payload, pool, timestamp, metaVersion),
          true))
  {
    PreparedFrameOk(c, tensor, h, payload, pool, timestamp, metaVersion);
    BeginNextKeeps(c, r, Frame(h, payload, pool, timestamp, metaVersion));
  }

  lemma OfferIntoIsBegin(c: Config, r: Ring, pool: nat, tensor: Header, h: Header, payload: seq<int>, timestamp: nat,
      metaVersion: nat)
    requires c.Valid() && WireHeader(tensor) && Prepare(tensor) == Some(h)
    ensures OfferInto(c, r, pool, tensor, payload, timestamp, metaVersion) ==
            Begin(c, r.(nextSeq := r.nextSeq + 1), r.nextSeq, Frame(h, payload, pool, timestamp, metaVersion), true)
  {
  }

  lemma OfferIntoKeeps(c: Config, r: Ring, pool: nat, tensor: Header, payload: seq<int>, timestamp: nat,
      metaVersion: nat)
    requires c.Valid() && Inv(c, r) && r.nextSeq + 1 < U64 / 2 && r.job.NoJob?
    requires WireHeader(tensor) && BestPool(c.pools, |payload|, |c.pools|) == Some(pool)
    ensures Inv(c, OfferInto(c, r, pool, tensor, payload, timestamp, metaVersion))
  {
    var next, r' := r.(nextSeq := r.nextSeq + 1), OfferInto(c, r, pool, tensor, payload, timestamp, metaVersion);
    match Prepare(tensor)
    case None =>
      assert r' == next;
      SpendKeeps(c, r);
    case Some(h) =>
      OfferIntoIsBegin(c, r, pool, tensor, h, payload, timestamp, metaVersion);
      PreparedKeeps(c, r, tensor, h, payload, pool, timestamp, metaVersion);
  }

  lemma OfferKeeps(c: Config, r: Ring, tensor: Header, payload: seq<int>, timestamp: nat, metaVersion: nat)
    requires c.Valid() && Inv(c, r) && r.nextSeq + 1 < U64 / 2
    ensures Inv(c, DoOffer(c, r, tensor, payload, timestamp, metaVersion))
  {
    if r.job.NoJob? && WireHeader(tensor) {
      match BestPool(c.pools, |payload|, |c.pools|)
      case None =>
      case Some(pool) => OfferIntoKeeps(c, r, pool, tensor, payload, timestamp, metaVersion);
    }
  }

  lemma ClaimKeeps(c: Config, r: Ring, length: nat)
    requires c.Valid() && Inv(c, r) && r.nextSeq + 1 < U64 / 2
    ensures Inv(c, DoTryClaim(c, r, length))
  {
    BestPoolInRange(c, length);
    if r.job.NoJob? && BestPool(c.pools, length, |c.pools|).Some? {
      InRange(r.nextSeq, U64);
      Marked(c, r, DoTryClaim(c, r, length), r.nextSeq);
    }
  }

  lemma CommitKeeps(c: Config, r: Ring, sn: nat, tensor: Header, timestamp: nat, metaVersion: nat)
    requires c.Valid() && Inv(c, r) && sn in r.claims
    ensures Inv(c, DoCommit(c, r, sn, r.claims[sn], tensor, timestamp, metaVersion))
  {
    var claim := r.claims[sn];
    if r.job.NoJob? && WireHeader(tensor) && Prepare(tensor).Some? {
      PreparedIsSettled(tensor);
      var f := Frame(Prepare(tensor).value, ClaimedBytes(c, r, sn, claim), claim.pool, timestamp, metaVersion);
      var unclaimed := r.(claims := r.claims - {sn});
      SlotsUntouched(c, r, unclaimed);
      BeginKeeps(c, unclaimed, sn, f, false);
      assert DoCommit(c, r, sn, claim, tensor, timestamp, metaVersion) == Begin(c, unclaimed, sn, f, false);
    }
  }

  /** Storing a field changes only a slot that is marked in progress. */
  lemma FieldKeeps(c: Config, r: Ring)
    requires c.Valid() && Inv(c, r) && r.job.StoreFields? && r.job.k < CELLS
    ensures Inv(c, StoreField(c, r, r.job.sn, r.job.frame, r.job.k))
  {
    var sn, k := r.job.sn, r.job.k;
    var r' := StoreField(c, r, sn, r.job.frame, k);
    var offset := c.SlotOffset(c.Index(sn));
    assert SlotInv(c, r, offset);
    assert r'.At(offset).cells[..k + 1] == r.At(offset).cells[..k] + [FrameCells(c, r.job.frame, c.Index(sn))[k]];
    forall o: nat
      ensures SlotInv(c, r', o)
    {
      assert SlotInv(c, r, o);
    }
    forall id: nat
      ensures ReaderInv(c, r', id)
    {
      assert ReaderInv(c, r, id);
    }
  }

  /** The committing store shows a word no reader has ever loaded before. */
  lemma CommittedKeeps(c: Config, r: Ring)
    requires c.Valid() && Inv(c, r) && r.job.StoreFields? && r.job.k == CELLS
    ensures Inv(c, StoreField(c, r, r.job.sn, r.job.frame, r.job.k))
  {
    var sn := r.job.sn;
    var r' := StoreField(c, r, sn, r.job.frame, r.job.k);
    var offset := c.SlotOffset(c.Index(sn));
    InRange(sn, U64);
    assert r'.At(offset).word == 2 * sn + 1;
    assert SlotInv(c, r, offset);
    assert r.At(offset).cells[..CELLS] == r.At(offset).cells;
    assert FrameCells(c, r.job.frame, c.Index(sn))[..CELLS] == FrameCells(c, r.job.frame, c.Index(sn));
    forall o: nat
      ensures SlotInv(c, r', o)
    {
      assert SlotInv(c, r, o);
    }
    forall id: nat
      ensures ReaderInv(c, r', id)
    {
      assert ReaderInv(c, r, id);
    }
  }

  lemma CopyKeeps(c: Config, r: Ring)
    requires c.Valid() && Inv(c, r) && r.job.CopyPayload?
    ensures Inv(c, CopyByte(c, r, r.job.sn, r.job.frame, r.job.k))
  {
    assert SlotInv(c, r, c.SlotOffset(c.Index(r.job.sn)));
    SlotsUntouched(c, r, CopyByte(c, r, r.job.sn, r.job.frame, r.job.k));
  }

  lemma AdvanceKeeps(c: Config, r: Ring)
    requires c.Valid() && Inv(c, r)
    ensures Inv(c, DoAdvance(c, r))
  {
    match r.job
    case NoJob =>
    case CopyPayload(_, _, _) => CopyKeeps(c, r);
    case StoreFields(_, _, k) => if k < CELLS { FieldKeeps(c, r); } else { CommittedKeeps(c, r); }
  }

  /** A reader that moves touches nothing the others rely on. */
  lemma ReaderMoves(c: Config, r: Ring, id: nat, reader: Reader)
    requires c.Valid() && Inv(c, r)
    requires ReaderInv(c, r.(readers := r.readers[id := reader]), id)
    ensures Inv(c, r.(readers := r.readers[id := reader]))
  {
    var r' := r.(readers := r.readers[id := reader]);
    forall o: nat
      ensures SlotInv(c, r', o)
    {
      assert SlotInv(c, r, o);
    }
    forall u: nat
      ensures ReaderInv(c, r', u)
    {
      assert ReaderInv(c, r, u);
    }
  }

  lemma FirstLoadKeeps(c: Config, r: Ring, id: nat)
    requires c.Valid() && Inv(c, r) && r.Reader(id).FirstLoad?
    ensures Inv(c, DoAdvanceRead(c, r, id))
  {
    var sn := r.Reader(id).sn;
    var s := r.At(c.SlotOffset(c.Index(sn)));
    assert SlotInv(c, r, c.SlotOffset(c.Index(sn)));
    ReaderMoves(c, r, id, AfterFirst(s, sn));
  }

  lemma FieldLoadKeeps(c: Config, r: Ring, id: nat)
    requires c.Valid() && Inv(c, r) && r.Reader(id).Reading?
    ensures Inv(c, DoAdvanceRead(c, r, id))
  {
    var Reading(sn, first, got) := r.Reader(id);
    var s := r.At(c.SlotOffset(c.Index(sn)));
    assert SlotInv(c, r, c.SlotOffset(c.Index(sn))) && ReaderInv(c, r, id);
    if |got| == CELLS && s.word == first { assert got == s.cells; }
    ReaderMoves(c, r, id, AfterField(c, s, sn, first, got));
  }

  lemma SecondLoadKeeps(c: Config, r: Ring, id: nat)
    requires c.Valid() && Inv(c, r) && r.Reader(id).SecondLoad?
    ensures Inv(c, DoAdvanceRead(c, r, id))
  {
    var SecondLoad(sn, first, view) := r.Reader(id);
    var s := r.At(c.SlotOffset(c.Index(sn)));
    assert SlotInv(c, r, c.SlotOffset(c.Index(sn))) && ReaderInv(c, r, id);
    if s.word == first && first / 2 == sn {
      InterpretFrame(c, sn, r.published[sn]);
    }
    ReaderMoves(c, r, id, AfterSecond(s, sn, first, view));
  }

  lemma ReadKeeps(c: Config, r: Ring, id: nat)
    requires c.Valid() && Inv(c, r)
    ensures Inv(c, DoAdvanceRead(c, r, id))
  {
    assert ReaderInv(c, r, id);
    match r.Reader(id)
    case FirstLoad(_) => FirstLoadKeeps(c, r, id);
    case Reading(_, _, _) => FieldLoadKeeps(c, r, id);
    case SecondLoad(_, _, _) => SecondLoadKeeps(c, r, id);
    case Resting => ReaderMoves(c, r, id, Resting);
    case Finished(_, _) => ReaderMoves(c, r, id, r.Reader(id));
  }

  lemma WriteClaimKeeps(c: Config, r: Ring, sn: nat, k: nat, byte: int)
    requires c.Valid() && Inv(c, r)
    ensures Inv(c, DoWriteClaim(c, r, sn, k, byte))
  {
    SlotsUntouched(c, r, DoWriteClaim(c, r, sn, k, byte));
  }

  lemma StartReadKeeps(c: Config, r: Ring, id: nat, sn: nat)
    requires c.Valid() && Inv(c, r)
    ensures Inv(c, DoStartRead(r, id, sn))
  {
    ReaderMoves(c, r, id, FirstLoad(sn));
  }

  /** The state after a step, named by the action's own function. */
  lemma StepIs(c: Config, r: Ring, a: Action, r': Ring)
    requires c.Valid() && r' == Step(c, r, a)
    ensures a.Offer? ==> r' == DoOffer(c, r, a.tensor, a.payload, a.timestamp, a.metaVersion)
    ensures a.TryClaim? ==> r' == DoTryClaim(c, r, a.length)
    ensures a.WriteClaim? ==> r' == DoWriteClaim(c, r, a.sn, a.k, a.byte)
    ensures a.Commit? ==>
              r' == if a.sn in r.claims then DoCommit(c, r, a.sn, r.claims[a.sn], a.tensor, a.timestamp, a.metaVersion)
                    else r
    ensures a.Advance? ==> r' == DoAdvance(c, r)
    ensures a.StartRead? ==> r' == DoStartRead(r, a.reader, a.sn)
    ensures a.AdvanceRead? ==> r' == DoAdvanceRead(c, r, a.reader)
  {
  }

  lemma ActionKeeps(c: Config, r: Ring, a: Action, r': Ring)
    requires c.Valid() && Inv(c, r) && r.nextSeq + 1 < U64 / 2 && !a.CommitAgain? && r' == Step(c, r, a)
    ensures Inv(c, r')
  {
    StepIs(c, r, a, r');
    if a.Offer? { OfferKeeps(c, r, a.tensor, a.payload, a.timestamp, a.metaVersion); }
    else if a.TryClaim? { ClaimKeeps(c, r, a.length); }
    else if a.WriteClaim? { WriteClaimKeeps(c, r, a.sn, a.k, a.byte); }
    else if a.Commit? { if a.sn in r.claims { CommitKeeps(c, r, a.sn, a.tensor, a.timestamp, a.metaVersion); } }
    else if a.Advance? { AdvanceKeeps(c, r); }
    else if a.StartRead? { StartReadKeeps(c, r, a.reader, a.sn); }
    else { ReadKeeps(c, r, a.reader); }
  }

  /** Every single store, load and call keeps the invariant. */
  lemma StepKeeps(c: Config, r: Ring, a: Action)
    requires c.Valid() && Inv(c, r) && r.nextSeq + 1 < U64 / 2 && !a.CommitAgain?
    ensures Inv(c, Step(c, r, a))
  {
    ActionKeeps(c, r, a, Step(c, r, a));
  }

  /** A step spends at most one sequence number. */
  lemma SpendsOne(c: Config, r: Ring, a: Action)
    requires c.Valid()
    ensures r.nextSeq <= Step(c, r, a).nextSeq <= r.nextSeq + 1
  {
    match a
    case Offer(tensor, payload, timestamp, metaVersion) =>
        var _ := DoOffer(c, r, tensor, payload, timestamp, metaVersion);
    case Commit(_, _, _, _) =>
    case CommitAgain(_, _, _, _) =>
    case Advance => AdvanceSpendsNone(c, r);
    case _ =>
  }

  lemma AdvanceSpendsNone(c: Config, r: Ring)
    requires c.Valid()
    ensures DoAdvance(c, r).nextSeq == r.nextSeq
  {
    if r.job.StoreFields? { assert StoreField(c, r, r.job.sn, r.job.frame, r.job.k).nextSeq == r.nextSeq; }
  }

  lemma {:induction false} RunKeeps(c: Config, s: Schedule)
    requires c.Valid() && PublishesOnce(s)
    ensures Inv(c, Run(c, s)) && Run(c, s).nextSeq <= |s|
    decreases |s|
  {
    if s == [] {
      EmptyOk(c);
    } else {
      var before := Run(c, s[..|s| - 1]);
      RunKeeps(c, s[..|s| - 1]);
      StepKeeps(c, before, s[|s| - 1]);
      SpendsOne(c, before, s[|s| - 1]);
    }
  }

  lemma EmptyOk(c: Config)
    requires c.Valid()
    ensures Inv(c, Empty)
  {
  }

  /**
    No torn reads. Whatever the interleaving, if a read of sequence number sn succeeds then sn was
    published and committed, and every field and the tensor header it returns are exactly those of
    that publication: never a mix, never another lap's.
   */
  lemma NoTornRead(c: Config, s: Schedule, id: nat)
    requires c.Valid() && PublishesOnce(s)
    requires Run(c, s).Reader(id).Finished? && Run(c, s).Reader(id).result.Got?
    ensures var r := Run(c, s);
      var Finished(sn, result) := r.Reader(id);
      && sn in r.done && sn in r.published && r.published[sn].pool < |c.pools|
      && result.view == ViewOf(c, sn, r.published[sn])
  {
    RunKeeps(c, s);
    assert ReaderInv(c, Run(c, s), id);
  }
}
