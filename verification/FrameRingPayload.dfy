/** The payload under the commit word: intact at the verdict of a successful read, and alone in its slot. */
module FrameRingPayload {
  import opened Bits
  import opened Options
  import opened Tensor
  import opened FrameRing
  import opened FrameRingSafety

  // ---- Addresses ----

  /** Slots i and j of a region addressed by a 32-bit product share no byte. */
  predicate Apart(stride: nat, i: nat, j: nat) {
    var a, b := (i * stride) % U32, (j * stride) % U32;
    a + stride <= b || b + stride <= a
  }

  lemma InnerProduct(stride: nat, i: nat, n: nat)
    requires i < n
    ensures i * stride <= (n - 1) * stride && (i + 1) * stride == i * stride + stride
  {
    if stride > 0 && i < n - 1 { MulStep(stride, i, n - 1); }
    assert stride * i == i * stride && stride * (n - 1) == (n - 1) * stride;
  }

  /** The first slot whose product leaves 32 bits. */
  lemma FirstWrapped(stride: nat, n: nat) returns (w: nat)
    requires 0 < stride < U32 && n > 0 && (n - 1) * stride >= U32
    ensures 0 < w < n && U32 <= w * stride < U32 + stride
  {
    w := n - 1;
    while w * stride >= U32 + stride
      invariant 0 < w < n && w * stride >= U32
    {
      InnerProduct(stride, w - 1, n);
      w := w - 1;
    }
  }

  /** Slots are pairwise apart exactly when no product wraps: the first one that does lands on slot 0. */
  lemma SlotsApartIffProductFits(stride: nat, n: nat)
    requires 0 < stride < U32 && n > 0
    ensures (forall i: nat, j: nat :: i < j < n ==> Apart(stride, i, j)) <==> (n - 1) * stride < U32
  {
    if (n - 1) * stride < U32 {
      forall i: nat, j: nat | i < j < n
        ensures Apart(stride, i, j)
      {
        ApartInRange(stride, i, j, n);
      }
    } else {
      var w := FirstWrapped(stride, n);
      WrappedOntoFirst(stride, w);
    }
  }

  lemma ApartInRange(stride: nat, i: nat, j: nat, n: nat)
    requires i < j < n && (n - 1) * stride < U32
    ensures Apart(stride, i, j) && i * stride + stride <= j * stride
  {
    InnerProduct(stride, i, j);
    InnerProduct(stride, i, n);
    InnerProduct(stride, j, n);
    InnerProduct(stride, j - 1, n);
    assert i * stride >= 0;
    Bits.InRange(i * stride, U32);
    Bits.InRange(j * stride, U32);
  }

  lemma WrappedOntoFirst(stride: nat, w: nat)
    requires 0 < w && U32 <= w * stride < U32 + stride <= 2 * U32
    ensures (w * stride) % U32 == w * stride - U32 && !Apart(stride, 0, w)
  {
    DivModUnique(w * stride, U32, 1, w * stride - U32);
    assert 0 * stride == 0;
  }

  /** A payload slot lies at its exact address exactly when its product fits. */
  lemma PayloadSlotAddress(c: Config, pool: nat, index: nat)
    requires c.Valid() && pool < |c.pools| && index < c.nslots
    ensures var product := index * c.pools[pool].stride;
      c.PayloadOffset(pool, index) == SUPERBLOCK_BYTES + product <==> product < U32
  {
    var product := index * c.pools[pool].stride;
    assert product >= 0;
    if product < U32 { Bits.InRange(product, U32); }
  }

  /** Distinct payload slots of a pool share no byte, exactly when the product of the last one fits. */
  lemma PayloadSlotsDisjointIffProductFits(c: Config, pool: nat)
    requires c.Valid() && pool < |c.pools| && c.pools[pool].stride > 0
    ensures (forall i: nat, j: nat :: i < j < c.nslots ==> Apart(c.pools[pool].stride, i, j))
       <==> (c.nslots - 1) * c.pools[pool].stride < U32
    ensures forall i: nat, j: nat :: Apart(c.pools[pool].stride, i, j) <==>
              || c.PayloadOffset(pool, i) + c.pools[pool].stride <= c.PayloadOffset(pool, j)
              || c.PayloadOffset(pool, j) + c.pools[pool].stride <= c.PayloadOffset(pool, i)
  {
    SlotsApartIffProductFits(c.pools[pool].stride, c.nslots);
  }

  /** The same for the header slots: a ring of up to 2^24 slots, and no larger one, has them apart. */
  lemma HeaderSlotsDisjointIffRingFits(c: Config)
    requires c.Valid()
    ensures (forall i: nat, j: nat :: i < j < c.nslots ==> Apart(HEADER_SLOT_BYTES, i, j)) <==> c.nslots <= 0x100_0000
    ensures forall i: nat, j: nat :: Apart(HEADER_SLOT_BYTES, i, j) <==>
              || c.SlotOffset(i) + HEADER_SLOT_BYTES <= c.SlotOffset(j)
              || c.SlotOffset(j) + HEADER_SLOT_BYTES <= c.SlotOffset(i)
  {
    SlotsApartIffProductFits(HEADER_SLOT_BYTES, c.nslots);
  }

  /** For instance 8192 slots of a mebibyte, which attaching accepts: slots 0 and 4096 start at the same byte. */
  lemma PayloadSlotsCoincide(c: Config)
    requires c == Config(0x2000, [Pool(1, 0x10_0000)])
    ensures c.Valid() && !c.AddressesFit() && c.PayloadOffset(0, 0) == c.PayloadOffset(0, 4096)
  {
    assert c.Valid() by { RingOf8192(); }
    assert (c.nslots - 1) * c.pools[0].stride >= U32;
    DivModUnique(4096 * 0x10_0000, U32, 1, 0);
    Bits.InRange(0 * 0x10_0000, U32);
  }

  lemma RingOf8192()
    ensures IsPowerOfTwo(0x2000)
  {
    assert Pow2(6) == 64 && Pow2(7) == 128;
    Pow2Add(6, 7);
    PowerOfTwoIs(13);
    PowerOfTwoTest(0x2000);
  }

  /** Two bytes inside distinct slots have distinct addresses. */
  lemma PayloadBytesDistinct(c: Config, pool: nat, i: nat, j: nat, k: nat, l: nat)
    requires c.Valid() && c.AddressesFit() && pool < |c.pools| && i < c.nslots && j < c.nslots && i != j
    requires k < c.pools[pool].stride && l < c.pools[pool].stride
    ensures c.PayloadOffset(pool, i) + k != c.PayloadOffset(pool, j) + l
  {
    var stride := c.pools[pool].stride;
    if i < j { ApartInRange(stride, i, j, c.nslots); } else { ApartInRange(stride, j, i, c.nslots); }
  }

  // ---- The discipline ----

  /** A sequence number is spent only while every open claim is less than a lap behind it. */
  ghost predicate Disciplined(c: Config, r: Ring, a: Action) {
    (a.Offer? || a.TryClaim?) ==> forall s :: s in r.claims ==> r.nextSeq < s + c.nslots
  }

  ghost predicate DisciplinedRun(c: Config, s: Schedule)
    requires c.Valid()
  {
    forall k :: 0 <= k < |s| ==> Disciplined(c, Run(c, s[..k]), s[k])
  }

  // ---- The invariant ----

  ghost predicate Intact(c: Config, r: Ring, sn: nat, f: Frame, upTo: nat)
    requires c.Valid()
  {
    && f.pool < |c.pools| && upTo <= |f.payload|
    && forall j :: 0 <= j < upTo ==> r.Byte(f.pool, c.PayloadOffset(f.pool, c.Index(sn)) + j) == f.payload[j]
  }

  ghost predicate SlotPayload(c: Config, r: Ring, offset: nat)
    requires c.Valid()
  {
    var w := r.At(offset).word;
    w % 2 == 1 ==>
      && w / 2 in r.published
      && Intact(c, r, w / 2, r.published[w / 2], |r.published[w / 2].payload|)
      && forall s :: s in r.claims ==> c.Index(s) != c.Index(w / 2)
  }

  ghost predicate PayloadInv(c: Config, r: Ring)
    requires c.Valid()
  {
    && (forall s :: s in r.claims ==> r.nextSeq <= s + c.nslots)
    && (!r.job.NoJob? ==> r.nextSeq <= r.job.sn + c.nslots)
    && (r.job.CopyPayload? ==> r.job.k <= |r.job.frame.payload| && Intact(c, r, r.job.sn, r.job.frame, r.job.k))
    && (r.job.StoreFields? ==> Intact(c, r, r.job.sn, r.job.frame, |r.job.frame.payload|))
    && (forall offset: nat :: SlotPayload(c, r, offset))
  }

  /** Open sequence numbers, all within one lap, have slots of their own. */
  lemma OpenApart(c: Config, n: nat, s: nat, t: nat)
    requires c.Valid() && s != t && s < n && t < n && n <= s + c.nslots && n <= t + c.nslots
    ensures c.Index(s) != c.Index(t)
  {
    if c.Index(s) == c.Index(t) {
      if s < t { ResidueGap(s, t, c.nslots); } else { ResidueGap(t, s, c.nslots); }
    }
  }

  /** A byte written inside one payload slot leaves a frame in another slot intact. */
  lemma OthersIntact(c: Config, r: Ring, pool: nat, index: nat, k: nat, byte: int, sn: nat, f: Frame, upTo: nat)
    requires c.Valid() && c.AddressesFit() && pool < |c.pools| && index < c.nslots && k < c.pools[pool].stride
    requires Intact(c, r, sn, f, upTo) && f.pool < |c.pools| && |f.payload| <= c.pools[f.pool].stride
    requires c.Index(sn) != index
    ensures Intact(c, r.(memory := r.memory[(pool, c.PayloadOffset(pool, index) + k) := byte]), sn, f, upTo)
  {
    var r' := r.(memory := r.memory[(pool, c.PayloadOffset(pool, index) + k) := byte]);
    forall j | 0 <= j < upTo
      ensures r'.Byte(f.pool, c.PayloadOffset(f.pool, c.Index(sn)) + j) == f.payload[j]
    {
      if f.pool == pool { PayloadBytesDistinct(c, pool, index, c.Index(sn), k, j); }
    }
  }

  /** Writing inside the slot of an open sequence number leaves every committed frame intact. */
  lemma OpenWriteKeeps(c: Config, r: Ring, r': Ring, open: nat, pool: nat, k: nat, byte: int)
    requires c.Valid() && c.AddressesFit() && Inv(c, r) && PayloadInv(c, r)
    requires open in r.claims || (!r.job.NoJob? && r.job.sn == open)
    requires pool < |c.pools| && k < c.pools[pool].stride
    requires r'.memory == r.memory[(pool, c.PayloadOffset(pool, c.Index(open)) + k) := byte]
    requires r'.slots == r.slots && r'.published == r.published && r'.claims == r.claims
    ensures forall offset: nat :: SlotPayload(c, r', offset)
  {
    forall offset: nat
      ensures SlotPayload(c, r', offset)
    {
      assert SlotPayload(c, r, offset) && SlotInv(c, r, offset);
      var w := r.At(offset).word;
      if w % 2 == 1 {
        var v := w / 2;
        assert c.Index(open) != c.Index(v);
        OthersIntact(c, r, pool, c.Index(open), k, byte, v, r.published[v], |r.published[v].payload|);
        IntactSame(c, r.(memory := r'.memory), r', v, r.published[v], |r.published[v].payload|);
      }
    }
  }

  lemma IntactSame(c: Config, r: Ring, r': Ring, sn: nat, f: Frame, upTo: nat)
    requires c.Valid() && r'.memory == r.memory && Intact(c, r, sn, f, upTo)
    ensures Intact(c, r', sn, f, upTo)
  {
    forall j | 0 <= j < upTo
      ensures r'.Byte(f.pool, c.PayloadOffset(f.pool, c.Index(sn)) + j) == f.payload[j]
    {
      assert r.Byte(f.pool, c.PayloadOffset(f.pool, c.Index(sn)) + j) == f.payload[j];
    }
  }

  lemma WriteClaimPayload(c: Config, r: Ring, sn: nat, k: nat, byte: int)
    requires c.Valid() && c.AddressesFit() && Inv(c, r) && PayloadInv(c, r)
    ensures PayloadInv(c, DoWriteClaim(c, r, sn, k, byte))
  {
    var r' := DoWriteClaim(c, r, sn, k, byte);
    if sn in r.claims && k < r.claims[sn].length {
      var p := r.claims[sn].pool;
      OpenWriteKeeps(c, r, r', sn, p, k, byte);
      if !r.job.NoJob? {
        OpenApart(c, r.nextSeq, sn, r.job.sn);
        OthersIntact(c, r, p, c.Index(sn), k, byte, r.job.sn, r.job.frame,
                     if r.job.CopyPayload? then r.job.k else |r.job.frame.payload|);
      }
    }
  }

  lemma CopyBytePayload(c: Config, r: Ring)
    requires c.Valid() && c.AddressesFit() && Inv(c, r) && PayloadInv(c, r) && r.job.CopyPayload?
    ensures PayloadInv(c, CopyByte(c, r, r.job.sn, r.job.frame, r.job.k))
  {
    var CopyPayload(sn, f, k) := r.job;
    var r' := CopyByte(c, r, sn, f, k);
    if k < |f.payload| {
      OpenWriteKeeps(c, r, r', sn, f.pool, k, f.payload[k]);
      OneByteMore(c, r, r', sn, f, k);
    } else {
      SameMemory(c, r, r');
      IntactSame(c, r, r', sn, f, k);
    }
  }

  lemma OneByteMore(c: Config, r: Ring, r': Ring, sn: nat, f: Frame, k: nat)
    requires c.Valid() && Intact(c, r, sn, f, k) && k < |f.payload|
    requires r'.memory == r.memory[(f.pool, c.PayloadOffset(f.pool, c.Index(sn)) + k) := f.payload[k]]
    ensures Intact(c, r', sn, f, k + 1)
  {
    var address := c.PayloadOffset(f.pool, c.Index(sn));
    forall j | 0 <= j < k + 1
      ensures r'.Byte(f.pool, address + j) == f.payload[j]
    {
      if j < k { assert r.Byte(f.pool, address + j) == f.payload[j]; }
    }
  }

  lemma SameMemory(c: Config, r: Ring, r': Ring)
    requires c.Valid() && PayloadInv(c, r)
    requires r'.memory == r.memory && r'.slots == r.slots && r'.published == r.published
    requires forall s :: s in r'.claims ==> s in r.claims
    ensures forall offset: nat :: SlotPayload(c, r', offset)
  {
    forall offset: nat
      ensures SlotPayload(c, r', offset)
    {
      assert SlotPayload(c, r, offset);
      var w := r.At(offset).word;
      if w % 2 == 1 { IntactSame(c, r, r', w / 2, r.published[w / 2], |r.published[w / 2].payload|); }
    }
  }

  /** Marking the slot of a new open sequence number takes away whatever frame shared its index. */
  lemma MarkPayload(c: Config, r: Ring, r': Ring, sn: nat)
    requires c.Valid() && Inv(c, r) && PayloadInv(c, r) && Marks(c, r, r', sn) && sn !in r.published
    requires r'.memory == r.memory && (forall s :: s in r'.claims ==> s in r.claims || s == sn)
    ensures forall offset: nat :: SlotPayload(c, r', offset)
  {
    forall offset: nat
      ensures SlotPayload(c, r', offset)
    {
      assert SlotPayload(c, r, offset) && SlotInv(c, r, offset);
      var w := r'.At(offset).word;
      if w % 2 == 1 {
        assert r'.At(offset) == r.At(offset);
        IntactSame(c, r, r', w / 2, r.published[w / 2], |r.published[w / 2].payload|);
      }
    }
  }

  lemma BeginPayload(c: Config, r: Ring, sn: nat, f: Frame, copy: bool)
    requires c.Valid() && Inv(c, r) && PayloadInv(c, r) && FrameOk(c, f)
    requires sn < r.nextSeq <= sn + c.nslots && sn !in r.published && (copy || Intact(c, r, sn, f, |f.payload|))
    ensures PayloadInv(c, Begin(c, r, sn, f, copy))
  {
    var r' := Begin(c, r, sn, f, copy);
    InRange(sn, U64);
    MarkPayload(c, r, r', sn);
    if !copy { IntactSame(c, r, r', sn, f, |f.payload|); }
  }

  lemma PreparedPayload(c: Config, r: Ring, f: Frame)
    requires c.Valid() && Inv(c, r) && PayloadInv(c, r) && r.nextSeq + 1 < U64 / 2 && FrameOk(c, f)
    requires forall s :: s in r.claims ==> r.nextSeq < s + c.nslots
    requires r.job.NoJob?
    ensures PayloadInv(c, Begin(c, r.(nextSeq := r.nextSeq + 1), r.nextSeq, f, true))
  {
    var next := r.(nextSeq := r.nextSeq + 1);
    SameMemory(c, r, next);
    SpendKeeps(c, r);
    BeginPayload(c, next, r.nextSeq, f, true);
  }

  lemma OfferPayload(c: Config, r: Ring, tensor: Header, payload: seq<int>, timestamp: nat, metaVersion: nat)
    requires c.Valid() && Inv(c, r) && PayloadInv(c, r) && r.nextSeq + 1 < U64 / 2
    requires forall s :: s in r.claims ==> r.nextSeq < s + c.nslots
    ensures PayloadInv(c, DoOffer(c, r, tensor, payload, timestamp, metaVersion))
  {
    if r.job.NoJob? && WireHeader(tensor) {
      var next, r' := r.(nextSeq := r.nextSeq + 1), DoOffer(c, r, tensor, payload, timestamp, metaVersion);
      match BestPool(c.pools, |payload|, |c.pools|)
      case None =>
      case Some(pool) =>
        match Prepare(tensor)
        case None =>
          assert r' == next;
          SameMemory(c, r, next);
        case Some(h) =>
          var f := Frame(h, payload, pool, timestamp, metaVersion);
          OfferIntoIsBegin(c, r, pool, tensor, h, payload, timestamp, metaVersion);
          PreparedFrameOk(c, tensor, h, payload, pool, timestamp, metaVersion);
          PreparedPayload(c, r, f);
    }
  }

  lemma TryClaimPayload(c: Config, r: Ring, length: nat)
    requires c.Valid() && Inv(c, r) && PayloadInv(c, r) && r.nextSeq + 1 < U64 / 2
    requires forall s :: s in r.claims ==> r.nextSeq < s + c.nslots
    ensures PayloadInv(c, DoTryClaim(c, r, length))
  {
    if r.job.NoJob? && BestPool(c.pools, length, |c.pools|).Some? {
      InRange(r.nextSeq, U64);
      MarkPayload(c, r, DoTryClaim(c, r, length), r.nextSeq);
    }
  }

  lemma ClaimedIsIntact(c: Config, r: Ring, sn: nat, claim: Claim, f: Frame)
    requires c.Valid() && claim.pool < |c.pools| && f.pool == claim.pool && f.payload == ClaimedBytes(c, r, sn, claim)
    ensures Intact(c, r, sn, f, |f.payload|)
  {
  }

  lemma CommitPayload(c: Config, r: Ring, sn: nat, tensor: Header, timestamp: nat, metaVersion: nat)
    requires c.Valid() && Inv(c, r) && PayloadInv(c, r) && sn in r.claims
    ensures PayloadInv(c, DoCommit(c, r, sn, r.claims[sn], tensor, timestamp, metaVersion))
  {
    var claim := r.claims[sn];
    if r.job.NoJob? && WireHeader(tensor) && Prepare(tensor).Some? {
      PreparedIsSettled(tensor);
      var f := Frame(Prepare(tensor).value, ClaimedBytes(c, r, sn, claim), claim.pool, timestamp, metaVersion);
      var unclaimed := r.(claims := r.claims - {sn});
      SlotsUntouched(c, r, unclaimed);
      SameMemory(c, r, unclaimed);
      ClaimedIsIntact(c, r, sn, claim, f);
      IntactSame(c, r, unclaimed, sn, f, |f.payload|);
      BeginPayload(c, unclaimed, sn, f, false);
      CommitIsBegin(c, r, sn, claim, tensor, timestamp, metaVersion, f);
    }
  }

  lemma CommitIsBegin(c: Config, r: Ring, sn: nat, claim: Claim, tensor: Header, timestamp: nat, metaVersion: nat,
      f: Frame)
    requires c.Valid() && r.job.NoJob? && claim.pool < |c.pools| && WireHeader(tensor) && Prepare(tensor).Some?
    requires f == Frame(Prepare(tensor).value, ClaimedBytes(c, r, sn, claim), claim.pool, timestamp, metaVersion)
    ensures DoCommit(c, r, sn, claim, tensor, timestamp, metaVersion) ==
          Begin(c, r.(claims := r.claims - {sn}), sn, f, false)
  {
  }

  /** A frame whose committing store comes last is intact and has no open claim in its payload slot. */
  lemma CommittedPayload(c: Config, r: Ring, r': Ring, offset: nat)
    requires c.Valid() && Inv(c, r) && PayloadInv(c, r) && r.job.StoreFields? && r.job.k == CELLS
    requires r' == StoreField(c, r, r.job.sn, r.job.frame, r.job.k) && offset == c.SlotOffset(c.Index(r.job.sn))
    ensures SlotPayload(c, r', offset)
  {
    var sn, f := r.job.sn, r.job.frame;
    InRange(sn, U64);
    IntactSame(c, r, r', sn, f, |f.payload|);
    forall s | s in r.claims
      ensures c.Index(s) != c.Index(sn)
    {
      OpenApart(c, r.nextSeq, s, sn);
    }
  }

  lemma StoreFieldPayload(c: Config, r: Ring)
    requires c.Valid() && Inv(c, r) && PayloadInv(c, r) && r.job.StoreFields?
    ensures PayloadInv(c, StoreField(c, r, r.job.sn, r.job.frame, r.job.k))
  {
    var StoreFields(sn, f, k) := r.job;
    var r' := StoreField(c, r, sn, f, k);
    IntactSame(c, r, r', sn, f, |f.payload|);
    forall o: nat
      ensures SlotPayload(c, r', o)
    {
      StoredSlotPayload(c, r, o);
    }
  }

  lemma StoredSlotPayload(c: Config, r: Ring, o: nat)
    requires c.Valid() && Inv(c, r) && PayloadInv(c, r) && r.job.StoreFields?
    ensures SlotPayload(c, StoreField(c, r, r.job.sn, r.job.frame, r.job.k), o)
  {
    var StoreFields(sn, f, k) := r.job;
    var r' := StoreField(c, r, sn, f, k);
    assert SlotInv(c, r, c.SlotOffset(c.Index(sn))) && SlotPayload(c, r, o);
    var w := r.At(o).word;
    if o == c.SlotOffset(c.Index(sn)) {
      if k == CELLS { CommittedPayload(c, r, r', o); }
    } else if w % 2 == 1 {
      IntactSame(c, r, r', w / 2, r.published[w / 2], |r.published[w / 2].payload|);
    }
  }

  lemma StepPayload(c: Config, r: Ring, a: Action)
    requires c.Valid() && c.AddressesFit() && Inv(c, r) && PayloadInv(c, r) && r.nextSeq + 1 < U64 / 2
    requires !a.CommitAgain? && Disciplined(c, r, a)
    ensures PayloadInv(c, Step(c, r, a))
  {
    match a
    case Offer(tensor, payload, timestamp, metaVersion) => OfferPayload(c, r, tensor, payload, timestamp, metaVersion);
    case TryClaim(length) => TryClaimPayload(c, r, length);
    case WriteClaim(sn, k, byte) => WriteClaimPayload(c, r, sn, k, byte);
    case Commit(sn, tensor, timestamp, metaVersion) =>
      if sn in r.claims { CommitPayload(c, r, sn, tensor, timestamp, metaVersion); }
    case Advance =>
      if r.job.CopyPayload? { CopyBytePayload(c, r); } else if r.job.StoreFields? { StoreFieldPayload(c, r); }
    case StartRead(_, _) => ReadersOnly(c, r, Step(c, r, a));
    case AdvanceRead(_) => ReadersOnly(c, r, Step(c, r, a));
  }

  lemma ReadersOnly(c: Config, r: Ring, r': Ring)
    requires c.Valid() && PayloadInv(c, r) && r' == r.(readers := r'.readers)
    ensures PayloadInv(c, r')
  {
    SameMemory(c, r, r');
    if !r.job.NoJob? {
      IntactSame(c, r, r', r.job.sn, r.job.frame, if r.job.CopyPayload? then r.job.k else |r.job.frame.payload|);
    }
  }

  lemma {:induction false} RunPayload(c: Config, s: Schedule)
    requires c.Valid() && c.AddressesFit() && PublishesOnce(s) && DisciplinedRun(c, s)
    ensures PayloadInv(c, Run(c, s))
    decreases |s|
  {
    if s != [] {
      var p := s[..|s| - 1];
      assert forall k :: 0 <= k < |p| ==> p[..k] == s[..k];
      RunPayload(c, p);
      RunKeeps(c, p);
      StepPayload(c, Run(c, p), s[|s| - 1]);
    }
  }

  /** The next load of reader id is the one that lets its read succeed. */
  ghost predicate AboutToSucceed(c: Config, r: Ring, id: nat)
    requires c.Valid()
  {
    && r.Reader(id).SecondLoad?
    && var SecondLoad(sn, first, view) := r.Reader(id);
       AfterSecond(r.At(c.SlotOffset(c.Index(sn))), sn, first, view) == Finished(sn, Got(view))
  }

  lemma VerdictView(c: Config, r: Ring, id: nat)
    requires c.Valid() && Inv(c, r) && AboutToSucceed(c, r, id)
    ensures var SecondLoad(sn, _, view) := r.Reader(id);
      && r.At(c.SlotOffset(c.Index(sn))).word == 2 * sn + 1
      && sn in r.published && FrameOk(c, r.published[sn]) && view == ViewOf(c, sn, r.published[sn])
  {
    var SecondLoad(sn, first, view) := r.Reader(id);
    assert SlotInv(c, r, c.SlotOffset(c.Index(sn))) && ReaderInv(c, r, id);
    InterpretFrame(c, sn, r.published[sn]);
  }

  /** The payload a view points at is the published one, byte for byte, and lies in the region's slot for it. */
  ghost predicate PayloadOf(c: Config, r: Ring, sn: nat, view: View)
    requires c.Valid()
  {
    && sn in r.published && view.payloadSlot == sn % c.nslots && view.pool < |c.pools|
    && view.payloadLen == |r.published[sn].payload| <= c.pools[view.pool].stride
    && (forall j :: 0 <= j < view.payloadLen ==>
          r.Byte(view.pool, c.PayloadOffset(view.pool, view.payloadSlot) + j) == r.published[sn].payload[j])
    && c.PayloadOffset(view.pool, view.payloadSlot) + view.payloadLen
         <= SUPERBLOCK_BYTES + (view.payloadSlot + 1) * c.pools[view.pool].stride
         <= SUPERBLOCK_BYTES + c.nslots * c.pools[view.pool].stride
  }

  /**
    When the second load of the commit word lets a read succeed, the payload the view points at is,
    byte for byte, the one published under that sequence number, and it lies wholly inside payload
    slot sn mod nslots of its pool, inside the region.
   */
  lemma PayloadIntactAtVerdict(c: Config, s: Schedule, id: nat)
    requires c.Valid() && c.AddressesFit() && PublishesOnce(s) && DisciplinedRun(c, s)
    requires AboutToSucceed(c, Run(c, s), id)
    ensures PayloadOf(c, Run(c, s), Run(c, s).Reader(id).sn, Run(c, s).Reader(id).view)
  {
    RunKeeps(c, s);
    RunPayload(c, s);
    VerdictPayload(c, Run(c, s), id);
  }

  lemma VerdictPayload(c: Config, r: Ring, id: nat)
    requires c.Valid() && c.AddressesFit() && Inv(c, r) && PayloadInv(c, r) && AboutToSucceed(c, r, id)
    ensures PayloadOf(c, r, r.Reader(id).sn, r.Reader(id).view)
  {
    var SecondLoad(sn, first, view) := r.Reader(id);
    VerdictView(c, r, id);
    assert SlotPayload(c, r, c.SlotOffset(c.Index(sn)));
    PayloadSlotBounds(c, view.pool, c.Index(sn));
  }

  lemma PayloadSlotBounds(c: Config, pool: nat, index: nat)
    requires c.Valid() && c.AddressesFit() && pool < |c.pools| && index < c.nslots
    ensures var stride := c.pools[pool].stride;
      c.PayloadOffset(pool, index) + stride
        <= SUPERBLOCK_BYTES + (index + 1) * stride
        <= SUPERBLOCK_BYTES + c.nslots * stride
  {
    var stride := c.pools[pool].stride;
    InnerProduct(stride, index, c.nslots);
    InnerProduct(stride, index, c.nslots + 1);
    InnerProduct(stride, c.nslots - 1, c.nslots);
    assert index * stride >= 0;
    PayloadSlotAddress(c, pool, index);
  }
}
