/**
  Payload slots beyond the reach of a 32-bit product: ordinary publications tear payloads there, and the payload theorem
  holds of exactly the configurations without them.
 */
module FrameRingOverlap {
  import opened Bits
  import opened Options
  import opened Tensor
  import opened FrameRing
  import opened FrameRingSafety
  import opened FrameRingProgress
  import opened Folds
  import opened FrameRingPayload
  import opened FrameRingSchedules

  // ---- Ordinary publications ----

  /** A publication leaves the other slots, and the frames they hold, alone. */
  lemma OthersStand(c: Config, r: Ring, replacing: Frame, sn: nat, f: Frame)
    requires c.Valid() && HoldsFrame(c, r, sn, f) && sn != r.nextSeq
    requires c.SlotOffset(c.Index(sn)) != c.SlotOffset(c.Index(r.nextSeq))
    ensures HoldsFrame(c, PublishFrame(c, r, replacing), sn, f)
  {
    var begun := Begin(c, r.(nextSeq := r.nextSeq + 1), r.nextSeq, replacing, true);
    StoresLeaveSlot(c, begun, |replacing.payload| + 1, r.nextSeq, sn, f);
    StoresLeaveSlot(c, Stores(c, begun, |replacing.payload| + 1), CELLS + 1, r.nextSeq, sn, f);
  }

  lemma StoresLeaveSlot(c: Config, r: Ring, n: nat, open: nat, sn: nat, f: Frame)
    requires c.Valid() && HoldsFrame(c, r, sn, f) && (r.job.NoJob? || r.job.sn == open)
    requires c.SlotOffset(c.Index(sn)) != c.SlotOffset(c.Index(open))
    ensures HoldsFrame(c, Stores(c, r, n), sn, f) && (Stores(c, r, n).job.NoJob? || Stores(c, r, n).job.sn == open)
  {
    ghost var p := (k: nat, y: Ring) => HoldsFrame(c, y, sn, f) && (y.job.NoJob? || y.job.sn == open);
    forall k: nat, y | k < n && p(k, y) ensures p(k + 1, Store(c)(y)) {
      StoreLeavesSlot(c, y, open, sn, f);
    }
    IterateKeeps(Store(c), r, n, p);
  }

  lemma StoreLeavesSlot(c: Config, r: Ring, open: nat, sn: nat, f: Frame)
    requires c.Valid() && HoldsFrame(c, r, sn, f) && (r.job.NoJob? || r.job.sn == open)
    requires c.SlotOffset(c.Index(sn)) != c.SlotOffset(c.Index(open))
    ensures HoldsFrame(c, DoAdvance(c, r), sn, f) && (DoAdvance(c, r).job.NoJob? || DoAdvance(c, r).job.sn == open)
  {
    AdvanceFrame(c, r);
  }

  /** A publication run to its end has its payload in place, whatever else shares those bytes. */
  lemma PublishedBytes(c: Config, r: Ring, sn: nat, f: Frame, j: nat)
    requires c.Valid() && r.job == CopyPayload(sn, f, 0) && f.pool < |c.pools| && j < |f.payload|
    ensures FinishOffer(c, r).Byte(f.pool, c.PayloadOffset(f.pool, c.Index(sn)) + j) == f.payload[j]
  {
    CopiedBytes(c, r, sn, f, j, |f.payload|);
    var r1 := Stores(c, r, |f.payload|);
    assert Stores(c, r, |f.payload| + 1) == DoAdvance(c, r1);
    MemoryKept(c, DoAdvance(c, r1), CELLS + 1);
  }

  lemma CopiedBytes(c: Config, r: Ring, sn: nat, f: Frame, j: nat, n: nat)
    requires c.Valid() && r.job == CopyPayload(sn, f, 0) && f.pool < |c.pools| && n <= |f.payload| && j < |f.payload|
    ensures var r' := Stores(c, r, n);
            && r'.job == CopyPayload(sn, f, n)
            && (j < n ==> r'.Byte(f.pool, c.PayloadOffset(f.pool, c.Index(sn)) + j) == f.payload[j])
  {
    IterateKeeps(Store(c), r, n, (k: nat, y: Ring) =>
      y.job == CopyPayload(sn, f, k) && (j < k ==>
          y.Byte(f.pool, c.PayloadOffset(f.pool, c.Index(sn)) + j) == f.payload[j]));
  }

  lemma MemoryKept(c: Config, r: Ring, n: nat)
    requires c.Valid() && !r.job.CopyPayload?
    ensures Stores(c, r, n).memory == r.memory
  {
    IterateKeeps(Store(c), r, n, (k: nat, y: Ring) => y.memory == r.memory && !y.job.CopyPayload?);
  }

  /** The first frame of a ring stands while other slots are filled. */
  lemma FirstFrameStands(c: Config, f: Frame, n: nat)
    requires c.Valid() && 0 < n < c.nslots && n <= 0x100_0000 && FrameOk(c, f)
    ensures AtRest(c, PublishMany(c, Empty, f, n), n, map[]) && HoldsFrame(c, PublishMany(c, Empty, f, n), 0, f)
  {
    EmptyOk(c);
    ghost var p := (k: nat, y: Ring) => AtRest(c, y, k, map[]) && (k > 0 ==> HoldsFrame(c, y, 0, f));
    forall k: nat, y | k < n && p(k, y) ensures p(k + 1, Publish(c, f)(y)) {
      PublishedFrame(c, y, f, k, map[]);
      if k > 0 {
        SlotsOfZero(c, k);
        OthersStand(c, y, f, 0, f);
      }
    }
    IterateKeeps(Publish(c, f), Empty, n, p);
  }

  lemma SlotsOfZero(c: Config, n: nat)
    requires c.Valid() && 0 < n < c.nslots && n < 0x100_0000
    ensures c.Index(0) == 0 && c.Index(n) == n && c.SlotOffset(0) != c.SlotOffset(n)
  {
    InRange(0, c.nslots);
    InRange(n, c.nslots);
    ApartInRange(HEADER_SLOT_BYTES, 0, n, n + 1);
  }

  lemma WrappedAddress(c: Config, pool: nat, w: nat)
    requires c.Valid() && pool < |c.pools| && 0 < w < c.nslots
    requires var stride := c.pools[pool].stride; U32 <= w * stride < U32 + stride
    ensures c.PayloadOffset(pool, c.Index(w)) == c.PayloadOffset(pool, c.Index(0)) + (w * c.pools[pool].stride - U32)
  {
    InRange(0, c.nslots);
    InRange(w, c.nslots);
    WrappedOntoFirst(c.pools[pool].stride, w);
    InRange(0, U32);
    assert 0 * c.pools[pool].stride == 0;
  }

  /**
    In a pool too large for the 32-bit product, ordinary publications tear a committed frame's payload: after w
    publications of f, where w is the first slot whose product wraps, publishing g overwrites a byte of the first
    frame while its commit word still stands. Up to 2^24 the header slots are all different.
   */
  lemma WrappedSlotTearsPayload(c: Config, f: Frame, g: Frame, w: nat)
    requires c.Valid() && FrameOk(c, f) && FrameOk(c, g) && f.pool == g.pool && 0 < w < c.nslots && w < 0x100_0000
    requires var (stride, at) := (c.pools[f.pool].stride, w * c.pools[f.pool].stride - U32);
             0 <= at < stride && at < |f.payload| && g.payload != [] && f.payload[at] != g.payload[0]
    ensures var (r, at) := (PublishFrame(c, PublishMany(c, Empty, f, w), g), w * c.pools[f.pool].stride - U32);
            && HoldsFrame(c, r, 0, f)
            && r.Byte(f.pool, c.PayloadOffset(f.pool, c.Index(0)) + at) == g.payload[0] != f.payload[at]
  {
    var r := PublishMany(c, Empty, f, w);
    FirstFrameStands(c, f, w);
    SlotsOfZero(c, w);
    OthersStand(c, r, g, 0, f);
    FirstByte(c, r, g);
    WrappedAddress(c, f.pool, w);
  }

  lemma FirstByte(c: Config, r: Ring, g: Frame)
    requires c.Valid() && g.pool < |c.pools| && g.payload != []
    ensures PublishFrame(c, r, g).Byte(g.pool, c.PayloadOffset(g.pool, c.Index(r.nextSeq))) == g.payload[0]
  {
    PublishedBytes(c, Begin(c, r.(nextSeq := r.nextSeq + 1), r.nextSeq, g, true), r.nextSeq, g, 0);
  }

  /** The configuration above has such a slot: 4096, which starts where slot 0 does. */
  lemma WrappedSlotOf8192Mebibytes(c: Config)
    requires c == Config(0x2000, [Pool(1, 0x10_0000)])
    ensures c.Valid() && U32 == 4096 * c.pools[0].stride && BestPool(c.pools, 0x10_0000, 1) == Some(0)
  {
    PayloadSlotsCoincide(c);
    assert BestPool(c.pools, 0x10_0000, 0) == None;
  }

  // ---- The payload theorem holds exactly where the products fit ----

  /** A schedule that keeps the rules, at whose end a read is about to succeed with a payload that was not published. */
  ghost predicate Tears(c: Config, s: Schedule, id: nat)
    requires c.Valid()
  {
    && PublishesOnce(s) && DisciplinedRun(c, s) && AboutToSucceed(c, Run(c, s), id)
    && !PayloadOf(c, Run(c, s), Run(c, s).Reader(id).sn, Run(c, s).Reader(id).view)
  }

  /** A read that has loaded everything but the second commit word. */
  function ReadAllButWord(c: Config, r: Ring, id: nat, sn: nat): Ring
    requires c.Valid()
  {
    Loads(c, Loads(c, Loads(c, DoStartRead(r, id, sn), id, 1), id, CELLS), id, 1)
  }

  lemma LoadsKeep(c: Config, r: Ring, id: nat, n: nat)
    requires c.Valid()
    ensures Loads(c, r, id, n) == r.(readers := Loads(c, r, id, n).readers)
  {
    IterateKeeps(Load(c, id), r, n, (k: nat, y: Ring) => y == r.(readers := y.readers));
  }

  lemma ReadStops(c: Config, r: Ring, id: nat, sn: nat, f: Frame)
    requires c.Valid() && HoldsFrame(c, r, sn, f) && Validate(f.tensor).0
    ensures var r' := ReadAllButWord(c, r, id, sn);
            r' == r.(readers := r'.readers) && r'.Reader(id) == SecondLoad(sn, 2 * sn + 1, ViewOf(c, sn, f))
  {
    AllFieldsLoaded(c, r, id, sn, f);
    FieldsJudged(c, Loads(c, Loads(c, DoStartRead(r, id, sn), id, 1), id, CELLS), id, sn, f);
  }

  lemma AllFieldsLoaded(c: Config, r: Ring, id: nat, sn: nat, f: Frame)
    requires c.Valid() && HoldsFrame(c, r, sn, f)
    ensures var r' := Loads(c, Loads(c, DoStartRead(r, id, sn), id, 1), id, CELLS);
            r' == r.(readers := r'.readers) && HasRead(r', id, sn, 2 * sn + 1, FrameCells(c, f, c.Index(sn)))
  {
    var cells, start := FrameCells(c, f, c.Index(sn)), DoStartRead(r, id, sn);
    var r1 := Loads(c, start, id, 1);
    FirstLoadSees(c, start, id, sn);
    LoadsKeep(c, start, id, 1);
    InterpretOwnFrame(c, sn, f);
    assert cells[..0] == [] && cells[..CELLS] == cells;
    assert CellsAre(c, r1, sn, cells);
    LoadingFields(c, r1, id, sn, 2 * sn + 1, cells, 0, CELLS, cells);
    LoadsKeep(c, r1, id, CELLS);
  }

  lemma FieldsJudged(c: Config, r: Ring, id: nat, sn: nat, f: Frame)
    requires c.Valid() && FrameOk(c, f) && Validate(f.tensor).0
    requires HasRead(r, id, sn, 2 * sn + 1, FrameCells(c, f, c.Index(sn)))
    ensures Loads(c, r, id, 1) == r.(readers := r.readers[id := SecondLoad(sn, 2 * sn + 1, ViewOf(c, sn, f))])
  {
    InterpretOwnFrame(c, sn, f);
    assert Loads(c, r, id, 1) == DoAdvanceRead(c, Loads(c, r, id, 0), id);
    assert Loads(c, r, id, 0) == r;
  }

  /** A claim, w offers of its size, a byte written into the claim, and a read of the last frame offered. */
  function TearingPrefix(o: Offering, w: nat): Schedule {
    [TryClaim(|o.payload|)] + OffersAlone(o, w)
  }

  function ReadingSteps(id: nat, sn: nat): Schedule {
    [StartRead(id, sn)] + Repeat(AdvanceRead(id), 1) + Repeat(AdvanceRead(id), CELLS) + Repeat(AdvanceRead(id), 1)
  }

  function TearingSchedule(o: Offering, w: nat, at: nat, byte: int): Schedule {
    TearingPrefix(o, w) + WriteThenRead(w, at, byte)
  }

  lemma PrefixRuns(c: Config, o: Offering, w: nat)
    requires c.Valid() && Goes(c, o) && 0 < w < c.nslots
    ensures var (r, f) := (RunFrom(c, Empty, TearingPrefix(o, w)), FrameOf(c, o));
            r.claims == map[0 := Claim(f.pool, |f.payload|)] && HoldsFrame(c, r, w, f)
    ensures DisciplinedFrom(c, Empty, TearingPrefix(o, w))
  {
    var claim, claimed := [TryClaim(|o.payload|)], DoTryClaim(c, Empty, |o.payload|);
    FirstClaim(c, |o.payload|);
    RunOne(c, Empty, claim[0]);
    assert RunFrom(c, Empty, claim) == claimed;
    OffersRun(c, claimed, o, 1, claimed.claims, w);
    RunAppend(c, Empty, claim, OffersAlone(o, w));
    assert claim[..0] == [];
    DisciplinedAppend(c, Empty, claim, OffersAlone(o, w));
  }

  lemma ReadingRuns(c: Config, r: Ring, id: nat, sn: nat)
    requires c.Valid()
    ensures RunFrom(c, r, ReadingSteps(id, sn)) == ReadAllButWord(c, r, id, sn)
  {
    var start, one, fields := [StartRead(id, sn)], Repeat(AdvanceRead(id), 1), Repeat(AdvanceRead(id), CELLS);
    var r1 := Loads(c, DoStartRead(r, id, sn), id, 1);
    RunOne(c, r, start[0]);
    RunAppend(c, r, start, one);
    RunAppend(c, r, start + one, fields);
    RunAppend(c, r, start + one + fields, one);
    RepeatedLoads(c, DoStartRead(r, id, sn), id, 1);
    RepeatedLoads(c, r1, id, CELLS);
    RepeatedLoads(c, Loads(c, r1, id, CELLS), id, 1);
  }

  /** The write and the read after it. */
  function WriteThenRead(w: nat, at: nat, byte: int): Schedule { [WriteClaim(0, at, byte)] + ReadingSteps(0, w) }

  lemma WriteThenReadRuns(c: Config, r: Ring, w: nat, at: nat, byte: int)
    requires c.Valid()
    ensures RunFrom(c, r, WriteThenRead(w, at, byte)) == ReadAllButWord(c, DoWriteClaim(c, r, 0, at, byte), 0, w)
  {
    var write := [WriteClaim(0, at, byte)];
    RunAppend(c, r, write, ReadingSteps(0, w));
    RunOne(c, r, write[0]);
    ReadingRuns(c, DoWriteClaim(c, r, 0, at, byte), 0, w);
  }

  lemma TearingRuns(c: Config, o: Offering, w: nat, at: nat, byte: int)
    requires c.Valid()
    ensures Run(c, TearingSchedule(o, w, at, byte)) ==
            ReadAllButWord(c, DoWriteClaim(c, RunFrom(c, Empty, TearingPrefix(o, w)), 0, at, byte), 0, w)
  {
    RunIsFromEmpty(c, TearingSchedule(o, w, at, byte));
    RunAppend(c, Empty, TearingPrefix(o, w), WriteThenRead(w, at, byte));
    WriteThenReadRuns(c, RunFrom(c, Empty, TearingPrefix(o, w)), w, at, byte);
  }

  lemma TearingDisciplined(c: Config, o: Offering, w: nat, at: nat, byte: int)
    requires c.Valid() && Goes(c, o) && 0 < w < c.nslots
    ensures DisciplinedRun(c, TearingSchedule(o, w, at, byte))
  {
    PrefixRuns(c, o, w);
    SpendingNothing(c, RunFrom(c, Empty, TearingPrefix(o, w)), WriteThenRead(w, at, byte));
    DisciplinedAppend(c, Empty, TearingPrefix(o, w), WriteThenRead(w, at, byte));
    DisciplinedFromEmpty(c, TearingSchedule(o, w, at, byte));
  }

  lemma TearingPublishesOnce(o: Offering, w: nat, at: nat, byte: int)
    requires |TearingSchedule(o, w, at, byte)| < U64 / 2
    ensures PublishesOnce(TearingSchedule(o, w, at, byte))
  {
    BlocksLength(OfferAlone(o), w);
  }

  /** Such a schedule tears the last frame when the claim's byte falls on one of its own. */
  lemma TearingRun(c: Config, o: Offering, w: nat, at: nat, byte: int)
    requires c.Valid() && Goes(c, o) && Validate(Prepare(o.tensor).value).0 && 0 < w < c.nslots
    requires at < |o.payload| && byte != o.payload[0]
    requires c.PayloadOffset(FrameOf(c, o).pool, c.Index(w)) == c.PayloadOffset(FrameOf(c, o).pool, c.Index(0)) + at
    requires |TearingSchedule(o, w, at, byte)| < U64 / 2
    ensures Tears(c, TearingSchedule(o, w, at, byte), 0)
  {
    PrefixRuns(c, o, w);
    TearingRuns(c, o, w, at, byte);
    TearingDisciplined(c, o, w, at, byte);
    TearingPublishesOnce(o, w, at, byte);
    TornRead(c, RunFrom(c, Empty, TearingPrefix(o, w)), w, FrameOf(c, o), at, byte);
  }

  lemma TornRead(c: Config, r: Ring, w: nat, f: Frame, at: nat, byte: int)
    requires c.Valid() && HoldsFrame(c, r, w, f) && Validate(f.tensor).0 && at < |f.payload| && byte != f.payload[0]
    requires 0 in r.claims && r.claims[0] == Claim(f.pool, |f.payload|)
    requires c.PayloadOffset(f.pool, c.Index(w)) == c.PayloadOffset(f.pool, c.Index(0)) + at
    ensures var r' := ReadAllButWord(c, DoWriteClaim(c, r, 0, at, byte), 0, w);
            && AboutToSucceed(c, r', 0) && !PayloadOf(c, r', r'.Reader(0).sn, r'.Reader(0).view)
  {
    var written := DoWriteClaim(c, r, 0, at, byte);
    WrittenByte(c, r, w, f, at, byte);
    ReadStops(c, written, 0, w, f);
    TornVerdict(c, written, ReadAllButWord(c, written, 0, w), w, f, byte);
  }

  lemma WrittenByte(c: Config, r: Ring, w: nat, f: Frame, at: nat, byte: int)
    requires c.Valid() && HoldsFrame(c, r, w, f) && at < |f.payload|
    requires 0 in r.claims && r.claims[0] == Claim(f.pool, |f.payload|)
    requires c.PayloadOffset(f.pool, c.Index(w)) == c.PayloadOffset(f.pool, c.Index(0)) + at
    ensures var r' := DoWriteClaim(c, r, 0, at, byte);
            HoldsFrame(c, r', w, f) && r'.Byte(f.pool, c.PayloadOffset(f.pool, c.Index(w))) == byte
  {
  }

  lemma TornVerdict(c: Config, r: Ring, r': Ring, sn: nat, f: Frame, byte: int)
    requires c.Valid() && HoldsFrame(c, r, sn, f) && f.payload != [] && byte != f.payload[0]
    requires r.Byte(f.pool, c.PayloadOffset(f.pool, c.Index(sn))) == byte
    requires r' == r.(readers := r'.readers) && r'.Reader(0) == SecondLoad(sn, 2 * sn + 1, ViewOf(c, sn, f))
    ensures AboutToSucceed(c, r', 0) && !PayloadOf(c, r', r'.Reader(0).sn, r'.Reader(0).view)
  {
    NotThePayload(c, r', sn, f, byte);
  }

  lemma NotThePayload(c: Config, r: Ring, sn: nat, f: Frame, byte: int)
    requires c.Valid() && HoldsFrame(c, r, sn, f) && f.payload != [] && byte != f.payload[0]
    requires r.Byte(f.pool, c.PayloadOffset(f.pool, c.Index(sn))) == byte
    ensures !PayloadOf(c, r, sn, ViewOf(c, sn, f))
  {
    assert r.Byte(f.pool, c.PayloadOffset(f.pool, sn % c.nslots) + 0) != f.payload[0];
  }

  /** The pool that takes a payload as large as a stride has that stride. */
  lemma StrideIsTaken(c: Config, pool: nat)
    requires c.Valid() && pool < |c.pools|
    ensures var best := BestPool(c.pools, c.pools[pool].stride, |c.pools|);
            best.Some? && best.value < |c.pools| && c.pools[best.value].stride == c.pools[pool].stride
  {
    assert c.pools[..|c.pools|] == c.pools;
  }

  lemma ShortEnough(stride: nat, w: nat)
    requires 0 < w < U32 && w * stride < 2 * U32 && stride < U32
    ensures w * (stride + CELLS + 3) + CELLS + 5 < U64 / 2
  {
    assert w * (stride + CELLS + 3) == w * stride + w * (CELLS + 3);
    assert w * (CELLS + 3) <= U32 * (CELLS + 3);
  }

  lemma PositiveFactor(a: int, b: nat)
    requires a * b > 0
    ensures b > 0
  {
  }

  lemma WrappedPoolTears(c: Config, pool: nat) returns (s: Schedule)
    requires c.Valid() && pool < |c.pools| && (c.nslots - 1) * c.pools[pool].stride >= U32
    ensures Tears(c, s, 0)
  {
    var stride := c.pools[pool].stride;
    StrideIsTaken(c, pool);
    ScalarGoes();
    var o := Offering(SCALAR, seq(stride, _ => 0), 0, 0);
    var f := FrameOf(c, o);
    PositiveFactor(c.nslots - 1, stride);
    var w := FirstWrapped(stride, c.nslots);
    var at := w * stride - U32;
    WrappedAddress(c, f.pool, w);
    BlocksLength(OfferAlone(o), w);
    ShortEnough(stride, w);
    TearingRun(c, o, w, at, 1);
    s := TearingSchedule(o, w, at, 1);
  }

  /**
    The payload a successful read points at is the published one under every schedule that commits each claim once and
    within a lap, if and only if the 32-bit products reach every slot of every pool.
   */
  lemma PayloadsIntactIffProductsFit(c: Config)
    requires c.Valid()
    ensures c.AddressesFit() <==> forall s: Schedule, id: nat :: !Tears(c, s, id)
  {
    if c.AddressesFit() {
      forall s: Schedule, id: nat ensures !Tears(c, s, id) {
        if PublishesOnce(s) && DisciplinedRun(c, s) && AboutToSucceed(c, Run(c, s), id) {
          PayloadIntactAtVerdict(c, s, id);
        }
      }
    } else {
      var pool :| 0 <= pool < |c.pools| && (c.nslots - 1) * c.pools[pool].stride >= U32;
      var s := WrappedPoolTears(c, pool);
    }
  }
}
