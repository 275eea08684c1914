/**
  What the ring delivers: a publication left alone commits its frame, and a read left alone returns it.
 */
module FrameRingProgress {
  import opened Bits
  import opened Options
  import opened Tensor
  import opened FrameRing
  import opened FrameRingSafety
  import TensorAddressing
  import opened Folds

  // ---- Repeated steps ----

  function Store(c: Config): Ring -> Ring
    requires c.Valid()
  {
    r => DoAdvance(c, r)
  }

  function Load(c: Config, id: nat): Ring -> Ring
    requires c.Valid()
  {
    r => DoAdvanceRead(c, r, id)
  }

  /** n stores of the publication under way, with nothing in between. */
  function Stores(c: Config, r: Ring, n: nat): Ring
    requires c.Valid()
  {
    Iterate(Store(c), r, n)
  }

  /** n loads of one reader, with nothing in between. */
  function Loads(c: Config, r: Ring, id: nat, n: nat): Ring
    requires c.Valid()
  {
    Iterate(Load(c, id), r, n)
  }

  // ---- A publication left alone ----

  lemma AdvanceFrame(c: Config, r: Ring)
    requires c.Valid()
    ensures SameBook(r, DoAdvance(c, r))
  {
    match r.job
    case NoJob =>
    case CopyPayload(sn, f, k) => CopyFrame(c, r, sn, f, k);
    case StoreFields(sn, f, k) => StoreFrame(c, r, sn, f, k);
  }

  /** Nothing but shared memory and the publication under way has moved. */
  ghost predicate SameBook(r: Ring, r': Ring) {
    && r'.readers == r.readers && r'.published == r.published && r'.nextSeq == r.nextSeq
    && r'.claims == r.claims && r'.issued == r.issued
  }

  lemma CopyFrame(c: Config, r: Ring, sn: nat, f: Frame, k: nat)
    requires c.Valid()
    ensures SameBook(r, CopyByte(c, r, sn, f, k))
  {
  }

  lemma StoreFrame(c: Config, r: Ring, sn: nat, f: Frame, k: nat)
    requires c.Valid()
    ensures SameBook(r, StoreField(c, r, sn, f, k))
  {
    var offset, r' := c.SlotOffset(c.Index(sn)), StoreField(c, r, sn, f, k);
    if k < CELLS && f.pool < |c.pools| && f.tensor.Shaped() && |r.At(offset).cells| == CELLS {
      assert r' == r.(slots := r'.slots, job := r'.job);
    } else {
      assert r' == r.(slots := r'.slots, job := r'.job, done := r'.done);
    }
  }

  lemma StoresKeep(c: Config, r: Ring, n: nat)
    requires c.Valid() && Inv(c, r)
    ensures Inv(c, Stores(c, r, n))
  {
    ghost var p := (k: nat, y: Ring) => Inv(c, y);
    forall k: nat, y | k < n && p(k, y) ensures p(k + 1, Store(c)(y)) {
      AdvanceKeeps(c, y);
    }
    IterateKeeps(Store(c), r, n, p);
  }

  lemma StoresKeepBook(c: Config, r: Ring, n: nat)
    requires c.Valid()
    ensures SameBook(r, Stores(c, r, n))
  {
    ghost var p := (k: nat, y: Ring) => SameBook(r, y);
    forall k: nat, y | k < n && p(k, y) ensures p(k + 1, Store(c)(y)) {
      AdvanceFrame(c, y);
    }
    IterateKeeps(Store(c), r, n, p);
  }

  lemma Copying(c: Config, r: Ring, sn: nat, f: Frame, n: nat)
    requires c.Valid() && r.job == CopyPayload(sn, f, 0) && f.pool < |c.pools| && n <= |f.payload|
    ensures Stores(c, r, n).job == CopyPayload(sn, f, n)
  {
    IterateKeeps(Store(c), r, n, (k: nat, y: Ring) => y.job == CopyPayload(sn, f, k));
  }

  /** Field k comes next, in a slot that already holds those before it. */
  ghost predicate Storing(c: Config, r: Ring, sn: nat, f: Frame, k: nat)
    requires c.Valid()
  {
    var cells := r.At(c.SlotOffset(c.Index(sn))).cells;
    && r.job == StoreFields(sn, f, k) && f.pool < |c.pools| && f.tensor.Shaped()
    && k <= CELLS == |cells| && cells[..k] == FrameCells(c, f, c.Index(sn))[..k]
  }

  lemma OneStore(c: Config, r: Ring, sn: nat, f: Frame, k: nat)
    requires c.Valid() && Storing(c, r, sn, f, k) && k < CELLS
    ensures Storing(c, DoAdvance(c, r), sn, f, k + 1)
  {
    var all, offset := FrameCells(c, f, c.Index(sn)), c.SlotOffset(c.Index(sn));
    assert DoAdvance(c, r).At(offset).cells == r.At(offset).cells[k := all[k]];
    assert all[..k + 1] == all[..k] + [all[k]];
  }

  lemma LastStore(c: Config, r: Ring, sn: nat, f: Frame)
    requires c.Valid() && Storing(c, r, sn, f, CELLS) && sn < U64 / 2
    ensures DoAdvance(c, r).job.NoJob?
    ensures DoAdvance(c, r).At(c.SlotOffset(c.Index(sn))) == Slot(2 * sn + 1, FrameCells(c, f, c.Index(sn)))
  {
    var all, offset := FrameCells(c, f, c.Index(sn)), c.SlotOffset(c.Index(sn));
    InRange(sn, U64);
    assert r.At(offset).cells[..CELLS] == r.At(offset).cells && all[..CELLS] == all;
  }

  lemma StoringFields(c: Config, r: Ring, sn: nat, f: Frame, n: nat)
    requires c.Valid() && Storing(c, r, sn, f, 0) && n <= CELLS
    ensures Storing(c, Stores(c, r, n), sn, f, n)
  {
    ghost var p := (k: nat, y: Ring) => Storing(c, y, sn, f, k);
    forall k: nat, y | k < n && p(k, y) ensures p(k + 1, Store(c)(y)) {
      OneStore(c, y, sn, f, k);
    }
    IterateKeeps(Store(c), r, n, p);
  }

  /** A slot whose commit word names sn holds sn's published frame. */
  ghost predicate HoldsFrame(c: Config, r: Ring, sn: nat, f: Frame)
    requires c.Valid()
  {
    && FrameOk(c, f) && sn in r.published && r.published[sn] == f
    && r.At(c.SlotOffset(c.Index(sn))) == Slot(2 * sn + 1, FrameCells(c, f, c.Index(sn)))
  }

  lemma FieldsThenCommit(c: Config, r: Ring, sn: nat, f: Frame)
    requires c.Valid() && Storing(c, r, sn, f, 0) && sn < U64 / 2
    ensures var r' := Stores(c, r, CELLS + 1);
            r'.job.NoJob? && r'.At(c.SlotOffset(c.Index(sn))) == Slot(2 * sn + 1, FrameCells(c, f, c.Index(sn)))
  {
    StoringFields(c, r, sn, f, CELLS);
    LastStore(c, Stores(c, r, CELLS), sn, f);
  }

  /** A publication run to its end from where an offer begins it: the payload, then the fields and the commit word. */
  function FinishOffer(c: Config, r: Ring): Ring
    requires c.Valid() && r.job.CopyPayload?
  {
    Stores(c, Stores(c, r, |r.job.frame.payload| + 1), CELLS + 1)
  }

  /** A publication that runs to its end has committed its frame. */
  lemma OfferCommits(c: Config, r: Ring, sn: nat, f: Frame)
    requires c.Valid() && Inv(c, r) && r.job == CopyPayload(sn, f, 0)
    ensures var r' := FinishOffer(c, r);
            && Inv(c, r') && r'.job.NoJob? && HoldsFrame(c, r', sn, f)
            && SameBook(r, r')
  {
    var copied := |f.payload| + 1;
    var r1 := Stores(c, r, copied);
    StoresKeep(c, r, copied);
    CopiedAll(c, r, sn, f);
    assert SlotInv(c, r1, c.SlotOffset(c.Index(sn)));
    FieldsThenCommit(c, r1, sn, f);
    StoresKeep(c, r1, CELLS + 1);
    StoresKeepBook(c, r, copied);
    StoresKeepBook(c, r1, CELLS + 1);
  }

  lemma CopiedAll(c: Config, r: Ring, sn: nat, f: Frame)
    requires c.Valid() && r.job == CopyPayload(sn, f, 0) && f.pool < |c.pools|
    ensures Stores(c, r, |f.payload| + 1).job == StoreFields(sn, f, 0)
  {
    Copying(c, r, sn, f, |f.payload|);
    assert Stores(c, r, |f.payload| + 1) == DoAdvance(c, Stores(c, r, |f.payload|));
  }

  // ---- A read left alone ----

  /** The reader has loaded the commit word and the first k fields of the slot as it stands. */
  predicate HasRead(r: Ring, id: nat, sn: nat, word: nat, got: seq<int>) {
    r.Reader(id) == Reading(sn, word, got)
  }

  lemma LoadsOnlyRead(c: Config, r: Ring, id: nat, n: nat, offset: nat)
    requires c.Valid()
    ensures Loads(c, r, id, n).slots == r.slots && Loads(c, r, id, n).At(offset) == r.At(offset)
  {
    IterateKeeps(Load(c, id), r, n, (k: nat, y: Ring) => y.slots == r.slots);
  }

  /** The slot of a sequence number has these cells. */
  predicate CellsAre(c: Config, r: Ring, sn: nat, cells: seq<int>)
    requires c.Valid()
  {
    |cells| == CELLS && r.At(c.SlotOffset(c.Index(sn))).cells == cells
  }

  lemma OneLoad(c: Config, r: Ring, id: nat, sn: nat, word: nat, all: seq<int>, k: nat, cells: seq<int>)
    requires c.Valid() && k < |all| == CELLS && HasRead(r, id, sn, word, all[..k]) && CellsAre(c, r, sn, cells)
    requires all[k] == cells[k] && (k + 1 == FIELDS ==> FieldsAccepted(c, c.Index(sn), all[..FIELDS]))
    ensures HasRead(DoAdvanceRead(c, r, id), id, sn, word, all[..k + 1])
    ensures CellsAre(c, DoAdvanceRead(c, r, id), sn, cells)
  {
    assert all[..k] + [all[k]] == all[..k + 1];
  }

  /** The loads from field g on take what the slot holds now; those before may be from another time. */
  lemma LoadingFields(c: Config, r: Ring, id: nat, sn: nat, word: nat, all: seq<int>, g: nat, n: nat, cells: seq<int>)
    requires c.Valid() && g + n <= |all| == CELLS && HasRead(r, id, sn, word, all[..g]) && CellsAre(c, r, sn, cells)
    requires forall k :: g <= k < CELLS ==> all[k] == cells[k]
    requires g < FIELDS <= g + n ==> FieldsAccepted(c, c.Index(sn), all[..FIELDS])
    ensures HasRead(Loads(c, r, id, n), id, sn, word, all[..g + n])
  {
    ghost var p := (k: nat, y: Ring) =>
      g + k <= CELLS && HasRead(y, id, sn, word, all[..g + k]) && CellsAre(c, y, sn, cells);
    forall k: nat, y | k < n && p(k, y) ensures p(k + 1, Load(c, id)(y)) {
      OneLoad(c, y, id, sn, word, all, g + k, cells);
    }
    IterateKeeps(Load(c, id), r, n, p);
  }

  /** What a read makes of the fields it loaded, the commit word permitting. */
  function Verdict(c: Config, sn: nat, all: seq<int>): ReadResult
    requires c.Valid() && |all| == CELLS
  {
    match Interpret(c, c.Index(sn), all)
    case Some(view) => Got(view)
    case None => Skipped
  }

  /** Fields of a frame read back: the frame's view when its header validates again, nothing otherwise. */
  lemma InterpretOwnFrame(c: Config, sn: nat, f: Frame)
    requires c.Valid() && FrameOk(c, f)
    ensures FieldsAccepted(c, c.Index(sn), FrameCells(c, f, c.Index(sn))[..FIELDS])
    ensures Verdict(c, sn, FrameCells(c, f, c.Index(sn))) ==
            if Validate(f.tensor).0 then Got(ViewOf(c, sn, f)) else Skipped
  {
    var cells := FrameCells(c, f, c.Index(sn));
    assert cells[FIELDS..] == EncodeHeader(f.tensor);
    HeaderRoundTrip(f.tensor);
    FindPoolFinds(c, f.pool, 0);
  }

  /** The rest of a read that has loaded g fields: the other fields, the checks, the commit word again. */
  function FinishRead(c: Config, r: Ring, id: nat, g: nat): Ring
    requires c.Valid() && g <= CELLS
  {
    Loads(c, Loads(c, r, id, CELLS - g), id, 2)
  }

  /** A whole read with nothing in between. */
  function Read(c: Config, r: Ring, id: nat, sn: nat): Ring
    requires c.Valid()
  {
    FinishRead(c, Loads(c, DoStartRead(r, id, sn), id, 1), id, 0)
  }

  lemma ReadFinishes(c: Config, r: Ring, id: nat, sn: nat, all: seq<int>)
    requires c.Valid() && |all| == CELLS && HasRead(r, id, sn, 2 * sn + 1, all)
    requires r.At(c.SlotOffset(c.Index(sn))).word == 2 * sn + 1
    ensures Loads(c, r, id, 2).Reader(id) == Finished(sn, Verdict(c, sn, all))
  {
    var r1 := Loads(c, r, id, 1);
    assert Loads(c, r, id, 0) == r;
    assert r1 == DoAdvanceRead(c, r, id);
    LoadsOnlyRead(c, r, id, 1, c.SlotOffset(c.Index(sn)));
    assert Loads(c, r, id, 2) == DoAdvanceRead(c, r1, id);
    match Interpret(c, c.Index(sn), all)
    case None => assert r1.Reader(id) == Finished(sn, Skipped);
    case Some(view) => assert r1.Reader(id) == SecondLoad(sn, 2 * sn + 1, view);
  }

  /**
    The rest of a read whose commit word still stands: the interpretation of what was loaded, early or late, is its
    result.
   */
  lemma ReadOn(c: Config, r: Ring, id: nat, sn: nat, all: seq<int>, g: nat, cells: seq<int>)
    requires c.Valid() && g <= |all| == CELLS && HasRead(r, id, sn, 2 * sn + 1, all[..g])
    requires r.At(c.SlotOffset(c.Index(sn))) == Slot(2 * sn + 1, cells) && |cells| == CELLS
    requires forall k :: g <= k < CELLS ==> all[k] == cells[k]
    requires g < FIELDS ==> FieldsAccepted(c, c.Index(sn), all[..FIELDS])
    ensures FinishRead(c, r, id, g).Reader(id) == Finished(sn, Verdict(c, sn, all))
  {
    LoadingFields(c, r, id, sn, 2 * sn + 1, all, g, CELLS - g, cells);
    LoadsOnlyRead(c, r, id, CELLS - g, c.SlotOffset(c.Index(sn)));
    assert all[..g + (CELLS - g)] == all;
    ReadFinishes(c, Loads(c, r, id, CELLS - g), id, sn, all);
  }

  /**
    A read left alone, of a sequence number whose frame the slot holds, returns that frame exactly when its tensor
    header validates; otherwise the frame is skipped.
   */
  lemma ReadAloneReturnsFrame(c: Config, r: Ring, id: nat, sn: nat, f: Frame)
    requires c.Valid() && HoldsFrame(c, r, sn, f)
    ensures Read(c, r, id, sn).Reader(id) ==
            Finished(sn, if Validate(f.tensor).0 then Got(ViewOf(c, sn, f)) else Skipped)
  {
    var cells, start := FrameCells(c, f, c.Index(sn)), DoStartRead(r, id, sn);
    FirstLoadSees(c, start, id, sn);
    LoadsOnlyRead(c, start, id, 1, c.SlotOffset(c.Index(sn)));
    InterpretOwnFrame(c, sn, f);
    assert cells[..0] == [];
    ReadOn(c, Loads(c, start, id, 1), id, sn, cells, 0, cells);
  }

  lemma FirstLoadSees(c: Config, r: Ring, id: nat, sn: nat)
    requires c.Valid() && r.Reader(id) == FirstLoad(sn) && r.At(c.SlotOffset(c.Index(sn))).word == 2 * sn + 1
    ensures HasRead(Loads(c, r, id, 1), id, sn, 2 * sn + 1, [])
  {
    assert Loads(c, r, id, 1) == DoAdvanceRead(c, Loads(c, r, id, 0), id);
  }

  /** The frame an offer makes of its arguments. */
  function OfferedFrame(c: Config, h: Header, payload: seq<int>, timestamp: nat, metaVersion: nat): Frame
    requires c.Valid() && WireHeader(h) && Prepare(h).Some? && BestPool(c.pools, |payload|, |c.pools|).Some?
  {
    Frame(Prepare(h).value, payload, BestPool(c.pools, |payload|, |c.pools|).value, timestamp, metaVersion)
  }

  lemma OfferBegins(c: Config, r: Ring, h: Header, payload: seq<int>, timestamp: nat, metaVersion: nat)
    requires c.Valid() && Inv(c, r) && r.nextSeq + 1 < U64 / 2 && r.job.NoJob?
    requires WireHeader(h) && Prepare(h).Some? && BestPool(c.pools, |payload|, |c.pools|).Some?
    ensures var begun := DoOffer(c, r, h, payload, timestamp, metaVersion);
            && Inv(c, begun) && begun.claims == r.claims && begun.nextSeq == r.nextSeq + 1
            && begun.job == CopyPayload(r.nextSeq, OfferedFrame(c, h, payload, timestamp, metaVersion), 0)
  {
    OfferKeeps(c, r, h, payload, timestamp, metaVersion);
  }

  /** A frame published under the next sequence number, from its first store to its last. */
  function PublishFrame(c: Config, r: Ring, f: Frame): Ring
    requires c.Valid()
  {
    FinishOffer(c, Begin(c, r.(nextSeq := r.nextSeq + 1), r.nextSeq, f, true))
  }

  function Publish(c: Config, f: Frame): Ring -> Ring
    requires c.Valid()
  {
    r => PublishFrame(c, r, f)
  }

  /** The same frame published n times. */
  function PublishMany(c: Config, r: Ring, f: Frame, n: nat): Ring
    requires c.Valid()
  {
    Iterate(Publish(c, f), r, n)
  }

  /** An accepted offer, run to its end, publishes the frame it was made of. */
  lemma OfferPublishes(c: Config, r: Ring, h: Header, payload: seq<int>, timestamp: nat, metaVersion: nat)
    requires c.Valid() && r.job.NoJob? && WireHeader(h) && Prepare(h).Some?
    requires BestPool(c.pools, |payload|, |c.pools|).Some?
    ensures var f := OfferedFrame(c, h, payload, timestamp, metaVersion);
            var begun := DoOffer(c, r, h, payload, timestamp, metaVersion);
            begun.job.CopyPayload? && FinishOffer(c, begun) == PublishFrame(c, r, f) && FrameOk(c, f)
  {
    PreparedFrameOk(c, h, Prepare(h).value, payload, BestPool(c.pools, |payload|, |c.pools|).value, timestamp,
        metaVersion);
    OfferIsBegin(c, r, h, payload, timestamp, metaVersion);
  }

  lemma OfferIsBegin(c: Config, r: Ring, h: Header, payload: seq<int>, timestamp: nat, metaVersion: nat)
    requires c.Valid() && r.job.NoJob? && WireHeader(h) && Prepare(h).Some?
    requires BestPool(c.pools, |payload|, |c.pools|).Some?
    ensures var f := OfferedFrame(c, h, payload, timestamp, metaVersion);
            var begun := Begin(c, r.(nextSeq := r.nextSeq + 1), r.nextSeq, f, true);
            DoOffer(c, r, h, payload, timestamp, metaVersion) == begun && begun.job == CopyPayload(r.nextSeq, f, 0)
  {
  }

  /** Between publications, with the next number and the claims as given. */
  ghost predicate AtRest(c: Config, r: Ring, next: nat, claims: map<nat, Claim>)
    requires c.Valid()
  {
    Inv(c, r) && r.job.NoJob? && r.nextSeq == next && r.claims == claims
  }

  lemma PublishedFrame(c: Config, r: Ring, f: Frame, next: nat, claims: map<nat, Claim>)
    requires c.Valid() && AtRest(c, r, next, claims) && next + 1 < U64 / 2 && FrameOk(c, f)
    ensures AtRest(c, PublishFrame(c, r, f), next + 1, claims) && HoldsFrame(c, PublishFrame(c, r, f), next, f)
  {
    var begun := Begin(c, r.(nextSeq := r.nextSeq + 1), r.nextSeq, f, true);
    BeginNextKeeps(c, r, f);
    OfferCommits(c, begun, next, f);
  }

  /** At rest k publications after next, the last one's slot holding its frame. */
  ghost function PublishedSoFar(c: Config, f: Frame, next: nat, claims: map<nat, Claim>): (nat, Ring) -> bool
    requires c.Valid()
  {
    (k: nat, r: Ring) => AtRest(c, r, next + k, claims) && (k > 0 ==> HoldsFrame(c, r, next + k - 1, f))
  }

  lemma PublishedOnce(c: Config, r: Ring, f: Frame, next: nat, claims: map<nat, Claim>, k: nat)
    requires c.Valid() && PublishedSoFar(c, f, next, claims)(k, r) && next + k + 1 < U64 / 2 && FrameOk(c, f)
    ensures PublishedSoFar(c, f, next, claims)(k + 1, Publish(c, f)(r))
  {
    PublishedFrame(c, r, f, next + k, claims);
  }

  lemma SoFar(c: Config, f: Frame, next: nat, claims: map<nat, Claim>, k: nat, r: Ring)
    requires c.Valid() && PublishedSoFar(c, f, next, claims)(k, r)
    ensures r.job.NoJob? && r.nextSeq == next + k && r.claims == claims && (k > 0 ==> HoldsFrame(c, r, next + k - 1, f))
  {
    assert AtRest(c, r, next + k, claims);
  }

  lemma PublishedMany(c: Config, r: Ring, f: Frame, next: nat, claims: map<nat, Claim>, n: nat)
    requires c.Valid() && PublishedSoFar(c, f, next, claims)(0, r) && next + n < U64 / 2 && FrameOk(c, f)
    ensures PublishedSoFar(c, f, next, claims)(n, PublishMany(c, r, f, n))
  {
    var p := PublishedSoFar(c, f, next, claims);
    forall k: nat, y | k < n && p(k, y) ensures p(k + 1, Publish(c, f)(y)) {
      PublishedOnce(c, y, f, next, claims, k);
    }
    IterateKeeps(Publish(c, f), r, n, p);
  }

  /** What the reader of an offered frame is to see. */
  function OfferedView(c: Config, sn: nat, h: Header, payload: seq<int>, timestamp: nat, metaVersion: nat): View
    requires c.Valid() && WireHeader(h) && Prepare(h).Some? && BestPool(c.pools, |payload|, |c.pools|).Some?
  {
    var p := BestPool(c.pools, |payload|, |c.pools|).value;
    View(Prepare(h).value, |payload|, p, c.pools[p].id, sn % c.nslots, timestamp, metaVersion)
  }

  /**
    The result of reading an offered frame: the frame, unless the consumer's validation refuses what the producer
    prepared.
   */
  function OfferedResult(c: Config, sn: nat, h: Header, payload: seq<int>, timestamp: nat, metaVersion: nat): ReadResult
    requires c.Valid() && WireHeader(h) && Prepare(h).Some? && h.ndims <= MAX_DIMS
    requires BestPool(c.pools, |payload|, |c.pools|).Some?
  {
    if TensorAddressing.NoNegativeWrap(h) then Got(OfferedView(c, sn, h, payload, timestamp, metaVersion)) else Skipped
  }

  /**
    The round trip: from any reachable state, a frame that is offered, committed and then read comes back as it was
    prepared, in the best-fitting pool, at the sequence number it was given, exactly when no stride inferred from the
    header offered wraps below zero. It does whenever the exact strides fit.
   */
  lemma OfferedFrameIsRead(c: Config, s: Schedule, id: nat, h: Header, payload: seq<int>, timestamp: nat,
      metaVersion: nat)
    requires c.Valid() && PublishesOnce(s) && |s| + 1 < U64 / 2 && Run(c, s).job.NoJob?
    requires WireHeader(h) && Prepare(h).Some? && BestPool(c.pools, |payload|, |c.pools|).Some?
    ensures 1 <= h.ndims <= MAX_DIMS && (TensorAddressing.ExactFits(h) ==> TensorAddressing.NoNegativeWrap(h))
    ensures var (sn, begun) := (Run(c, s).nextSeq, DoOffer(c, Run(c, s), h, payload, timestamp, metaVersion));
            && begun.job.CopyPayload?
            && Read(c, FinishOffer(c, begun), id, sn).Reader(id) ==
               Finished(sn, OfferedResult(c, sn, h, payload, timestamp, metaVersion))
  {
    RunKeeps(c, s);
    PreparedIsSettled(h);
    OfferThenRead(c, Run(c, s), id, h, payload, timestamp, metaVersion);
  }

  lemma OfferThenRead(c: Config, r: Ring, id: nat, h: Header, payload: seq<int>, timestamp: nat, metaVersion: nat)
    requires c.Valid() && Inv(c, r) && r.nextSeq + 1 < U64 / 2 && r.job.NoJob? && h.ndims <= MAX_DIMS
    requires WireHeader(h) && Prepare(h).Some? && BestPool(c.pools, |payload|, |c.pools|).Some?
    ensures var begun := DoOffer(c, r, h, payload, timestamp, metaVersion);
            && begun.job.CopyPayload?
            && Read(c, FinishOffer(c, begun), id, r.nextSeq).Reader(id) ==
               Finished(r.nextSeq, OfferedResult(c, r.nextSeq, h, payload, timestamp, metaVersion))
  {
    OfferBegins(c, r, h, payload, timestamp, metaVersion);
    var begun := DoOffer(c, r, h, payload, timestamp, metaVersion);
    var f := OfferedFrame(c, h, payload, timestamp, metaVersion);
    PreparedIsSettled(h);
    OfferCommits(c, begun, r.nextSeq, f);
    ReadAloneReturnsFrame(c, FinishOffer(c, begun), id, r.nextSeq, f);
  }
}
