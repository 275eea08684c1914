/**
  The shared-memory frame ring: one producer that publishes frames, possibly through claims the
  application fills in, and any number of consumers that read slots under a commit word. Producer
  stores and consumer loads interleave one field, or one payload byte, at a time.
 */
module FrameRing {
  import opened Bits
  import opened Options
  import opened Tensor

  const SUPERBLOCK_BYTES := 64
  const HEADER_SLOT_BYTES := 256

  const MESSAGE_HEADER_BYTES := 8
  const TENSOR_BLOCK_LENGTH := 184
  const TENSOR_TEMPLATE_ID := 52
  const SCHEMA_ID := 900
  const SCHEMA_VERSION := 1

  // ---- The commit word ----

  function InProgress(sn: u64): (w: nat)
    ensures w % 2 == 0 && (sn < U64 / 2 ==> w == 2 * sn)
  {
    assert Shl(sn, 1) == 2 * Shl(sn, 0);
    Or(Shl(sn, 1) % U64, 0)
  }

  function Committed(sn: u64): (w: nat)
    ensures w % 2 == 1 && (sn < U64 / 2 ==> w == 2 * sn + 1)
  {
    assert Shl(sn, 1) == 2 * Shl(sn, 0);
    OrHalves(Shl(sn, 1) % U64, 1);
    Or(Shl(sn, 1) % U64, 1)
  }

  predicate IsCommitted(word: nat)
    ensures IsCommitted(word) <==> word % 2 == 1
  {
    AndHalves(word, 1);
    And(word, 1) != 0
  }

  function SequenceOf(word: nat): (sn: nat)
    ensures sn == word / 2
  {
    assert Shr(word, 1) == Shr(word / 2, 0);
    Shr(word, 1)
  }

  // ---- Configuration and addresses ----

  datatype Pool = Pool(id: nat, stride: nat)

  datatype Config = Config(nslots: nat, pools: seq<Pool>) {
    /**
      What attaching checks, a power-of-two ring and 32-bit strides, and one assumption: pool ids tell the pools apart.
     */
    predicate Valid() {
      && IsPowerOfTwo(nslots) && nslots < U32
      && (forall i :: 0 <= i < |pools| ==> pools[i].stride < U32)
      && (forall i, j :: 0 <= i < j < |pools| ==> pools[i].id != pools[j].id)
    }

    /** The 32-bit product that addresses a payload slot reaches every slot of every pool. */
    predicate AddressesFit() {
      forall i :: 0 <= i < |pools| ==> (nslots - 1) * pools[i].stride < U32
    }

    function Index(sn: nat): (i: nat)
      requires Valid()
      ensures i == sn % nslots && i < nslots
    {
      RingIndex(sn, nslots);
      And(sn, nslots - 1)
    }

    /** Byte offset of a header slot; the product is formed in 32 bits. */
    function SlotOffset(index: nat): nat {
      SUPERBLOCK_BYTES + (index * HEADER_SLOT_BYTES) % U32
    }

    /** Byte offset of a payload slot; the product is formed in 32 bits. */
    function PayloadOffset(pool: nat, index: nat): nat
      requires pool < |pools|
    {
      SUPERBLOCK_BYTES + (index * pools[pool].stride) % U32
    }

    function FindPool(id: nat, from: nat := 0): (r: Option<nat>)
      requires from <= |pools|
      ensures r.Some? ==> from <= r.value < |pools| && pools[r.value].id == id
      ensures r.None? ==> forall i :: from <= i < |pools| ==> pools[i].id != id
      decreases |pools| - from
    {
      if from == |pools| then None
      else if pools[from].id == id then Some(from)
      else FindPool(id, from + 1)
    }
  }

  /** A pool fits best: large enough, no larger than any other that is, and the first of its size. */
  ghost predicate FitsBest(pools: seq<Pool>, length: nat, r: Option<nat>) {
    match r
    case None => forall i :: 0 <= i < |pools| ==> pools[i].stride < length
    case Some(b) =>
      && b < |pools| && pools[b].stride >= length
      && (forall i :: 0 <= i < |pools| && pools[i].stride >= length ==> pools[i].stride >= pools[b].stride)
      && (forall i :: 0 <= i < b && pools[i].stride >= length ==> pools[i].stride > pools[b].stride)
  }

  /** The best pool among the first n. */
  function BestPool(pools: seq<Pool>, length: nat, n: nat): (r: Option<nat>)
    requires n <= |pools|
    ensures r.Some? ==> r.value < n
    ensures FitsBest(pools[..n], length, r)
  {
    if n == 0 then None else
      var best := BestPool(pools, length, n - 1);
      var p := pools[n - 1];
      assert pools[..n] == pools[..n - 1] + [p];
      if p.stride >= length && (best.None? || p.stride < pools[best.value].stride) then Some(n - 1) else best
  }

  method FindPoolForLength(pools: array<Pool>, length: nat) returns (best: Option<nat>)
    ensures best == BestPool(pools[..], length, pools.Length)
    ensures FitsBest(pools[..], length, best)
  {
    best := None;
    for i := 0 to pools.Length
      invariant best == BestPool(pools[..], length, i)
    {
      if pools[i].stride >= length && (best.None? || pools[i].stride < pools[best.value].stride) {
        best := Some(i);
      }
    }
    assert pools[..][..pools.Length] == pools[..];
  }

  // ---- Frames and their encoding ----

  /** What one publication puts in a slot; the tensor header is the prepared one. */
  datatype Frame = Frame(tensor: Header, payload: seq<int>, pool: nat, timestamp: nat, metaVersion: nat)

  predicate WireHeader(h: Header) {
    h.Shaped() && h.ndims < U8 && h.progressStride < U32
  }

  /** Preparing a header: dimensions beyond ndims are cleared, then the header is validated. */
  function Prepare(h: Header): (r: Option<Header>)
    requires WireHeader(h)
    ensures r.Some? ==> WireHeader(r.value) && r.value == Validate(Cleared(h)).1 && Validate(Cleared(h)).0
  {
    var (ok, prepared) := Validate(Cleared(h));
    if ok then Some(prepared) else None
  }

  function Cleared(h: Header): (r: Header)
    requires h.Shaped()
    ensures r.Shaped()
  {
    h.(dims := seq(MAX_DIMS, i requires 0 <= i < MAX_DIMS => if i < h.ndims then h.dims[i] else 0),
       strides := seq(MAX_DIMS, i requires 0 <= i < MAX_DIMS => if i < h.ndims then h.strides[i] else 0))
  }

  /** The embedded header message, field by field. */
  function EncodeHeader(h: Header): (words: seq<int>)
    requires h.Shaped()
    ensures |words| == 10 + 2 * MAX_DIMS
  {
    [TENSOR_BLOCK_LENGTH, TENSOR_TEMPLATE_ID, SCHEMA_ID, SCHEMA_VERSION,
     h.dtype, h.majorOrder, h.ndims, 0, h.progressUnit, h.progressStride]
    + seq(MAX_DIMS, i requires 0 <= i < MAX_DIMS => h.dims[i])
    + seq(MAX_DIMS, i requires 0 <= i < MAX_DIMS => h.strides[i])
  }

  function DecodeHeader(words: seq<int>): (r: Option<Header>)
    requires |words| == 10 + 2 * MAX_DIMS
    ensures r.Some? ==> r.value.Shaped()
  {
    if || words[2] != SCHEMA_ID || words[1] != TENSOR_TEMPLATE_ID
       || words[3] != SCHEMA_VERSION || words[0] != TENSOR_BLOCK_LENGTH
    then None
    else Some(Header(words[4], words[5], words[6] % U8, words[8], words[9] % U32,
                     seq<i32>(MAX_DIMS, i requires 0 <= i < MAX_DIMS => Int32(words[10 + i])),
                     seq<i32>(MAX_DIMS, i requires 0 <= i < MAX_DIMS => Int32(words[10 + MAX_DIMS + i]))))
  }

  const FIELDS := 7 // length, payload slot, pool id, payload offset, timestamp, meta version, header length
  const CELLS := FIELDS + 10 + 2 * MAX_DIMS

  /** The fields of a slot after its commit word, in the order the producer stores them. */
  function FrameCells(c: Config, f: Frame, index: nat): (cells: seq<int>)
    requires f.tensor.Shaped() && f.pool < |c.pools|
    ensures |cells| == CELLS
  {
    [|f.payload|, index, c.pools[f.pool].id, 0, f.timestamp, f.metaVersion, MESSAGE_HEADER_BYTES + TENSOR_BLOCK_LENGTH]
    + EncodeHeader(f.tensor)
  }

  /** What a successful read returns. */
  datatype View = View(tensor: Header, payloadLen: int, pool: nat, poolId: int, payloadSlot: int, timestamp: int,
      metaVersion: int)

  /** The checks on the slot's own fields, made before the embedded header is looked at. */
  predicate FieldsAccepted(c: Config, index: nat, cells: seq<int>)
    requires |cells| >= FIELDS
  {
    && cells[3] == 0
    && cells[1] == index
    && cells[2] >= 0 && c.FindPool(cells[2]).Some?
    && cells[0] <= c.pools[c.FindPool(cells[2]).value].stride
    && cells[6] == MESSAGE_HEADER_BYTES + TENSOR_BLOCK_LENGTH
  }

  /** A full set of fields as the reader interprets it, if all its checks pass. */
  function Interpret(c: Config, index: nat, cells: seq<int>): Option<View>
    requires |cells| == CELLS
  {
    if !FieldsAccepted(c, index, cells) then None else
      match DecodeHeader(cells[FIELDS..])
      case None => None
      case Some(h) =>
        var (ok, tensor) := Validate(h);
        if ok then Some(View(tensor, cells[0], c.FindPool(cells[2]).value, cells[2], cells[1], cells[4], cells[5]))
            else None
  }

  // ---- The machine ----

  datatype Slot = Slot(word: nat, cells: seq<int>)

  datatype Claim = Claim(pool: nat, length: nat)

  /** The producer's publication under way: copying payload byte k, or storing field k. */
  datatype Job =
    | NoJob
    | CopyPayload(sn: nat, frame: Frame, k: nat)
    | StoreFields(sn: nat, frame: Frame, k: nat)

  datatype Reader =
    | Resting
    | FirstLoad(sn: nat)
    | Reading(sn: nat, first: nat, got: seq<int>)
    | SecondLoad(sn: nat, first: nat, view: View)
    | Finished(sn: nat, result: ReadResult)

  datatype ReadResult =
    | Got(view: View)  // the call returns zero and fills the view
    | Late             // returns one and counts a late drop
    | Skipped          // returns one

  /**
    Shared memory and the parties. The claims are the open ones; every claim ever issued stays in the application's
    hands. The published frames, and which of them are fully committed, are history. Memory never written reads as zero.
   */
  datatype Ring = Ring(
    slots: map<nat, Slot>,
    memory: map<(nat, nat), int>,
    nextSeq: nat,
    claims: map<nat, Claim>,
    issued: map<nat, Claim>,
    job: Job,
    readers: map<nat, Reader>,
    published: map<nat, Frame>,
    done: set<nat>)
  {
    function At(offset: nat): Slot {
      if offset in slots then slots[offset] else Slot(0, seq(CELLS, i => 0))
    }

    function Byte(pool: nat, address: nat): int {
      if (pool, address) in memory then memory[(pool, address)] else 0
    }

    function Reader(id: nat): Reader {
      if id in readers then readers[id] else Resting
    }

    function Mark(offset: nat, word: nat): Ring {
      this.(slots := slots[offset := At(offset).(word := word)])
    }
  }

  datatype Action =
    | Offer(tensor: Header, payload: seq<int>, timestamp: nat, metaVersion: nat)
    | TryClaim(length: nat)
    | WriteClaim(sn: nat, k: nat, byte: int)
    | Commit(sn: nat, tensor: Header, timestamp: nat, metaVersion: nat)
    | CommitAgain(sn: nat, tensor: Header, timestamp: nat, metaVersion: nat)
    | Advance
    | StartRead(reader: nat, sn: nat)
    | AdvanceRead(reader: nat)

  const Empty := Ring(map[], map[], 0, map[], map[], NoJob, map[], map[], {})

  /** The first step of a publication: the slot is marked in progress before anything in it changes. */
  function Begin(c: Config, r: Ring, sn: nat, f: Frame, copy: bool): (r': Ring)
    requires c.Valid()
    ensures r'.nextSeq == r.nextSeq
  {
    var marked := r.Mark(c.SlotOffset(c.Index(sn)), InProgress(sn % U64));
    marked.(job := if copy then CopyPayload(sn, f, 0) else StoreFields(sn, f, 0), published := r.published[sn := f])
  }

  /** Offering a frame to a pool: a sequence number is spent even when the tensor header is refused. */
  function OfferInto(c: Config, r: Ring, pool: nat, tensor: Header, payload: seq<int>, timestamp: nat,
      metaVersion: nat): (r': Ring)
    requires c.Valid() && WireHeader(tensor)
    ensures r'.nextSeq == r.nextSeq + 1
  {
    var next := r.(nextSeq := r.nextSeq + 1);
    match Prepare(tensor)
    case None => next
    case Some(h) => Begin(c, next, r.nextSeq, Frame(h, payload, pool, timestamp, metaVersion), true)
  }

  function DoOffer(c: Config, r: Ring, tensor: Header, payload: seq<int>, timestamp: nat, metaVersion: nat): (r': Ring)
    requires c.Valid()
    ensures r.nextSeq <= r'.nextSeq <= r.nextSeq + 1
  {
    if !r.job.NoJob? || !WireHeader(tensor) then r else
      match BestPool(c.pools, |payload|, |c.pools|)
      case None => r
      case Some(pool) => OfferInto(c, r, pool, tensor, payload, timestamp, metaVersion)
  }

  function DoTryClaim(c: Config, r: Ring, length: nat): Ring
    requires c.Valid()
  {
    if !r.job.NoJob? then r else
      match BestPool(c.pools, length, |c.pools|)
      case None => r
      case Some(pool) =>
        r.Mark(c.SlotOffset(c.Index(r.nextSeq)), InProgress(r.nextSeq % U64))
         .(nextSeq := r.nextSeq + 1, claims := r.claims[r.nextSeq := Claim(pool, length)],
           issued := r.issued[r.nextSeq := Claim(pool, length)])
  }

  /** The application writes a byte of the payload of a claim it holds. */
  function DoWriteClaim(c: Config, r: Ring, sn: nat, k: nat, byte: int): Ring
    requires c.Valid()
  {
    if sn in r.claims && k < r.claims[sn].length && r.claims[sn].pool < |c.pools| then
      var p := r.claims[sn].pool;
      r.(memory := r.memory[(p, c.PayloadOffset(p, c.Index(sn)) + k) := byte])
    else r
  }

  /** The payload bytes a claim refers to. */
  function ClaimedBytes(c: Config, r: Ring, sn: nat, claim: Claim): seq<int>
    requires c.Valid() && claim.pool < |c.pools|
  {
    seq(claim.length, k requires 0 <= k => r.Byte(claim.pool, c.PayloadOffset(claim.pool, c.Index(sn)) + k))
  }

  /** Committing a claim publishes its sequence number; its payload is already in place. */
  function DoCommit(c: Config, r: Ring, sn: nat, claim: Claim, tensor: Header, timestamp: nat,
      metaVersion: nat): (r': Ring)
    requires c.Valid()
    ensures r'.nextSeq == r.nextSeq
  {
    if !r.job.NoJob? || !WireHeader(tensor) || claim.pool >= |c.pools| then r else
      match Prepare(tensor)
      case None => r
      case Some(h) =>
        Begin(c, r, sn, Frame(h, ClaimedBytes(c, r, sn, claim), claim.pool, timestamp, metaVersion), false)
        .(claims := r.claims - {sn})
  }

  /** A claim the application still has at hand after its commit: nothing in it says it was committed already. */
  function DoCommitAgain(c: Config, r: Ring, sn: nat, tensor: Header, timestamp: nat, metaVersion: nat): (r': Ring)
    requires c.Valid()
    ensures r'.nextSeq == r.nextSeq
  {
    if sn in r.done && sn in r.issued then DoCommit(c, r, sn, r.issued[sn], tensor, timestamp, metaVersion) else r
  }

  function CopyByte(c: Config, r: Ring, sn: nat, f: Frame, k: nat): Ring
    requires c.Valid()
  {
    if k < |f.payload| && f.pool < |c.pools| then
      r.(memory := r.memory[(f.pool, c.PayloadOffset(f.pool, c.Index(sn)) + k) := f.payload[k]],
         job := CopyPayload(sn, f, k + 1))
    else r.(job := StoreFields(sn, f, 0))
  }

  /** The next field, or after the last one the committing store of the commit word. */
  function StoreField(c: Config, r: Ring, sn: nat, f: Frame, k: nat): Ring
    requires c.Valid()
  {
    var offset := c.SlotOffset(c.Index(sn));
    if k < CELLS && f.pool < |c.pools| && f.tensor.Shaped() && |r.At(offset).cells| == CELLS then
      var s := r.At(offset);
      r.(slots := r.slots[offset := s.(cells := s.cells[k := FrameCells(c, f, c.Index(sn))[k]])],
         job := StoreFields(sn, f, k + 1))
    else
      r.Mark(offset, Committed(sn % U64)).(job := NoJob, done := r.done + {sn})
  }

  /** One store of the publication under way. */
  function DoAdvance(c: Config, r: Ring): Ring
    requires c.Valid()
  {
    match r.job
    case NoJob => r
    case CopyPayload(sn, f, k) => CopyByte(c, r, sn, f, k)
    case StoreFields(sn, f, k) => StoreField(c, r, sn, f, k)
  }

  /** The first load of the commit word. */
  function AfterFirst(s: Slot, sn: nat): Reader {
    if IsCommitted(s.word) then Reading(sn, s.word, []) else Finished(sn, Late)
  }

  /** The load of one field, or with all of them loaded the checks on the header and its tensor. */
  function AfterField(c: Config, s: Slot, sn: nat, first: nat, got: seq<int>): Reader
    requires c.Valid()
  {
    var index := c.Index(sn);
    if |got| < CELLS && |s.cells| == CELLS then
      var now := got + [s.cells[|got|]];
      if |now| == FIELDS && !FieldsAccepted(c, index, now) then Finished(sn, Skipped) else Reading(sn, first, now)
    else if |got| == CELLS then
      match Interpret(c, index, got)
      case None => Finished(sn, Skipped)
      case Some(view) => SecondLoad(sn, first, view)
    else Finished(sn, Skipped)
  }

  /** The second load of the commit word, and the verdict. */
  function AfterSecond(s: Slot, sn: nat, first: nat, view: View): Reader {
    if s.word != first || !IsCommitted(s.word) then Finished(sn, Late)
    else if SequenceOf(s.word) != sn then Finished(sn, Late)
    else Finished(sn, Got(view))
  }

  function NextReader(c: Config, r: Ring, reader: Reader): Reader
    requires c.Valid()
  {
    match reader
    case Resting => reader
    case Finished(_, _) => reader
    case FirstLoad(sn) => AfterFirst(r.At(c.SlotOffset(c.Index(sn))), sn)
    case Reading(sn, first, got) => AfterField(c, r.At(c.SlotOffset(c.Index(sn))), sn, first, got)
    case SecondLoad(sn, first, view) => AfterSecond(r.At(c.SlotOffset(c.Index(sn))), sn, first, view)
  }

  function DoStartRead(r: Ring, id: nat, sn: nat): Ring {
    r.(readers := r.readers[id := FirstLoad(sn)])
  }

  /** One load by a reader, and the checks made on what has been loaded. */
  function DoAdvanceRead(c: Config, r: Ring, id: nat): Ring
    requires c.Valid()
  {
    r.(readers := r.readers[id := NextReader(c, r, r.Reader(id))])
  }

  function Step(c: Config, r: Ring, a: Action): Ring
    requires c.Valid()
  {
    match a
    case Offer(tensor, payload, timestamp, metaVersion) => DoOffer(c, r, tensor, payload, timestamp, metaVersion)
    case TryClaim(length) => DoTryClaim(c, r, length)
    case WriteClaim(sn, k, byte) => DoWriteClaim(c, r, sn, k, byte)
    case Commit(sn, tensor, timestamp, metaVersion) =>
      if sn in r.claims then DoCommit(c, r, sn, r.claims[sn], tensor, timestamp, metaVersion) else r
    case CommitAgain(sn, tensor, timestamp, metaVersion) => DoCommitAgain(c, r, sn, tensor, timestamp, metaVersion)
    case Advance => DoAdvance(c, r)
    case StartRead(id, sn) => DoStartRead(r, id, sn)
    case AdvanceRead(id) => DoAdvanceRead(c, r, id)
  }

  type Schedule = seq<Action>

  function Run(c: Config, s: Schedule): Ring
    requires c.Valid()
    decreases |s|
  {
    if s == [] then Empty else Step(c, Run(c, s[..|s| - 1]), s[|s| - 1])
  }

  /** No claim is committed twice, and the run is short of wrapping the 63-bit sequence of a commit word. */
  predicate PublishesOnce(s: Schedule) {
    |s| < U64 / 2 && forall i :: 0 <= i < |s| ==> !s[i].CommitAgain?
  }

  /** The view of a published frame, as its publisher meant it. */
  ghost function ViewOf(c: Config, sn: nat, f: Frame): View
    requires c.Valid() && f.pool < |c.pools|
  {
    View(f.tensor, |f.payload|, f.pool, c.pools[f.pool].id, c.Index(sn), f.timestamp, f.metaVersion)
  }
}
