/**
  Checking a progress report against the ring: the consumer reads the slot under its commit word, but the embedded
  tensor header only afterwards, from memory that may have moved on. What an acceptance still guarantees.
 */
module FrameProgressCheck {
  import opened Bits
  import opened Options
  import opened Tensor
  import opened FrameRing
  import opened FrameRingSafety
  import opened FrameRingProgress
  import opened Folds

  datatype Progress = Progress(stream: nat, epoch: nat, sn: nat, bytes: nat)

  datatype Verdict = Accepted | Unsure | Rejected

  /**
    Where a check stands; the commit word is loaded once before the slot is decoded, once by the decoder, once after.
   */
  datatype Check =
    | Idle
    | FirstWord(p: Progress)
    | DecodedWord(p: Progress, first: nat)
    | Fields(p: Progress, first: nat, again: nat, got: seq<int>)
    | TensorHeader(p: Progress, fields: seq<int>, got: seq<int>)
    | Done(p: Progress, verdict: Verdict)

  /** The regions the consumer has mapped. */
  datatype Mapping = Mapping(stream: nat, epoch: nat)

  function Start(m: Mapping, p: Progress): Check {
    if p.stream != m.stream || p.epoch != m.epoch then Done(p, Unsure) else FirstWord(p)
  }

  /** The checks on the decoded fields, in the order they are made. */
  function JudgeFields(c: Config, p: Progress, fields: seq<int>): Check
    requires |fields| == FIELDS
  {
    if fields[2] < 0 || c.FindPool(fields[2]).None? then Done(p, Rejected)
    else if fields[0] > c.pools[c.FindPool(fields[2]).value].stride then Done(p, Rejected)
    else if p.bytes > fields[0] then Done(p, Rejected)
    else if fields[6] != MESSAGE_HEADER_BYTES + TENSOR_BLOCK_LENGTH then Done(p, Rejected)
    else TensorHeader(p, fields, [])
  }

  /** One field, or with all of them loaded the commit word again. */
  function NextField(c: Config, s: Slot, ch: Check): Check
    requires ch.Fields?
  {
    var Fields(p, first, again, got) := ch;
    if |got| < FIELDS then
      if |s.cells| == CELLS then Fields(p, first, again, got + [s.cells[|got|]]) else Done(p, Rejected)
    else if s.word != first || !IsCommitted(s.word) then Done(p, Unsure)
    else if again != s.word then Done(p, Unsure)
    else if SequenceOf(again) != p.sn then Done(p, Rejected)
    else if |got| == FIELDS then JudgeFields(c, p, got)
    else Done(p, Rejected)
  }

  /** One word of the embedded header, or with all of them loaded its decoding and validation. */
  function NextHeaderWord(s: Slot, ch: Check): Check
    requires ch.TensorHeader?
  {
    var TensorHeader(p, fields, got) := ch;
    if FIELDS + |got| < CELLS && |s.cells| == CELLS then TensorHeader(p, fields, got + [s.cells[FIELDS + |got|]])
    else if |got| == CELLS - FIELDS && DecodeHeader(got).Some? && Validate(DecodeHeader(got).value).0 then
      Done(p, Accepted)
    else Done(p, Rejected)
  }

  /** One load by the check. */
  function NextCheck(c: Config, r: Ring, ch: Check): Check
    requires c.Valid()
  {
    match ch
    case Idle => ch
    case Done(_, _) => ch
    case FirstWord(p) =>
      var word := r.At(c.SlotOffset(c.Index(p.sn))).word;
      if !IsCommitted(word) then Done(p, Unsure)
      else if SequenceOf(word) != p.sn then Done(p, Rejected)
      else DecodedWord(p, word)
    case DecodedWord(p, first) => Fields(p, first, r.At(c.SlotOffset(c.Index(p.sn))).word, [])
    case Fields(p, _, _, _) => NextField(c, r.At(c.SlotOffset(c.Index(p.sn))), ch)
    case TensorHeader(p, _, _) => NextHeaderWord(r.At(c.SlotOffset(c.Index(p.sn))), ch)
  }

  // ---- The ring and a check, interleaved ----

  datatype Move = InRing(action: Action) | StartCheck(p: Progress) | AdvanceCheck

  datatype System = System(ring: Ring, check: Check)

  function Advance(c: Config, m: Mapping, y: System, move: Move): System
    requires c.Valid()
  {
    match move
    case InRing(a) => y.(ring := Step(c, y.ring, a))
    case StartCheck(p) => y.(check := Start(m, p))
    case AdvanceCheck => y.(check := NextCheck(c, y.ring, y.check))
  }

  function RunBoth(c: Config, m: Mapping, moves: seq<Move>): System
    requires c.Valid()
  {
    if moves == [] then System(Empty, Idle)
    else Advance(c, m, RunBoth(c, m, moves[..|moves| - 1]), moves[|moves| - 1])
  }

  predicate PublishesOnceIn(moves: seq<Move>) {
    |moves| < U64 / 2 && forall k :: 0 <= k < |moves| && moves[k].InRing? ==> !moves[k].action.CommitAgain?
  }

  // ---- The invariant ----

  /** What the fields of a published frame allow: the report stays within its payload. */
  ghost predicate Within(r: Ring, m: Mapping, p: Progress) {
    && p.stream == m.stream && p.epoch == m.epoch
    && p.sn in r.done && p.sn in r.published && p.bytes <= |r.published[p.sn].payload|
  }

  ghost predicate CheckInv(c: Config, r: Ring, m: Mapping, ch: Check)
    requires c.Valid()
  {
    match ch
    case Idle => true
    case FirstWord(p) => p.stream == m.stream && p.epoch == m.epoch
    case DecodedWord(p, first) => p.stream == m.stream && p.epoch == m.epoch && first == 2 * p.sn + 1 && p.sn in r.done
    case Fields(p, first, _, got) =>
      && p.stream == m.stream && p.epoch == m.epoch && first == 2 * p.sn + 1 && p.sn in r.done && |got| <= FIELDS
      && (r.At(c.SlotOffset(c.Index(p.sn))).word == first ==> got <= r.At(c.SlotOffset(c.Index(p.sn))).cells)
    case TensorHeader(p, _, _) => Within(r, m, p)
    case Done(p, verdict) => verdict == Accepted ==> Within(r, m, p)
  }

  /** A committed frame stays published as it is, and wherever its commit word stands its slot has not changed. */
  ghost predicate Stays(r: Ring, r': Ring, sn: nat) {
    && sn in r.published && sn in r'.done && sn in r'.published && r'.published[sn] == r.published[sn]
    && forall offset: nat :: r'.At(offset).word == 2 * sn + 1 ==> r'.At(offset) == r.At(offset)
  }

  lemma MarkedSlots(r: Ring, r': Ring, marked: nat, word: nat, sn: nat)
    requires r'.slots == r.Mark(marked, word).slots && word % 2 == 0
    ensures forall offset: nat :: r'.At(offset).word == 2 * sn + 1 ==> r'.At(offset) == r.At(offset)
  {
    forall offset: nat | r'.At(offset).word == 2 * sn + 1 ensures r'.At(offset) == r.At(offset) {
      assert offset != marked;
    }
  }

  lemma BeginStays(c: Config, r: Ring, open: nat, f: Frame, copy: bool, sn: nat)
    requires c.Valid() && sn in r.done && sn in r.published && open != sn
    ensures Stays(r, Begin(c, r, open, f, copy), sn)
  {
    var r', marked := Begin(c, r, open, f, copy), c.SlotOffset(c.Index(open));
    assert r'.done == r.done && r'.published == r.published[open := f];
    assert r'.slots == r.Mark(marked, InProgress(open % U64)).slots;
    MarkedSlots(r, r', marked, InProgress(open % U64), sn);
  }

  lemma OfferStays(c: Config, r: Ring, tensor: Header, payload: seq<int>, timestamp: nat, metaVersion: nat, sn: nat)
    requires c.Valid() && Inv(c, r) && sn in r.done
    ensures Stays(r, DoOffer(c, r, tensor, payload, timestamp, metaVersion), sn)
  {
    if r.job.NoJob? && WireHeader(tensor) {
      var next := r.(nextSeq := r.nextSeq + 1);
      match BestPool(c.pools, |payload|, |c.pools|)
      case None =>
      case Some(pool) =>
        match Prepare(tensor)
        case None =>
        case Some(h) =>
          OfferIntoIsBegin(c, r, pool, tensor, h, payload, timestamp, metaVersion);
          BeginStays(c, next, r.nextSeq, Frame(h, payload, pool, timestamp, metaVersion), true, sn);
    }
  }

  lemma ClaimStays(c: Config, r: Ring, length: nat, sn: nat)
    requires c.Valid() && Inv(c, r) && sn in r.done
    ensures Stays(r, DoTryClaim(c, r, length), sn)
  {
    if r.job.NoJob? && BestPool(c.pools, length, |c.pools|).Some? {
      var r', marked := DoTryClaim(c, r, length), c.SlotOffset(c.Index(r.nextSeq));
      MarkedSlots(r, r', marked, InProgress(r.nextSeq % U64), sn);
    }
  }

  lemma CommitStays(c: Config, r: Ring, open: nat, claim: Claim, tensor: Header, timestamp: nat, metaVersion: nat,
      sn: nat)
    requires c.Valid() && Inv(c, r) && sn in r.done && open in r.claims
    ensures Stays(r, DoCommit(c, r, open, claim, tensor, timestamp, metaVersion), sn)
  {
    if r.job.NoJob? && WireHeader(tensor) && claim.pool < |c.pools| {
      match Prepare(tensor)
      case None =>
      case Some(h) =>
        BeginStays(c, r, open, Frame(h, ClaimedBytes(c, r, open, claim), claim.pool, timestamp, metaVersion), false,
            sn);
    }
  }

  lemma AdvanceStays(c: Config, r: Ring, sn: nat)
    requires c.Valid() && Inv(c, r) && sn in r.done
    ensures Stays(r, DoAdvance(c, r), sn)
  {
    if r.job.StoreFields? { StoreStays(c, r, sn); }
  }

  lemma StoreStays(c: Config, r: Ring, sn: nat)
    requires c.Valid() && Inv(c, r) && sn in r.done && r.job.StoreFields?
    ensures Stays(r, StoreField(c, r, r.job.sn, r.job.frame, r.job.k), sn)
  {
    var r' := StoreField(c, r, r.job.sn, r.job.frame, r.job.k);
    var open := c.SlotOffset(c.Index(r.job.sn));
    InRange(r.job.sn, U64);
    assert r.At(open).word == 2 * r.job.sn;
    assert r'.At(open).word in {2 * r.job.sn, 2 * r.job.sn + 1};
    forall offset: nat | r'.At(offset).word == 2 * sn + 1 ensures r'.At(offset) == r.At(offset) {
      assert offset != open;
    }
  }

  lemma StepStays(c: Config, r: Ring, a: Action, sn: nat)
    requires c.Valid() && Inv(c, r) && !a.CommitAgain? && sn in r.done
    ensures Stays(r, Step(c, r, a), sn)
  {
    match a
    case Offer(tensor, payload, timestamp, metaVersion) =>
        OfferStays(c, r, tensor, payload, timestamp, metaVersion, sn);
    case TryClaim(length) => ClaimStays(c, r, length, sn);
    case WriteClaim(_, _, _) =>
    case Commit(open, tensor, timestamp, metaVersion) =>
      if open in r.claims { CommitStays(c, r, open, r.claims[open], tensor, timestamp, metaVersion, sn); }
    case Advance => AdvanceStays(c, r, sn);
    case StartRead(_, _) =>
    case AdvanceRead(_) =>
  }

  lemma StaysKeepsCheck(c: Config, r: Ring, r': Ring, m: Mapping, ch: Check)
    requires c.Valid() && CheckInv(c, r, m, ch) && (!ch.Idle? && ch.p.sn in r.done ==> Stays(r, r', ch.p.sn))
    ensures CheckInv(c, r', m, ch)
  {
  }

  lemma RingKeepsCheck(c: Config, r: Ring, a: Action, m: Mapping, ch: Check)
    requires c.Valid() && Inv(c, r) && !a.CommitAgain? && CheckInv(c, r, m, ch)
    ensures CheckInv(c, Step(c, r, a), m, ch)
  {
    if !ch.Idle? && ch.p.sn in r.done { StepStays(c, r, a, ch.p.sn); }
    StaysKeepsCheck(c, r, Step(c, r, a), m, ch);
  }

  lemma FieldLoadKeeps(c: Config, r: Ring, m: Mapping, ch: Check)
    requires c.Valid() && Inv(c, r) && ch.Fields? && CheckInv(c, r, m, ch)
    ensures CheckInv(c, r, m, NextCheck(c, r, ch))
  {
    var s := r.At(c.SlotOffset(c.Index(ch.p.sn)));
    assert SlotInv(c, r, c.SlotOffset(c.Index(ch.p.sn)));
    if |ch.got| == FIELDS && s.word == ch.first {
      assert ch.got[0] == s.cells[0];
    }
  }

  lemma LoadKeepsCheck(c: Config, r: Ring, m: Mapping, ch: Check)
    requires c.Valid() && Inv(c, r) && CheckInv(c, r, m, ch)
    ensures CheckInv(c, r, m, NextCheck(c, r, ch))
  {
    match ch
    case Fields(_, _, _, _) => FieldLoadKeeps(c, r, m, ch);
    case FirstWord(p) => assert SlotInv(c, r, c.SlotOffset(c.Index(p.sn)));
    case DecodedWord(_, _) =>
    case TensorHeader(_, _, _) =>
    case Done(_, _) =>
    case Idle =>
  }

  lemma {:induction false} BothKeep(c: Config, m: Mapping, moves: seq<Move>)
    requires c.Valid() && PublishesOnceIn(moves)
    ensures var y := RunBoth(c, m, moves);
            Inv(c, y.ring) && y.ring.nextSeq <= |moves| && CheckInv(c, y.ring, m, y.check)
  {
    if moves == [] {
      EmptyOk(c);
    } else {
      var front, move := moves[..|moves| - 1], moves[|moves| - 1];
      BothKeep(c, m, front);
      var y := RunBoth(c, m, front);
      match move
      case InRing(a) =>
        StepKeeps(c, y.ring, a);
        SpendsOne(c, y.ring, a);
        RingKeepsCheck(c, y.ring, a, m, y.check);
      case AdvanceCheck => LoadKeepsCheck(c, y.ring, m, y.check);
      case StartCheck(_) =>
    }
  }

  /**
    Whatever the producer does meanwhile, a progress report that is accepted is about the mapped stream and epoch and a
    sequence number that was published, and claims no more bytes than that publication holds.
   */
  lemma AcceptedProgressIsWithinFrame(c: Config, m: Mapping, moves: seq<Move>)
    requires c.Valid() && PublishesOnceIn(moves)
    requires RunBoth(c, m, moves).check.Done? && RunBoth(c, m, moves).check.verdict == Accepted
    ensures var y := RunBoth(c, m, moves); Within(y.ring, m, y.check.p)
  {
    BothKeep(c, m, moves);
  }

  // ---- A check left alone ----

  /** n loads of a check, with nothing in between. */
  function CheckOn(c: Config, r: Ring, ch: Check, n: nat): Check
    requires c.Valid()
  {
    Iterate((y: Check) => NextCheck(c, r, y), ch, n)
  }

  /** A whole check: the two words, the fields, the word again, the embedded header. */
  function CheckAll(c: Config, r: Ring, p: Progress): Check
    requires c.Valid()
  {
    CheckHeader(c, r, CheckFields(c, r, p))
  }

  /** Its first part, up to the checks on the fields. */
  function CheckFields(c: Config, r: Ring, p: Progress): Check
    requires c.Valid()
  {
    NextCheck(c, r, CheckOn(c, r, NextCheck(c, r, NextCheck(c, r, FirstWord(p))), FIELDS))
  }

  /** Its second part, on the embedded header. */
  function CheckHeader(c: Config, r: Ring, judged: Check): Check
    requires c.Valid()
  {
    NextCheck(c, r, CheckOn(c, r, judged, CELLS - FIELDS))
  }

  lemma LoadingAllFields(c: Config, r: Ring, p: Progress, w: nat, cells: seq<int>)
    requires c.Valid() && CellsAre(c, r, p.sn, cells)
    ensures CheckOn(c, r, Fields(p, w, w, []), FIELDS) == Fields(p, w, w, cells[..FIELDS])
  {
    var f := (y: Check) => NextCheck(c, r, y);
    ghost var keep := (k: nat, y: Check) => k <= FIELDS && y == Fields(p, w, w, cells[..k]);
    forall k: nat, y | k < FIELDS && keep(k, y) ensures keep(k + 1, f(y)) {
      assert cells[..k + 1] == cells[..k] + [cells[k]];
    }
    IterateKeeps(f, Fields(p, w, w, []), FIELDS, keep);
  }

  lemma LoadingHeader(c: Config, r: Ring, p: Progress, fields: seq<int>, cells: seq<int>)
    requires c.Valid() && CellsAre(c, r, p.sn, cells)
    ensures CheckOn(c, r, TensorHeader(p, fields, []), CELLS - FIELDS) == TensorHeader(p, fields, cells[FIELDS..])
  {
    var f := (y: Check) => NextCheck(c, r, y);
    ghost var keep := (k: nat, y: Check) => FIELDS + k <= CELLS
        && y == TensorHeader(p, fields, cells[FIELDS..FIELDS + k]);
    forall k: nat, y | k < CELLS - FIELDS && keep(k, y) ensures keep(k + 1, f(y)) {
      assert cells[FIELDS..FIELDS + k + 1] == cells[FIELDS..FIELDS + k] + [cells[FIELDS + k]];
    }
    assert cells[FIELDS..FIELDS + 0] == [];
    IterateKeeps(f, TensorHeader(p, fields, []), CELLS - FIELDS, keep);
    assert cells[FIELDS..FIELDS + (CELLS - FIELDS)] == cells[FIELDS..];
  }

  lemma SettledCheck(c: Config, r: Ring, p: Progress, ch: Check)
    requires c.Valid() && ch == Done(p, Rejected)
    ensures CheckOn(c, r, ch, CELLS - FIELDS) == ch
  {
    IterateKeeps((y: Check) => NextCheck(c, r, y), ch, CELLS - FIELDS, (k: nat, y: Check) => y == ch);
  }

  /** The fields of a frame pass, up to the byte count. */
  lemma OwnFieldsPass(c: Config, p: Progress, f: Frame)
    requires c.Valid() && FrameOk(c, f)
    ensures var fields := FrameCells(c, f, c.Index(p.sn))[..FIELDS];
            JudgeFields(c, p, fields) ==
            if p.bytes <= |f.payload| then TensorHeader(p, fields, []) else Done(p, Rejected)
  {
    FindPoolFinds(c, f.pool, 0);
  }

  lemma HeaderVerdict(c: Config, r: Ring, p: Progress, fields: seq<int>, f: Frame)
    requires c.Valid() && HoldsFrame(c, r, p.sn, f)
    ensures NextCheck(c, r, TensorHeader(p, fields, FrameCells(c, f, c.Index(p.sn))[FIELDS..])) ==
            Done(p, if Validate(f.tensor).0 then Accepted else Rejected)
  {
    assert FrameCells(c, f, c.Index(p.sn))[FIELDS..] == EncodeHeader(f.tensor);
    HeaderRoundTrip(f.tensor);
  }

  lemma WordsAgree(c: Config, r: Ring, p: Progress, f: Frame)
    requires c.Valid() && HoldsFrame(c, r, p.sn, f)
    ensures var (cells, w) := (FrameCells(c, f, c.Index(p.sn)), 2 * p.sn + 1);
            && NextCheck(c, r, NextCheck(c, r, FirstWord(p))) == Fields(p, w, w, [])
            && NextCheck(c, r, Fields(p, w, w, cells[..FIELDS])) == JudgeFields(c, p, cells[..FIELDS])
  {
  }

  /** A check left alone, of a number whose frame the slot holds, accepts exactly the reports within that frame. */
  lemma CheckAloneIsExact(c: Config, r: Ring, p: Progress, f: Frame)
    requires c.Valid() && HoldsFrame(c, r, p.sn, f)
    ensures CheckAll(c, r, p) == Done(p, if p.bytes <= |f.payload| && Validate(f.tensor).0 then Accepted else Rejected)
  {
    var cells, w := FrameCells(c, f, c.Index(p.sn)), 2 * p.sn + 1;
    WordsAgree(c, r, p, f);
    LoadingAllFields(c, r, p, w, cells);
    OwnFieldsPass(c, p, f);
    if p.bytes <= |f.payload| {
      LoadingHeader(c, r, p, cells[..FIELDS], cells);
      HeaderVerdict(c, r, p, cells[..FIELDS], f);
    } else {
      SettledCheck(c, r, p, Done(p, Rejected));
    }
  }
}
