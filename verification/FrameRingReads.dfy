/** How reads end: what every view guarantees whatever the slot holds, and that no read is refused without cause. */
module FrameRingReads {
  import opened Bits
  import opened Options
  import opened Tensor
  import opened FrameRing
  import opened FrameRingSafety
  import opened FrameRingProgress
  import opened Folds

  // ---- Views are safe whatever was stored ----

  /** A view that stays inside its mapping: a pool that is mapped, no more bytes than its stride, the slot asked for. */
  ghost predicate SafeView(c: Config, sn: nat, view: View)
    requires c.Valid()
  {
    && view.pool < |c.pools| && c.pools[view.pool].id == view.poolId
    && view.payloadLen <= c.pools[view.pool].stride && view.payloadSlot == c.Index(sn)
    && Sensible(view.tensor)
  }

  /** What validation leaves of a header it accepts. */
  predicate Sensible(h: Header) {
    h.Shaped() && 1 <= h.ndims <= MAX_DIMS && DtypeSize(h.dtype) >= 1 && h.majorOrder in {ROW, COLUMN} && ProgressOk(h)
  }

  lemma ValidatedIsSensible(h: Header)
    requires h.Shaped() && Validate(h).0
    ensures Sensible(Validate(h).1)
  {
  }

  ghost predicate SafeReader(c: Config, reader: Reader)
    requires c.Valid()
  {
    match reader
    case SecondLoad(sn, _, view) => SafeView(c, sn, view)
    case Finished(sn, result) => result.Got? ==> SafeView(c, sn, result.view)
    case _ => true
  }

  lemma InterpretedIsSafe(c: Config, sn: nat, cells: seq<int>)
    requires c.Valid() && |cells| == CELLS && Interpret(c, c.Index(sn), cells).Some?
    ensures SafeView(c, sn, Interpret(c, c.Index(sn), cells).value)
  {
    ValidatedIsSensible(DecodeHeader(cells[FIELDS..]).value);
  }

  lemma NextReaderIsSafe(c: Config, r: Ring, reader: Reader)
    requires c.Valid() && SafeReader(c, reader)
    ensures SafeReader(c, NextReader(c, r, reader))
  {
    if reader.Resting? || reader.Finished? {
      assert NextReader(c, r, reader) == reader;
    } else {
      var s := r.At(c.SlotOffset(c.Index(reader.sn)));
      if reader.FirstLoad? { FirstIsSafe(c, s, reader.sn); }
      else if reader.Reading? { FieldIsSafe(c, s, reader.sn, reader.first, reader.got); }
      else { SecondIsSafe(c, s, reader.sn, reader.first, reader.view); }
    }
  }

  lemma FirstIsSafe(c: Config, s: Slot, sn: nat)
    requires c.Valid()
    ensures SafeReader(c, AfterFirst(s, sn))
  {
  }

  lemma SecondIsSafe(c: Config, s: Slot, sn: nat, first: nat, view: View)
    requires c.Valid() && SafeView(c, sn, view)
    ensures SafeReader(c, AfterSecond(s, sn, first, view))
  {
  }

  lemma FieldIsSafe(c: Config, s: Slot, sn: nat, first: nat, got: seq<int>)
    requires c.Valid()
    ensures SafeReader(c, AfterField(c, s, sn, first, got))
  {
    if |got| == CELLS && Interpret(c, c.Index(sn), got).Some? { InterpretedIsSafe(c, sn, got); }
  }

  lemma StepKeepsSafeViews(c: Config, r: Ring, a: Action, id: nat)
    requires c.Valid() && SafeReader(c, r.Reader(id))
    ensures SafeReader(c, Step(c, r, a).Reader(id))
  {
    match a
    case AdvanceRead(other) => NextReaderIsSafe(c, r, r.Reader(id));
    case Advance => AdvanceFrame(c, r);
    case Offer(_, _, _, _) =>
    case TryClaim(_) =>
    case WriteClaim(_, _, _) =>
    case Commit(_, _, _, _) =>
    case CommitAgain(_, _, _, _) =>
    case StartRead(_, _) =>
  }

  /** Over every schedule, claims committed twice included, a view that is returned stays inside its mapping. */
  lemma {:induction false} EveryViewIsSafe(c: Config, s: Schedule, id: nat)
    requires c.Valid()
    ensures SafeReader(c, Run(c, s).Reader(id))
    decreases |s|
  {
    if s != [] {
      EveryViewIsSafe(c, s[..|s| - 1], id);
      StepKeepsSafeViews(c, Run(c, s[..|s| - 1]), s[|s| - 1], id);
    }
  }

  // ---- A read left alone, of any slot ----

  /** The first words of an embedded header name its block length, template, schema and version. */
  lemma DecodedIffNamed(words: seq<int>)
    requires |words| == 10 + 2 * MAX_DIMS
    ensures DecodeHeader(words).Some? <==> words[..4] == [184, 52, 900, 1]
  {
    assert words[..4] == [words[0], words[1], words[2], words[3]];
  }

  /** The fields describe the slot they are in: offset zero, their own index, a mapped pool that is large enough. */
  ghost predicate Describes(c: Config, index: nat, cells: seq<int>)
    requires |cells| == CELLS
  {
    && cells[3] == 0 && cells[1] == index && cells[6] == 8 + 184
    && exists p :: 0 <= p < |c.pools| && c.pools[p].id == cells[2] && cells[0] <= c.pools[p].stride
  }

  /** The embedded header is a tensor header that validates. */
  ghost predicate HasTensor(cells: seq<int>)
    requires |cells| == CELLS
  {
    cells[FIELDS..FIELDS + 4] == [184, 52, 900, 1] && Validate(DecodedTensor(cells)).0
  }

  function DecodedTensor(cells: seq<int>): (h: Header)
    requires |cells| == CELLS
    ensures h.Shaped()
  {
    match DecodeHeader(cells[FIELDS..])
    case Some(h) => h
    case None => Header(0, 0, 0, 0, 0, seq(MAX_DIMS, _ => 0), seq(MAX_DIMS, _ => 0))
  }

  lemma PoolsTellApart(c: Config, id: nat, p: nat)
    requires c.Valid() && p < |c.pools| && c.pools[p].id == id
    ensures c.FindPool(id) == Some(p)
  {
    FindPoolFinds(c, p, 0);
  }

  lemma AcceptedIffDescribes(c: Config, index: nat, cells: seq<int>)
    requires c.Valid() && |cells| == CELLS
    ensures FieldsAccepted(c, index, cells) <==> Describes(c, index, cells)
    ensures FieldsAccepted(c, index, cells[..FIELDS]) <==> FieldsAccepted(c, index, cells)
  {
    if Describes(c, index, cells) {
      var p :| 0 <= p < |c.pools| && c.pools[p].id == cells[2] && cells[0] <= c.pools[p].stride;
      PoolsTellApart(c, cells[2], p);
    }
  }

  lemma InterpretedIff(c: Config, index: nat, cells: seq<int>)
    requires c.Valid() && |cells| == CELLS
    ensures Interpret(c, index, cells).Some? <==> Describes(c, index, cells) && HasTensor(cells)
    ensures Interpret(c, index, cells).Some? ==>
              var v := Interpret(c, index, cells).value;
              && v.payloadLen == cells[0] && v.payloadSlot == cells[1] && v.poolId == cells[2]
              && v.timestamp == cells[4] && v.metaVersion == cells[5] && v.tensor == Validate(DecodedTensor(cells)).1
  {
    AcceptedIffDescribes(c, index, cells);
    DecodedIffNamed(cells[FIELDS..]);
    assert cells[FIELDS..][..4] == cells[FIELDS..FIELDS + 4];
  }

  lemma LoadsSettled(c: Config, r: Ring, id: nat, n: nat)
    requires c.Valid() && r.Reader(id).Finished?
    ensures Loads(c, r, id, n).Reader(id) == r.Reader(id)
  {
    IterateKeeps(Load(c, id), r, n, (k: nat, y: Ring) => y.Reader(id) == r.Reader(id));
  }

  lemma LoadOnce(c: Config, r: Ring, id: nat)
    requires c.Valid()
    ensures Loads(c, r, id, 1).Reader(id) == NextReader(c, r, r.Reader(id)) && Loads(c, r, id, 1).slots == r.slots
  {
    assert Loads(c, r, id, 0) == r;
    assert Loads(c, r, id, 1) == DoAdvanceRead(c, r, id);
  }

  lemma LoadsAdd(c: Config, r: Ring, id: nat, m: nat, n: nat)
    requires c.Valid()
    ensures Loads(c, r, id, m + n) == Loads(c, Loads(c, r, id, m), id, n)
  {
    IterateAdd(Load(c, id), r, m, n);
  }

  /** What a read left alone makes of a slot: late, skipped, or the view of its fields. */
  ghost predicate MadeOf(c: Config, s: Slot, sn: nat, result: ReadResult)
    requires c.Valid() && |s.cells| == CELLS
  {
    if s.word % 2 == 0 then result == Late
    else if !Describes(c, c.Index(sn), s.cells) || !HasTensor(s.cells) then result == Skipped
    else if s.word / 2 != sn then result == Late
    else
      && result.Got? && SafeView(c, sn, result.view)
      && result.view.payloadLen == s.cells[0] && result.view.poolId == s.cells[2]
      && result.view.timestamp == s.cells[4] && result.view.metaVersion == s.cells[5]
      && result.view.tensor == Validate(DecodedTensor(s.cells)).1
  }

  /** Whatever the slot holds, a read left alone ends in the way its word and fields call for. */
  lemma ReadAloneOutcome(c: Config, r: Ring, id: nat, sn: nat)
    requires c.Valid() && |r.At(c.SlotOffset(c.Index(sn))).cells| == CELLS
    ensures Read(c, r, id, sn).Reader(id).Finished? && Read(c, r, id, sn).Reader(id).sn == sn
    ensures MadeOf(c, r.At(c.SlotOffset(c.Index(sn))), sn, Read(c, r, id, sn).Reader(id).result)
  {
    var s, start := r.At(c.SlotOffset(c.Index(sn))), DoStartRead(r, id, sn);
    var r1 := Loads(c, start, id, 1);
    LoadOnce(c, start, id);
    if s.word % 2 == 0 {
      LoadsSettled(c, r1, id, CELLS);
      LoadsSettled(c, Loads(c, r1, id, CELLS), id, 2);
    } else {
      assert HasRead(r1, id, sn, s.word, []) && CellsAre(c, r1, sn, s.cells);
      AcceptedIffDescribes(c, c.Index(sn), s.cells);
      if Describes(c, c.Index(sn), s.cells) {
        ReadDescribed(c, r1, id, sn, s);
      } else {
        ReadUndescribed(c, r1, id, sn, s);
      }
    }
  }

  lemma ReadUndescribed(c: Config, r: Ring, id: nat, sn: nat, s: Slot)
    requires c.Valid() && |s.cells| == CELLS && HasRead(r, id, sn, s.word, []) && CellsAre(c, r, sn, s.cells)
    requires !FieldsAccepted(c, c.Index(sn), s.cells[..FIELDS])
    ensures FinishRead(c, r, id, 0).Reader(id) == Finished(sn, Skipped)
  {
    var before := Loads(c, r, id, FIELDS - 1);
    assert s.cells[..0] == [];
    LoadingFields(c, r, id, sn, s.word, s.cells, 0, FIELDS - 1, s.cells);
    LoadsOnlyRead(c, r, id, FIELDS - 1, c.SlotOffset(c.Index(sn)));
    LoadOnce(c, before, id);
    PrefixGrows(s.cells[..FIELDS - 1], s.cells);
    SkipsLast(c, before.At(c.SlotOffset(c.Index(sn))), sn, s.word, s.cells[..FIELDS - 1]);
    LoadsAdd(c, r, id, FIELDS - 1, 1);
    SkippedStays(c, r, id, sn);
  }

  /** The last of the slot's own fields, when they are refused. */
  lemma SkipsLast(c: Config, s: Slot, sn: nat, first: nat, got: seq<int>)
    requires c.Valid() && |got| == FIELDS - 1 && |s.cells| == CELLS
    requires !FieldsAccepted(c, c.Index(sn), got + [s.cells[|got|]])
    ensures AfterField(c, s, sn, first, got) == Finished(sn, Skipped)
  {
  }

  lemma SkippedStays(c: Config, r: Ring, id: nat, sn: nat)
    requires c.Valid() && Loads(c, r, id, FIELDS).Reader(id) == Finished(sn, Skipped)
    ensures FinishRead(c, r, id, 0).Reader(id) == Finished(sn, Skipped)
  {
    LoadsAdd(c, r, id, FIELDS, CELLS - FIELDS);
    LoadsSettled(c, Loads(c, r, id, FIELDS), id, CELLS - FIELDS);
    LoadsSettled(c, Loads(c, r, id, CELLS), id, 2);
  }

  lemma PrefixGrows(got: seq<int>, cells: seq<int>)
    requires got <= cells
    ensures |got| < |cells| ==> got + [cells[|got|]] == cells[..|got| + 1]
    ensures |got| == |cells| ==> got == cells
  {
  }

  lemma ReadDescribed(c: Config, r: Ring, id: nat, sn: nat, s: Slot)
    requires c.Valid() && |s.cells| == CELLS && s.word % 2 == 1
    requires HasRead(r, id, sn, s.word, []) && CellsAre(c, r, sn, s.cells) && r.At(c.SlotOffset(c.Index(sn))) == s
    requires Describes(c, c.Index(sn), s.cells)
    ensures FinishRead(c, r, id, 0).Reader(id).Finished? && FinishRead(c, r, id, 0).Reader(id).sn == sn
    ensures MadeOf(c, s, sn, FinishRead(c, r, id, 0).Reader(id).result)
  {
    var full := Loads(c, r, id, CELLS);
    assert s.cells[..0] == [] && s.cells[..CELLS] == s.cells;
    AcceptedIffDescribes(c, c.Index(sn), s.cells);
    LoadingFields(c, r, id, sn, s.word, s.cells, 0, CELLS, s.cells);
    LoadsOnlyRead(c, r, id, CELLS, c.SlotOffset(c.Index(sn)));
    FullReadEnds(c, full, id, sn, s);
  }

  lemma FullReadEnds(c: Config, r: Ring, id: nat, sn: nat, s: Slot)
    requires c.Valid() && |s.cells| == CELLS && s.word % 2 == 1 && Describes(c, c.Index(sn), s.cells)
    requires HasRead(r, id, sn, s.word, s.cells) && r.At(c.SlotOffset(c.Index(sn))) == s
    ensures Loads(c, r, id, 2).Reader(id).Finished? && Loads(c, r, id, 2).Reader(id).sn == sn
    ensures MadeOf(c, s, sn, Loads(c, r, id, 2).Reader(id).result)
  {
    var judged := Loads(c, r, id, 1);
    LoadOnce(c, r, id);
    LoadsAdd(c, r, id, 1, 1);
    LoadOnce(c, judged, id);
    assert judged.Reader(id) == AfterField(c, s, sn, s.word, s.cells);
    AllFieldsJudged(c, s, sn);
    if judged.Reader(id).Finished? { LoadsSettled(c, judged, id, 1); }
  }

  /** The two steps that follow the last field. */
  lemma AllFieldsJudged(c: Config, s: Slot, sn: nat)
    requires c.Valid() && |s.cells| == CELLS && s.word % 2 == 1 && Describes(c, c.Index(sn), s.cells)
    ensures var judged := AfterField(c, s, sn, s.word, s.cells);
            if HasTensor(s.cells) then
              && judged.SecondLoad? && judged.sn == sn && judged.first == s.word
              && AfterSecond(s, sn, s.word, judged.view).Finished? && AfterSecond(s, sn, s.word, judged.view).sn == sn
              && MadeOf(c, s, sn, AfterSecond(s, sn, s.word, judged.view).result)
            else judged == Finished(sn, Skipped)
  {
    InterpretedIff(c, c.Index(sn), s.cells);
    if HasTensor(s.cells) { InterpretedIsSafe(c, sn, s.cells); }
  }

  // ---- Refusals under interleaving ----

  /** The read of reader id that ends with this step. */
  ghost predicate EndsNow(c: Config, r: Ring, id: nat, result: ReadResult)
    requires c.Valid()
  {
    (r.Reader(id).FirstLoad? || r.Reader(id).Reading? || r.Reader(id).SecondLoad?)
    && NextReader(c, r, r.Reader(id)) == Finished(r.Reader(id).sn, result)
  }

  /**
    A read is late only if the slot does not hold the number asked for, committed, or no longer the word first seen.
   */
  lemma LateNeedsCause(c: Config, r: Ring, id: nat)
    requires c.Valid() && EndsNow(c, r, id, Late)
    ensures var (reader, word) := (r.Reader(id), r.At(c.SlotOffset(c.Index(r.Reader(id).sn))).word);
            || (reader.FirstLoad? && word % 2 == 0)
            || (reader.SecondLoad? && (word != reader.first || word != 2 * reader.sn + 1))
  {
    var reader := r.Reader(id);
    var s := r.At(c.SlotOffset(c.Index(reader.sn)));
    match reader
    case FirstLoad(sn) => assert AfterFirst(s, sn) == Finished(sn, Late);
    case Reading(sn, first, got) => FieldsAreNeverLate(c, s, sn, first, got);
    case SecondLoad(sn, first, view) => assert AfterSecond(s, sn, first, view) == Finished(sn, Late);
  }

  lemma FieldsAreNeverLate(c: Config, s: Slot, sn: nat, first: nat, got: seq<int>)
    requires c.Valid()
    ensures AfterField(c, s, sn, first, got) != Finished(sn, Late)
  {
  }

  /**
    A read is skipped only for what it loaded: if its commit word was and still is that of the number asked for, then
    the frame published under that number has a tensor header that does not validate.
   */
  lemma SkipNeedsCause(c: Config, s: Schedule, id: nat)
    requires c.Valid() && PublishesOnce(s) && EndsNow(c, Run(c, s), id, Skipped)
    ensures var (r, sn) := (Run(c, s), Run(c, s).Reader(id).sn);
            && r.Reader(id).Reading?
            && (r.Reader(id).first == r.At(c.SlotOffset(c.Index(sn))).word == 2 * sn + 1 ==>
                  sn in r.published && WireHeader(r.published[sn].tensor) && !Validate(r.published[sn].tensor).0)
  {
    RunKeeps(c, s);
    var r := Run(c, s);
    var sn := r.Reader(id).sn;
    assert SlotInv(c, r, c.SlotOffset(c.Index(sn))) && ReaderInv(c, r, id);
    if r.Reader(id).Reading? && r.Reader(id).first == r.At(c.SlotOffset(c.Index(sn))).word == 2 * sn + 1 {
      OwnFieldsNeverSkip(c, r, sn, r.Reader(id).got);
    }
  }

  /** The two places where fields are refused. */
  lemma SkippedWhere(c: Config, s: Slot, sn: nat, first: nat, got: seq<int>)
    requires c.Valid() && |got| <= CELLS == |s.cells| && AfterField(c, s, sn, first, got) == Finished(sn, Skipped)
    ensures || (|got| == CELLS && Interpret(c, c.Index(sn), got).None?)
            || (|got| == FIELDS - 1 && !FieldsAccepted(c, c.Index(sn), got + [s.cells[|got|]]))
  {
  }

  lemma OwnFieldsNeverSkip(c: Config, r: Ring, sn: nat, got: seq<int>)
    requires c.Valid() && SlotInv(c, r, c.SlotOffset(c.Index(sn))) && r.At(c.SlotOffset(c.Index(sn))).word == 2 * sn + 1
    requires |got| <= CELLS && got <= r.At(c.SlotOffset(c.Index(sn))).cells
    requires AfterField(c, r.At(c.SlotOffset(c.Index(sn))), sn, 2 * sn + 1, got) == Finished(sn, Skipped)
    ensures sn in r.published && WireHeader(r.published[sn].tensor) && !Validate(r.published[sn].tensor).0
  {
    var s := r.At(c.SlotOffset(c.Index(sn)));
    assert Holds(c, r, c.SlotOffset(c.Index(sn)), sn);
    SkippedWhere(c, s, sn, 2 * sn + 1, got);
    OwnFrameSkipped(c, sn, r.published[sn], got);
  }

  lemma OwnFrameSkipped(c: Config, sn: nat, f: Frame, got: seq<int>)
    requires c.Valid() && FrameOk(c, f) && |got| <= CELLS && got <= FrameCells(c, f, c.Index(sn))
    requires || (|got| == CELLS && Interpret(c, c.Index(sn), got).None?)
             || (|got| == FIELDS - 1 && !FieldsAccepted(c, c.Index(sn), got + [FrameCells(c, f, c.Index(sn))[|got|]]))
    ensures !Validate(f.tensor).0
  {
    PrefixGrows(got, FrameCells(c, f, c.Index(sn)));
    InterpretOwnFrame(c, sn, f);
  }
}
