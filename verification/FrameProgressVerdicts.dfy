/** Why a progress check answers as it does: unsure exactly when the frame has moved on, rejected only for cause. */
module FrameProgressVerdicts {
  import opened Bits
  import opened Options
  import opened Tensor
  import opened FrameRing
  import opened FrameRingSafety
  import opened FrameRingProgress
  import opened FrameProgressCheck
  import opened FrameRingReads

  /** A report on another stream or epoch than the mapped one is left open; any other is looked into. */
  lemma ReportsOnOthersAreLeftOpen(m: Mapping, p: Progress)
    ensures Start(m, p) == if p.stream == m.stream && p.epoch == m.epoch then FirstWord(p) else Done(p, Unsure)
  {
  }

  /** The first look at the commit word: uncommitted leaves the report open, another number rejects it. */
  lemma FirstWordVerdict(c: Config, r: Ring, p: Progress)
    requires c.Valid()
    ensures var word := r.At(c.SlotOffset(c.Index(p.sn))).word;
            NextCheck(c, r, FirstWord(p)) ==
              if word == 2 * p.sn + 1 then DecodedWord(p, word)
              else if word % 2 == 0 then Done(p, Unsure) else Done(p, Rejected)
  {
  }

  /** The decoder's look at the commit word saw it standing if it stands now. */
  ghost predicate AgainInv(c: Config, r: Ring, ch: Check)
    requires c.Valid()
  {
    ch.Fields? && r.At(c.SlotOffset(c.Index(ch.p.sn))).word == 2 * ch.p.sn + 1 ==> ch.again == 2 * ch.p.sn + 1
  }

  lemma RingKeepsAgain(c: Config, r: Ring, a: Action, m: Mapping, ch: Check)
    requires c.Valid() && Inv(c, r) && !a.CommitAgain? && CheckInv(c, r, m, ch) && AgainInv(c, r, ch)
    ensures AgainInv(c, Step(c, r, a), ch)
  {
    if ch.Fields? { StepStays(c, r, a, ch.p.sn); }
  }

  lemma LoadKeepsAgain(c: Config, r: Ring, ch: Check)
    requires c.Valid() && AgainInv(c, r, ch)
    ensures AgainInv(c, r, NextCheck(c, r, ch))
  {
    match ch
    case Fields(p, first, again, got) => FieldKeepsAgain(c, r, p, first, again, got);
    case TensorHeader(_, _, _) =>
    case FirstWord(_) =>
    case DecodedWord(_, _) =>
    case Done(_, _) =>
    case Idle =>
  }

  lemma FieldKeepsAgain(c: Config, r: Ring, p: Progress, first: nat, again: nat, got: seq<int>)
    requires c.Valid() && AgainInv(c, r, Fields(p, first, again, got))
    ensures AgainInv(c, r, NextField(c, r.At(c.SlotOffset(c.Index(p.sn))), Fields(p, first, again, got)))
  {
  }

  lemma {:induction false} BothKeepAgain(c: Config, m: Mapping, moves: seq<Move>)
    requires c.Valid() && PublishesOnceIn(moves)
    ensures AgainInv(c, RunBoth(c, m, moves).ring, RunBoth(c, m, moves).check)
  {
    if moves != [] {
      var front, move := moves[..|moves| - 1], moves[|moves| - 1];
      BothKeepAgain(c, m, front);
      BothKeep(c, m, front);
      var y := RunBoth(c, m, front);
      match move
      case InRing(a) => RingKeepsAgain(c, y.ring, a, m, y.check);
      case AdvanceCheck => LoadKeepsAgain(c, y.ring, y.check);
      case StartCheck(_) =>
    }
  }

  /**
    Under every interleaving, with all fields loaded: a frame whose commit word still stands has its report judged by
    its payload, and a frame that has moved on leaves the report open.
   */
  lemma FieldVerdict(c: Config, m: Mapping, moves: seq<Move>)
    requires c.Valid() && PublishesOnceIn(moves)
    requires RunBoth(c, m, moves).check.Fields? && |RunBoth(c, m, moves).check.got| == FIELDS
    ensures var y := RunBoth(c, m, moves);
            var p := y.check.p;
            && p.sn in y.ring.published
            && NextCheck(c, y.ring, y.check) ==
                 if y.ring.At(c.SlotOffset(c.Index(p.sn))).word != 2 * p.sn + 1 then Done(p, Unsure)
                 else if p.bytes <= |y.ring.published[p.sn].payload| then TensorHeader(p, y.check.got, [])
                 else Done(p, Rejected)
  {
    BothKeep(c, m, moves);
    BothKeepAgain(c, m, moves);
    JudgedFields(c, RunBoth(c, m, moves).ring, m, RunBoth(c, m, moves).check);
  }

  lemma JudgedFields(c: Config, r: Ring, m: Mapping, ch: Check)
    requires c.Valid() && Inv(c, r) && CheckInv(c, r, m, ch) && AgainInv(c, r, ch) && ch.Fields? && |ch.got| == FIELDS
    ensures ch.p.sn in r.published
    ensures NextCheck(c, r, ch) ==
              if r.At(c.SlotOffset(c.Index(ch.p.sn))).word != 2 * ch.p.sn + 1 then Done(ch.p, Unsure)
              else if ch.p.bytes <= |r.published[ch.p.sn].payload| then TensorHeader(ch.p, ch.got, [])
              else Done(ch.p, Rejected)
  {
    var offset := c.SlotOffset(c.Index(ch.p.sn));
    assert SlotInv(c, r, offset);
    assert NextCheck(c, r, ch) == NextField(c, r.At(offset), ch);
    if r.At(offset).word == 2 * ch.p.sn + 1 {
      var f := r.published[ch.p.sn];
      assert ch.got == FrameCells(c, f, c.Index(ch.p.sn))[..FIELDS];
      OwnFieldsPass(c, ch.p, f);
    }
  }

  /** Fields of any origin allow the report: a known pool with room for the payload, which holds the reported bytes. */
  ghost predicate Allow(c: Config, p: Progress, fields: seq<int>)
    requires |fields| == FIELDS
  {
    && (exists q :: 0 <= q < |c.pools| && c.pools[q].id == fields[2] && fields[0] <= c.pools[q].stride)
    && p.bytes <= fields[0]
    && fields[6] == 192
  }

  /**
    Whatever a slot held and holds, with all fields loaded: the report is left open exactly when the commit word is not
    the same committed one at all three loads, and passed on exactly when that word and the fields are right.
   */
  lemma LoadedVerdict(c: Config, s: Slot, p: Progress, first: nat, again: nat, fields: seq<int>)
    requires c.Valid() && |fields| == FIELDS
    ensures NextField(c, s, Fields(p, first, again, fields)) ==
              if s.word % 2 == 0 || !(first == again == s.word) then Done(p, Unsure)
              else if s.word == 2 * p.sn + 1 && Allow(c, p, fields) then TensorHeader(p, fields, [])
              else Done(p, Rejected)
  {
    if Allow(c, p, fields) {
      var q :| 0 <= q < |c.pools| && c.pools[q].id == fields[2] && fields[0] <= c.pools[q].stride;
      PoolsTellApart(c, fields[2], q);
    }
  }

  /** The embedded header of any origin, with all its words loaded, is accepted exactly when it validates. */
  lemma HeaderVerdict(s: Slot, p: Progress, cells: seq<int>)
    requires |cells| == CELLS
    ensures NextHeaderWord(s, TensorHeader(p, cells[..FIELDS], cells[FIELDS..])) ==
              Done(p, if HasTensor(cells) then Accepted else Rejected)
  {
    DecodedIffNamed(cells[FIELDS..]);
    assert cells[FIELDS..][..4] == cells[FIELDS..FIELDS + 4];
  }
}
