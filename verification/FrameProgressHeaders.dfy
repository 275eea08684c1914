/**
  Whose tensor header a progress check judges: the frame's own as long as the commit word stands, and otherwise that of
  whatever frame has taken the slot since.
 */
module FrameProgressHeaders {
  import opened Bits
  import opened Options
  import opened Tensor
  import TensorAddressing
  import opened FrameRing
  import opened FrameRingSafety
  import opened FrameRingProgress
  import opened FrameProgressCheck
  import opened Folds
  import opened FrameRingSchedules

  function JudgedBy(p: Progress, h: Header): Check
    requires h.Shaped()
  {
    Done(p, if Validate(h).0 then Accepted else Rejected)
  }

  // ---- The commit word still stands ----

  /** The header words loaded are the frame's own if its commit word stands. */
  ghost predicate HeaderInv(c: Config, r: Ring, ch: Check)
    requires c.Valid()
  {
    ch.TensorHeader? ==>
      var s := r.At(c.SlotOffset(c.Index(ch.p.sn)));
      && ch.p.sn in r.done && ch.p.sn in r.published && |ch.got| <= CELLS - FIELDS
      && (s.word == 2 * ch.p.sn + 1 ==> |s.cells| == CELLS && ch.got == s.cells[FIELDS..FIELDS + |ch.got|])
  }

  lemma RingKeepsHeader(c: Config, r: Ring, a: Action, ch: Check)
    requires c.Valid() && Inv(c, r) && !a.CommitAgain? && HeaderInv(c, r, ch)
    ensures HeaderInv(c, Step(c, r, a), ch)
  {
    if ch.TensorHeader? {
      StepStays(c, r, a, ch.p.sn);
      StaysKeepsHeader(c, r, Step(c, r, a), ch);
    }
  }

  lemma StaysKeepsHeader(c: Config, r: Ring, r': Ring, ch: Check)
    requires c.Valid() && HeaderInv(c, r, ch) && (ch.TensorHeader? ==> Stays(r, r', ch.p.sn))
    ensures HeaderInv(c, r', ch)
  {
  }

  lemma LoadKeepsHeader(c: Config, r: Ring, m: Mapping, ch: Check)
    requires c.Valid() && Inv(c, r) && CheckInv(c, r, m, ch) && HeaderInv(c, r, ch)
    ensures HeaderInv(c, r, NextCheck(c, r, ch))
  {
    match ch
    case TensorHeader(p, _, got) =>
      var s := r.At(c.SlotOffset(c.Index(p.sn)));
      assert SlotInv(c, r, c.SlotOffset(c.Index(p.sn)));
      if |got| < CELLS - FIELDS {
        assert s.cells[FIELDS..FIELDS + |got| + 1] == s.cells[FIELDS..FIELDS + |got|] + [s.cells[FIELDS + |got|]];
      }
    case Fields(_, _, _, _) => FieldsKeepHeader(c, r, m, ch);
    case FirstWord(_) =>
    case DecodedWord(_, _) =>
    case Done(_, _) =>
    case Idle =>
  }

  lemma FieldsKeepHeader(c: Config, r: Ring, m: Mapping, ch: Check)
    requires c.Valid() && Inv(c, r) && ch.Fields? && CheckInv(c, r, m, ch)
    ensures HeaderInv(c, r, NextCheck(c, r, ch))
  {
    assert SlotInv(c, r, c.SlotOffset(c.Index(ch.p.sn)));
  }

  lemma {:induction false} BothKeepHeader(c: Config, m: Mapping, moves: seq<Move>)
    requires c.Valid() && PublishesOnceIn(moves)
    ensures HeaderInv(c, RunBoth(c, m, moves).ring, RunBoth(c, m, moves).check)
  {
    if moves != [] {
      var front, move := moves[..|moves| - 1], moves[|moves| - 1];
      BothKeepHeader(c, m, front);
      BothKeep(c, m, front);
      var y := RunBoth(c, m, front);
      match move
      case InRing(a) => RingKeepsHeader(c, y.ring, a, y.check);
      case AdvanceCheck => LoadKeepsHeader(c, y.ring, m, y.check);
      case StartCheck(_) =>
    }
  }

  /**
    Under every interleaving: if the commit word still stands once all header words are loaded, the check judges the
    header of the frame itself, whatever becomes of the ring afterwards.
   */
  lemma StandingWordJudgesOwnHeader(c: Config, m: Mapping, moves: seq<Move>, later: Ring)
    requires c.Valid() && PublishesOnceIn(moves)
    requires RunBoth(c, m, moves).check.TensorHeader? && |RunBoth(c, m, moves).check.got| == CELLS - FIELDS
    requires var y := RunBoth(c, m, moves); y.ring.At(c.SlotOffset(c.Index(y.check.p.sn))).word == 2 * y.check.p.sn + 1
    ensures var y := RunBoth(c, m, moves);
            && y.check.p.sn in y.ring.published && WireHeader(y.ring.published[y.check.p.sn].tensor)
            && NextCheck(c, later, y.check) == JudgedBy(y.check.p, y.ring.published[y.check.p.sn].tensor)
  {
    BothKeep(c, m, moves);
    BothKeepHeader(c, m, moves);
    OwnHeader(c, RunBoth(c, m, moves).ring, RunBoth(c, m, moves).check, later);
  }

  lemma OwnHeader(c: Config, r: Ring, ch: Check, later: Ring)
    requires c.Valid() && Inv(c, r) && HeaderInv(c, r, ch) && ch.TensorHeader? && |ch.got| == CELLS - FIELDS
    requires r.At(c.SlotOffset(c.Index(ch.p.sn))).word == 2 * ch.p.sn + 1
    ensures ch.p.sn in r.published && WireHeader(r.published[ch.p.sn].tensor)
    ensures NextCheck(c, later, ch) == JudgedBy(ch.p, r.published[ch.p.sn].tensor)
  {
    var offset := c.SlotOffset(c.Index(ch.p.sn));
    var s, f := r.At(offset), r.published[ch.p.sn];
    assert SlotInv(c, r, offset) && Holds(c, r, offset, ch.p.sn);
    assert ch.got == s.cells[FIELDS..];
    HeaderWordsJudged(c, later, ch, f, ch.p.sn);
  }

  /** All header words of a frame loaded, from whatever slot: the verdict is about that frame. */
  lemma HeaderWordsJudged(c: Config, r: Ring, ch: Check, f: Frame, sn: nat)
    requires c.Valid() && FrameOk(c, f) && ch.TensorHeader? && ch.got == FrameCells(c, f, c.Index(sn))[FIELDS..]
    ensures NextCheck(c, r, ch) == JudgedBy(ch.p, f.tensor)
  {
    assert FrameCells(c, f, c.Index(sn))[FIELDS..] == EncodeHeader(f.tensor);
    HeaderRoundTrip(f.tensor);
  }

  // ---- Another frame has taken the slot ----

  /**
    Fields judged while the slot holds one frame, header words loaded while it holds another: the other's header
    decides.
   */
  lemma LaterHeaderIsJudged(c: Config, r: Ring, r': Ring, p: Progress, f: Frame, sn: nat, g: Frame)
    requires c.Valid() && HoldsFrame(c, r, p.sn, f) && HoldsFrame(c, r', sn, g) && p.bytes <= |f.payload|
    requires c.SlotOffset(c.Index(sn)) == c.SlotOffset(c.Index(p.sn))
    ensures CheckHeader(c, r', CheckFields(c, r, p)) == JudgedBy(p, g.tensor)
  {
    var cells, late := FrameCells(c, f, c.Index(p.sn)), FrameCells(c, g, c.Index(sn));
    FieldsPass(c, r, p, f);
    LoadingHeader(c, r', p, cells[..FIELDS], late);
    HeaderWordsJudged(c, r', TensorHeader(p, cells[..FIELDS], late[FIELDS..]), g, sn);
  }

  lemma FieldsPass(c: Config, r: Ring, p: Progress, f: Frame)
    requires c.Valid() && HoldsFrame(c, r, p.sn, f) && p.bytes <= |f.payload|
    ensures CheckFields(c, r, p) == TensorHeader(p, FrameCells(c, f, c.Index(p.sn))[..FIELDS], [])
  {
    var cells := FrameCells(c, f, c.Index(p.sn));
    WordsAgree(c, r, p, f);
    LoadingAllFields(c, r, p, 2 * p.sn + 1, cells);
    OwnFieldsPass(c, p, f);
  }

  // ---- A run in which that happens ----

  function Moves(c: Config, m: Mapping): (System, Move) -> System
    requires c.Valid()
  {
    (y, move) => FrameProgressCheck.Advance(c, m, y, move)
  }

  lemma {:induction false} RunBothIsFold(c: Config, m: Mapping, moves: seq<Move>)
    requires c.Valid()
    ensures RunBoth(c, m, moves) == Fold(Moves(c, m), System(Empty, Idle), moves)
    decreases |moves|
  {
    if moves != [] { RunBothIsFold(c, m, moves[..|moves| - 1]); }
  }

  function InRings(s: Schedule): (moves: seq<Move>)
    ensures |moves| == |s|
  {
    seq(|s|, k requires 0 <= k < |s| => InRing(s[k]))
  }

  lemma {:induction false} InRingsRun(c: Config, m: Mapping, y: System, s: Schedule)
    requires c.Valid()
    ensures Fold(Moves(c, m), y, InRings(s)) == y.(ring := RunFrom(c, y.ring, s))
    decreases |s|
  {
    if s != [] {
      InRingsRun(c, m, y, s[..|s| - 1]);
      assert InRings(s)[..|s| - 1] == InRings(s[..|s| - 1]);
    }
  }

  lemma {:induction false} ChecksRun(c: Config, m: Mapping, y: System, n: nat)
    requires c.Valid()
    ensures Fold(Moves(c, m), y, Repeat(AdvanceCheck, n)) == y.(check := CheckOn(c, y.ring, y.check, n))
    decreases n
  {
    if n > 0 {
      ChecksRun(c, m, y, n - 1);
      assert Repeat(AdvanceCheck, n)[..n - 1] == Repeat(AdvanceCheck, n - 1);
    }
  }

  /** The moves of a check up to its judgement of the fields, and those after it. */
  function FieldMoves(p: Progress): seq<Move> {
    [StartCheck(p)] + [AdvanceCheck] + [AdvanceCheck] + Repeat(AdvanceCheck, FIELDS) + [AdvanceCheck]
  }

  function HeaderMoves(): seq<Move> { Repeat(AdvanceCheck, CELLS - FIELDS) + [AdvanceCheck] }

  lemma FieldMovesRun(c: Config, m: Mapping, r: Ring, p: Progress)
    requires c.Valid() && p.stream == m.stream && p.epoch == m.epoch
    ensures Fold(Moves(c, m), System(r, Idle), FieldMoves(p)) == System(r, CheckFields(c, r, p))
  {
    var f, y, one := Moves(c, m), System(r, Idle), [AdvanceCheck];
    FoldOne(f, y, StartCheck(p));
    FoldAppend(f, y, [StartCheck(p)], one);
    FoldOne(f, System(r, FirstWord(p)), AdvanceCheck);
    FoldAppend(f, y, [StartCheck(p)] + one, one);
    FoldOne(f, System(r, NextCheck(c, r, FirstWord(p))), AdvanceCheck);
    FoldAppend(f, y, [StartCheck(p)] + one + one, Repeat(AdvanceCheck, FIELDS));
    var words := System(r, NextCheck(c, r, NextCheck(c, r, FirstWord(p))));
    ChecksRun(c, m, words, FIELDS);
    FoldAppend(f, y, [StartCheck(p)] + one + one + Repeat(AdvanceCheck, FIELDS), one);
    FoldOne(f, System(r, CheckOn(c, r, words.check, FIELDS)), AdvanceCheck);
  }

  lemma HeaderMovesRun(c: Config, m: Mapping, y: System)
    requires c.Valid()
    ensures Fold(Moves(c, m), y, HeaderMoves()) == y.(check := CheckHeader(c, y.ring, y.check))
  {
    FoldAppend(Moves(c, m), y, Repeat(AdvanceCheck, CELLS - FIELDS), [AdvanceCheck]);
    ChecksRun(c, m, y, CELLS - FIELDS);
    FoldOne(Moves(c, m), y.(check := CheckOn(c, y.ring, y.check, CELLS - FIELDS)), AdvanceCheck);
  }

  /**
    A frame is published, its report checked up to the fields, a lap of other frames published, and the check resumed.
   */
  function LapInBetween(c: Config, p: Progress, o: Offering, next: Offering): seq<Move> {
    InRings(OfferAlone(o)) + FieldMoves(p) + InRings(OffersAlone(next, c.nslots))
    + HeaderMoves()
  }

  lemma LapInBetweenRuns(c: Config, m: Mapping, p: Progress, o: Offering, next: Offering)
    requires c.Valid() && p.stream == m.stream && p.epoch == m.epoch
    ensures var r := RunFrom(c, Empty, OfferAlone(o));
            var r' := RunFrom(c, r, OffersAlone(next, c.nslots));
            RunBoth(c, m, LapInBetween(c, p, o, next)) == System(r', CheckHeader(c, r', CheckFields(c, r, p)))
  {
    var f, start := Moves(c, m), System(Empty, Idle);
    var first, lap := OfferAlone(o), OffersAlone(next, c.nslots);
    var r := RunFrom(c, Empty, first);
    var r' := RunFrom(c, r, lap);
    InRingsRun(c, m, start, first);
    FoldAppend(f, start, InRings(first), FieldMoves(p));
    FieldMovesRun(c, m, r, p);
    FoldAppend(f, start, InRings(first) + FieldMoves(p), InRings(lap));
    InRingsRun(c, m, System(r, CheckFields(c, r, p)), lap);
    FoldAppend(f, start, InRings(first) + FieldMoves(p) + InRings(lap), HeaderMoves());
    HeaderMovesRun(c, m, System(r', CheckFields(c, r, p)));
    RunBothIsFold(c, m, LapInBetween(c, p, o, next));
  }

  lemma FirstOfferHeld(c: Config, o: Offering)
    requires c.Valid() && Goes(c, o)
    ensures var r := RunFrom(c, Empty, OfferAlone(o));
            AtRest(c, r, 1, map[]) && HoldsFrame(c, r, 0, FrameOf(c, o))
  {
    EmptyOk(c);
    OfferAlonePublishes(c, Empty, o);
    PublishedFrame(c, Empty, FrameOf(c, o), 0, map[]);
  }

  /**
    In a ring of any size, when a lap of other frames is published between the two parts of a check of the first frame,
    the later header alone decides: the report is accepted exactly when no stride inferred from that one wraps below
    zero.
   */
  lemma LapDecidesVerdict(c: Config, m: Mapping, p: Progress, o: Offering, next: Offering)
    requires c.Valid() && Goes(c, o) && Goes(c, next)
    requires p.stream == m.stream && p.epoch == m.epoch && p.sn == 0 && p.bytes <= |o.payload|
    ensures next.tensor.Shaped() && next.tensor.ndims <= MAX_DIMS
    ensures RunBoth(c, m, LapInBetween(c, p, o, next)).check ==
            Done(p, if TensorAddressing.NoNegativeWrap(next.tensor) then Accepted else Rejected)
  {
    var r := RunFrom(c, Empty, OfferAlone(o));
    var r' := RunFrom(c, r, OffersAlone(next, c.nslots));
    FirstOfferHeld(c, o);
    OffersRun(c, r, next, 1, map[], c.nslots);
    PreparedIsSettled(next.tensor);
    LapInBetweenRuns(c, m, p, o, next);
    DivModUnique(c.nslots, c.nslots, 1, 0);
    InRange(0, c.nslots);
    LaterHeaderIsJudged(c, r, r', p, FrameOf(c, o), c.nslots, FrameOf(c, next));
  }

  /** A header whose outermost stride wraps below zero: the producer accepts it, the consumer refuses what it became. */
  const WRAPPING := Header(1, COLUMN, 3, PROGRESS_NONE, 0, [65536, 32768, 1, 0, 0, 0, 0, 0], [0, 0, 0, 0, 0, 0, 0, 0])

  lemma WrappingIsRefused()
    ensures WireHeader(WRAPPING) && Prepare(WRAPPING).Some? && !Validate(Prepare(WRAPPING).value).0
  {
    TensorAddressing.WrappedStridesAreNotFixed(WRAPPING);
    assert Cleared(WRAPPING) == WRAPPING;
  }

  lemma FitsNothing(c: Config, o: Offering)
    requires c == Config(1, [Pool(1, 64)]) && o.payload == [] && WireHeader(o.tensor) && Prepare(o.tensor).Some?
    ensures c.Valid() && Goes(c, o)
  {
    PowerOfTwoIs(0);
    PowerOfTwoTest(1);
    assert BestPool(c.pools, 0, 0) == None;
  }

  lemma LapIsShort(c: Config, p: Progress, o: Offering, next: Offering)
    requires c.nslots == 1 && o.payload == [] == next.payload
    ensures PublishesOnceIn(LapInBetween(c, p, o, next))
  {
    assert Blocks(OfferAlone(next), 0) == [];
    assert OffersAlone(next, 1) == OfferAlone(next);
  }

  /**
    For instance, in a ring of one slot a report on a frame with a refused header is accepted for the next frame's sake.
   */
  lemma RefusedHeaderAccepted(c: Config, m: Mapping, p: Progress, o: Offering, next: Offering)
    requires c == Config(1, [Pool(1, 64)]) && p == Progress(m.stream, m.epoch, 0, 0)
    requires o == Offering(WRAPPING, [], 0, 0) && next == Offering(SCALAR, [], 0, 0)
    ensures c.Valid() && Goes(c, o) && !Validate(FrameOf(c, o).tensor).0
    ensures PublishesOnceIn(LapInBetween(c, p, o, next))
    ensures RunBoth(c, m, LapInBetween(c, p, o, next)).check == Done(p, Accepted)
  {
    WrappingIsRefused();
    ScalarGoes();
    FitsNothing(c, o);
    FitsNothing(c, next);
    PreparedIsSettled(SCALAR);
    LapDecidesVerdict(c, m, p, o, next);
    LapIsShort(c, p, o, next);
  }
}
