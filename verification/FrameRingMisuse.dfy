/**
  Why the schedule conditions of the safety theorems are needed: a claim committed twice, and a claim kept open for a
  whole lap.
 */
module FrameRingMisuse {
  import opened Bits
  import opened Options
  import opened Tensor
  import opened FrameRing
  import opened FrameRingSafety
  import opened FrameRingProgress
  import opened Folds
  import FrameRingPayload
  import opened FrameRingSchedules

  const EARLY := 5 // fields loaded before the second commit: up to and including the timestamp

  /** The first loads of a read: the commit word and the early fields. */
  function ReadEarly(c: Config, r: Ring, id: nat, sn: nat): Ring
    requires c.Valid()
  {
    Loads(c, Loads(c, DoStartRead(r, id, sn), id, 1), id, EARLY)
  }

  /** A read interrupted by a second, complete commit of the same claim, then resumed. */
  function ReadAcrossRecommit(c: Config, r: Ring, id: nat, sn: nat, h: Header, timestamp: nat, metaVersion: nat): Ring
    requires c.Valid()
  {
    var again := DoCommitAgain(c, ReadEarly(c, r, id, sn), sn, h, timestamp, metaVersion);
    FinishRead(c, Stores(c, again, CELLS + 1), id, EARLY)
  }

  /** The fields such a read ends up with. */
  function TornCells(c: Config, sn: nat, f: Frame, f': Frame): (all: seq<int>)
    requires c.Valid() && f.tensor.Shaped() && f'.tensor.Shaped() && f.pool < |c.pools| && f'.pool < |c.pools|
    ensures |all| == CELLS
  {
    FrameCells(c, f, c.Index(sn))[..EARLY] + FrameCells(c, f', c.Index(sn))[EARLY..]
  }

  lemma TornVerdict(c: Config, sn: nat, f: Frame, f': Frame)
    requires c.Valid() && FrameOk(c, f)
    requires f' == f.(payload := f'.payload, timestamp := f'.timestamp, metaVersion := f'.metaVersion)
    requires |f'.payload| == |f.payload| && Validate(f.tensor).0
    ensures var all := TornCells(c, sn, f, f');
            && FieldsAccepted(c, c.Index(sn), all[..FIELDS])
            && Verdict(c, sn, all) == Got(ViewOf(c, sn, f).(metaVersion := f'.metaVersion))
  {
    var mixed := f.(metaVersion := f'.metaVersion);
    assert TornCells(c, sn, f, f') == FrameCells(c, mixed, c.Index(sn));
    InterpretOwnFrame(c, sn, mixed);
  }

  lemma EarlyLoads(c: Config, r: Ring, id: nat, sn: nat, f: Frame)
    requires c.Valid() && HoldsFrame(c, r, sn, f)
    ensures var early := ReadEarly(c, r, id, sn);
            && HasRead(early, id, sn, 2 * sn + 1, FrameCells(c, f, c.Index(sn))[..EARLY])
            && early == r.(readers := early.readers)
  {
    var start, cells := DoStartRead(r, id, sn), FrameCells(c, f, c.Index(sn));
    FirstLoadSees(c, start, id, sn);
    OnlyReaders(c, start, id, 1);
    assert cells[..0] == [];
    var r1 := Loads(c, start, id, 1);
    assert CellsAre(c, r1, sn, cells);
    LoadingFields(c, r1, id, sn, 2 * sn + 1, cells, 0, EARLY, cells);
    OnlyReaders(c, r1, id, EARLY);
  }

  lemma OnlyReaders(c: Config, r: Ring, id: nat, n: nat)
    requires c.Valid()
    ensures Loads(c, r, id, n) == r.(readers := Loads(c, r, id, n).readers)
  {
    IterateKeeps(Load(c, id), r, n, (k: nat, y: Ring) => y == r.(readers := y.readers));
  }

  /** The second commit stores the whole of the new frame under the same commit word. */
  lemma Recommits(c: Config, r: Ring, sn: nat, f: Frame, timestamp: nat, metaVersion: nat)
    requires c.Valid() && HoldsFrame(c, r, sn, f) && r.job.NoJob? && sn in r.done && sn < U64 / 2
    requires Prepare(f.tensor) == Some(f.tensor) && sn in r.issued && r.issued[sn] == Claim(f.pool, |f.payload|)
    ensures var r' := Stores(c, DoCommitAgain(c, r, sn, f.tensor, timestamp, metaVersion), CELLS + 1);
            && r'.readers == r.readers && sn in r'.published
            && var f' := r'.published[sn];
               && f' == Frame(f.tensor, f'.payload, f.pool, timestamp, metaVersion) && |f'.payload| == |f.payload|
               && r'.At(c.SlotOffset(c.Index(sn))) == Slot(2 * sn + 1, FrameCells(c, f', c.Index(sn)))
  {
    var begun := DoCommitAgain(c, r, sn, f.tensor, timestamp, metaVersion);
    var claim := Claim(f.pool, |f.payload|);
    var f' := Frame(f.tensor, ClaimedBytes(c, r, sn, claim), f.pool, timestamp, metaVersion);
    assert begun == Begin(c, r, sn, f', false).(claims := r.claims - {sn});
    var cells := begun.At(c.SlotOffset(c.Index(sn))).cells;
    assert cells[..0] == [] == FrameCells(c, f', c.Index(sn))[..0];
    FieldsThenCommit(c, begun, sn, f');
    StoresKeepBook(c, begun, CELLS + 1);
  }

  /** Open claims are as issued, and a frame published under a claim has its pool and length. */
  ghost predicate IssuedInv(r: Ring) {
    && (forall s :: s in r.issued ==> s < r.nextSeq)
    && (forall s :: s in r.claims ==> s in r.issued && r.claims[s] == r.issued[s])
    && (forall s :: s in r.issued && s in r.published ==>
          r.issued[s] == Claim(r.published[s].pool, |r.published[s].payload|))
  }

  lemma StepKeepsIssued(c: Config, r: Ring, a: Action, r': Ring)
    requires c.Valid() && Inv(c, r) && IssuedInv(r) && !a.CommitAgain? && r' == Step(c, r, a)
    ensures IssuedInv(r')
  {
    StepIs(c, r, a, r');
    if a.Offer? { OfferKeepsIssued(c, r, a.tensor, a.payload, a.timestamp, a.metaVersion); }
    else if a.TryClaim? { ClaimKeepsIssued(c, r, a.length); }
    else if a.Commit? {
      if a.sn in r.claims { CommitKeepsIssued(c, r, a.sn, a.tensor, a.timestamp, a.metaVersion); }
    } else if a.Advance? {
      AdvanceFrame(c, r);
    }
  }

  lemma OfferKeepsIssued(c: Config, r: Ring, tensor: Header, payload: seq<int>, timestamp: nat, metaVersion: nat)
    requires c.Valid() && Inv(c, r) && IssuedInv(r)
    ensures IssuedInv(DoOffer(c, r, tensor, payload, timestamp, metaVersion))
  {
    var r' := DoOffer(c, r, tensor, payload, timestamp, metaVersion);
    if r.job.NoJob? && WireHeader(tensor) && BestPool(c.pools, |payload|, |c.pools|).Some? {
      var pool := BestPool(c.pools, |payload|, |c.pools|).value;
      if Prepare(tensor).Some? {
        OfferIntoIsBegin(c, r, pool, tensor, Prepare(tensor).value, payload, timestamp, metaVersion);
        PublishesFresh(r, r');
      } else {
        assert r' == r.(nextSeq := r.nextSeq + 1);
        PublishesFresh(r, r');
      }
    } else {
      assert r' == r;
    }
  }

  /** Nothing but the next number is published, and that number was never claimed. */
  lemma PublishesFresh(r: Ring, r': Ring)
    requires IssuedInv(r) && r'.issued == r.issued && r'.claims == r.claims && r.nextSeq <= r'.nextSeq
    requires forall s :: s in r'.published && s != r.nextSeq ==> s in r.published && r'.published[s] == r.published[s]
    ensures IssuedInv(r')
  {
  }

  lemma ClaimKeepsIssued(c: Config, r: Ring, length: nat)
    requires c.Valid() && Inv(c, r) && IssuedInv(r)
    ensures IssuedInv(DoTryClaim(c, r, length))
  {
    assert r.nextSeq !in r.published;
  }

  lemma CommitKeepsIssued(c: Config, r: Ring, sn: nat, tensor: Header, timestamp: nat, metaVersion: nat)
    requires c.Valid() && Inv(c, r) && IssuedInv(r) && sn in r.claims
    ensures IssuedInv(DoCommit(c, r, sn, r.claims[sn], tensor, timestamp, metaVersion))
  {
    if r.job.NoJob? && WireHeader(tensor) && Prepare(tensor).Some? {
      var claim := r.claims[sn];
      var f := Frame(Prepare(tensor).value, ClaimedBytes(c, r, sn, claim), claim.pool, timestamp, metaVersion);
      FrameRingPayload.CommitIsBegin(c, r, sn, claim, tensor, timestamp, metaVersion, f);
      PublishesClaimed(r, Begin(c, r.(claims := r.claims - {sn}), sn, f, false), sn, f);
    } else {
      assert DoCommit(c, r, sn, r.claims[sn], tensor, timestamp, metaVersion) == r;
    }
  }

  lemma PublishesClaimed(r: Ring, r': Ring, sn: nat, f: Frame)
    requires IssuedInv(r) && sn in r.claims && r.claims[sn] == Claim(f.pool, |f.payload|)
    requires r'.issued == r.issued && r'.claims == r.claims - {sn} && r'.published == r.published[sn := f]
    requires r'.nextSeq == r.nextSeq
    ensures IssuedInv(r')
  {
  }

  lemma {:induction false} RunKeepsIssued(c: Config, s: Schedule)
    requires c.Valid() && PublishesOnce(s)
    ensures IssuedInv(Run(c, s))
    decreases |s|
  {
    if s != [] {
      var front := s[..|s| - 1];
      RunKeepsIssued(c, front);
      RunKeeps(c, front);
      StepKeepsIssued(c, Run(c, front), s[|s| - 1], Run(c, s));
    }
  }

  /**
    Committing a claim twice defeats the commit word: in any reachable state a reader interrupted by a second commit
    of the frame it is reading succeeds with the timestamp of the first commit and the version of the second, which
    is the view of neither.
   */
  lemma RecommitTearsReads(c: Config, s: Schedule, id: nat, sn: nat, timestamp: nat, metaVersion: nat)
    requires c.Valid() && PublishesOnce(s) && Run(c, s).job.NoJob? && sn in Run(c, s).published
    requires sn in Run(c, s).issued
    requires HoldsFrame(c, Run(c, s), sn, Run(c, s).published[sn])
    requires var f := Run(c, s).published[sn];
             Validate(f.tensor).0 && Prepare(f.tensor) == Some(f.tensor) && timestamp != f.timestamp
                 && metaVersion != f.metaVersion
    ensures var (r, f) := (Run(c, s), Run(c, s).published[sn]);
            var r' := ReadAcrossRecommit(c, r, id, sn, f.tensor, timestamp, metaVersion);
            r'.Reader(id) == Finished(sn, Got(ViewOf(c, sn, f).(metaVersion := metaVersion)))
            && sn in r'.published && r'.published[sn].timestamp == timestamp != f.timestamp
  {
    RunKeeps(c, s);
    RunKeepsIssued(c, s);
    assert sn in Run(c, s).done;
    RecommitTears(c, Run(c, s), id, sn, Run(c, s).published[sn], timestamp, metaVersion);
  }

  lemma RecommitTears(c: Config, r: Ring, id: nat, sn: nat, f: Frame, timestamp: nat, metaVersion: nat)
    requires c.Valid() && HoldsFrame(c, r, sn, f) && r.job.NoJob? && sn in r.done && sn < U64 / 2
    requires sn in r.issued && r.issued[sn] == Claim(f.pool, |f.payload|)
    requires Validate(f.tensor).0 && Prepare(f.tensor) == Some(f.tensor)
    ensures var r' := ReadAcrossRecommit(c, r, id, sn, f.tensor, timestamp, metaVersion);
            r'.Reader(id) == Finished(sn, Got(ViewOf(c, sn, f).(metaVersion := metaVersion)))
            && sn in r'.published && r'.published[sn].timestamp == timestamp
  {
    var early := ReadEarly(c, r, id, sn);
    EarlyLoads(c, r, id, sn, f);
    Recommits(c, early, sn, f, timestamp, metaVersion);
    var r1 := Stores(c, DoCommitAgain(c, early, sn, f.tensor, timestamp, metaVersion), CELLS + 1);
    Resumed(c, r1, id, sn, f, r1.published[sn]);
    OnlyReaders(c, r1, id, CELLS - EARLY);
    OnlyReaders(c, Loads(c, r1, id, CELLS - EARLY), id, 2);
  }

  lemma Resumed(c: Config, r: Ring, id: nat, sn: nat, f: Frame, f': Frame)
    requires c.Valid() && FrameOk(c, f)
    requires f' == f.(payload := f'.payload, timestamp := f'.timestamp, metaVersion := f'.metaVersion)
    requires |f'.payload| == |f.payload| && Validate(f.tensor).0
    requires HasRead(r, id, sn, 2 * sn + 1, FrameCells(c, f, c.Index(sn))[..EARLY])
    requires r.At(c.SlotOffset(c.Index(sn))) == Slot(2 * sn + 1, FrameCells(c, f', c.Index(sn)))
    ensures FinishRead(c, r, id, EARLY).Reader(id) ==
            Finished(sn, Got(ViewOf(c, sn, f).(metaVersion := f'.metaVersion)))
  {
    TornVerdict(c, sn, f, f');
    ResumedCells(c, r, id, sn, TornCells(c, sn, f, f'), FrameCells(c, f, c.Index(sn)), FrameCells(c, f', c.Index(sn)));
  }

  lemma ResumedCells(c: Config, r: Ring, id: nat, sn: nat, all: seq<int>, before: seq<int>, after: seq<int>)
    requires c.Valid() && |before| == |after| == CELLS && all == before[..EARLY] + after[EARLY..]
    requires HasRead(r, id, sn, 2 * sn + 1, before[..EARLY])
    requires r.At(c.SlotOffset(c.Index(sn))) == Slot(2 * sn + 1, after)
    requires FieldsAccepted(c, c.Index(sn), all[..FIELDS])
    ensures FinishRead(c, r, id, EARLY).Reader(id) == Finished(sn, Verdict(c, sn, all))
  {
    assert all[..EARLY] == before[..EARLY];
    ReadOn(c, r, id, sn, all, EARLY, after);
  }

  // ---- A claim kept open for a whole lap ----

  /**
    An open claim on the slot of a committed frame lets its holder change that frame's payload under the commit word.
   */
  lemma OpenClaimTearsPayload(c: Config, r: Ring, open: nat, sn: nat, f: Frame, k: nat, byte: int)
    requires c.Valid() && HoldsFrame(c, r, sn, f) && k < |f.payload| && byte != f.payload[k]
    requires open in r.claims && r.claims[open].pool == f.pool && k < r.claims[open].length
    requires c.Index(open) == c.Index(sn)
    ensures var r' := DoWriteClaim(c, r, open, k, byte);
            && HoldsFrame(c, r', sn, f)
            && r'.Byte(f.pool, c.PayloadOffset(f.pool, c.Index(sn)) + k) != f.payload[k]
  {
  }

  /** Such a state is reachable in any ring: claim, then offer as many frames of the same size as there are slots. */
  lemma OpenClaimCanSurviveALap(c: Config, h: Header, payload: seq<int>, timestamp: nat, metaVersion: nat)
    requires c.Valid() && WireHeader(h) && Prepare(h).Some? && BestPool(c.pools, |payload|, |c.pools|).Some?
    ensures var f := OfferedFrame(c, h, payload, timestamp, metaVersion);
            var r := PublishMany(c, DoTryClaim(c, Empty, |payload|), f, c.nslots);
            && HoldsFrame(c, r, c.nslots, f) && f.payload == payload
            && r.claims == map[0 := Claim(f.pool, |payload|)] && c.Index(0) == c.Index(c.nslots)
  {
    FirstClaim(c, |payload|);
    var claimed := DoTryClaim(c, Empty, |payload|);
    OfferPublishes(c, claimed, h, payload, timestamp, metaVersion);
    PublishedMany(c, claimed, OfferedFrame(c, h, payload, timestamp, metaVersion), 1, claimed.claims, c.nslots);
    DivModUnique(c.nslots, c.nslots, 1, 0);
    InRange(0, c.nslots);
  }
}
