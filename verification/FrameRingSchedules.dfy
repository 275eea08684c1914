/** Schedules built from whole calls: an offer and its stores, the loads of a read, one after the other. */
module FrameRingSchedules {
  import opened Bits
  import opened Options
  import opened Tensor
  import opened FrameRing
  import opened FrameRingSafety
  import opened FrameRingProgress
  import opened FrameRingPayload
  import opened Folds

  function Steps(c: Config): (Ring, Action) -> Ring
    requires c.Valid()
  {
    (r, a) => Step(c, r, a)
  }

  /** The ring after a schedule that starts at r. */
  function RunFrom(c: Config, r: Ring, s: Schedule): Ring
    requires c.Valid()
  {
    Fold(Steps(c), r, s)
  }

  lemma {:induction false} RunIsFromEmpty(c: Config, s: Schedule)
    requires c.Valid()
    ensures Run(c, s) == RunFrom(c, Empty, s)
    decreases |s|
  {
    if s != [] { RunIsFromEmpty(c, s[..|s| - 1]); }
  }

  lemma RunAppend(c: Config, r: Ring, s: Schedule, t: Schedule)
    requires c.Valid()
    ensures RunFrom(c, r, s + t) == RunFrom(c, RunFrom(c, r, s), t)
  {
    FoldAppend(Steps(c), r, s, t);
  }

  lemma RunOne(c: Config, r: Ring, a: Action)
    requires c.Valid()
    ensures RunFrom(c, r, [a]) == Step(c, r, a)
  {
    FoldOne(Steps(c), r, a);
  }

  lemma RepeatedStores(c: Config, r: Ring, n: nat)
    requires c.Valid()
    ensures RunFrom(c, r, Repeat(Advance, n)) == Stores(c, r, n)
  {
    FoldRepeat(Steps(c), Store(c), r, Advance, n);
  }

  lemma RepeatedLoads(c: Config, r: Ring, id: nat, n: nat)
    requires c.Valid()
    ensures RunFrom(c, r, Repeat(AdvanceRead(id), n)) == Loads(c, r, id, n)
  {
    FoldRepeat(Steps(c), Load(c, id), r, AdvanceRead(id), n);
  }

  // ---- Offers run to their end ----

  /** What an application passes to an offer. */
  datatype Offering = Offering(tensor: Header, payload: seq<int>, timestamp: nat, metaVersion: nat)

  /** The offer goes through: a pool takes the payload and the producer accepts the header. */
  ghost predicate Goes(c: Config, o: Offering)
    requires c.Valid()
  {
    WireHeader(o.tensor) && Prepare(o.tensor).Some? && BestPool(c.pools, |o.payload|, |c.pools|).Some?
  }

  function FrameOf(c: Config, o: Offering): Frame
    requires c.Valid() && Goes(c, o)
  {
    OfferedFrame(c, o.tensor, o.payload, o.timestamp, o.metaVersion)
  }

  function OfferOf(o: Offering): Action { Offer(o.tensor, o.payload, o.timestamp, o.metaVersion) }

  /** One offer and all its stores. */
  function OfferAlone(o: Offering): Schedule {
    [OfferOf(o)] + Repeat(Advance, |o.payload| + 1) + Repeat(Advance, CELLS + 1)
  }

  lemma OfferAlonePublishes(c: Config, r: Ring, o: Offering)
    requires c.Valid() && Goes(c, o) && r.job.NoJob?
    ensures RunFrom(c, r, OfferAlone(o)) == PublishFrame(c, r, FrameOf(c, o)) && FrameOk(c, FrameOf(c, o))
  {
    var begun := Step(c, r, OfferOf(o));
    StepIs(c, r, OfferOf(o), begun);
    OfferPublishes(c, r, o.tensor, o.payload, o.timestamp, o.metaVersion);
    OfferIsBegin(c, r, o.tensor, o.payload, o.timestamp, o.metaVersion);
    RunOne(c, r, OfferOf(o));
    RunAppend(c, r, [OfferOf(o)], Repeat(Advance, |o.payload| + 1));
    RunAppend(c, r, [OfferOf(o)] + Repeat(Advance, |o.payload| + 1), Repeat(Advance, CELLS + 1));
    RepeatedStores(c, begun, |o.payload| + 1);
    RepeatedStores(c, Stores(c, begun, |o.payload| + 1), CELLS + 1);
  }

  /** The same offer n times. */
  function OffersAlone(o: Offering, n: nat): Schedule { Blocks(OfferAlone(o), n) }

  lemma OfferedFrameOk(c: Config, o: Offering)
    requires c.Valid() && Goes(c, o)
    ensures FrameOk(c, FrameOf(c, o))
  {
    PreparedFrameOk(c, o.tensor, Prepare(o.tensor).value, o.payload, BestPool(c.pools, |o.payload|, |c.pools|).value,
                    o.timestamp, o.metaVersion);
  }

  lemma FirstClaim(c: Config, length: nat)
    requires c.Valid() && BestPool(c.pools, length, |c.pools|).Some?
    ensures var r := DoTryClaim(c, Empty, length);
            AtRest(c, r, 1, map[0 := Claim(BestPool(c.pools, length, |c.pools|).value, length)])
  {
    EmptyOk(c);
    ClaimKeeps(c, Empty, length);
  }

  // ---- The discipline along a schedule ----

  ghost function Rules(c: Config): (Ring, Action) -> bool { (r, a) => Disciplined(c, r, a) }

  ghost predicate DisciplinedFrom(c: Config, r: Ring, s: Schedule)
    requires c.Valid()
  {
    Guarded(Steps(c), Rules(c), r, s)
  }

  lemma DisciplinedFromEmpty(c: Config, s: Schedule)
    requires c.Valid() && DisciplinedFrom(c, Empty, s)
    ensures DisciplinedRun(c, s)
  {
    forall k | 0 <= k < |s| ensures Disciplined(c, Run(c, s[..k]), s[k]) {
      RunIsFromEmpty(c, s[..k]);
      assert Rules(c)(Fold(Steps(c), Empty, s[..k]), s[k]);
    }
  }

  lemma DisciplinedAppend(c: Config, r: Ring, s: Schedule, t: Schedule)
    requires c.Valid() && DisciplinedFrom(c, r, s) && DisciplinedFrom(c, RunFrom(c, r, s), t)
    ensures DisciplinedFrom(c, r, s + t)
  {
    GuardedAppend(Steps(c), Rules(c), r, s, t);
  }

  /** Only a call that spends a number can break the discipline. */
  lemma SpendingNothing(c: Config, r: Ring, s: Schedule)
    requires c.Valid() && forall k :: 0 <= k < |s| ==> !s[k].Offer? && !s[k].TryClaim?
    ensures DisciplinedFrom(c, r, s)
  {
  }

  lemma OfferAloneDisciplined(c: Config, r: Ring, o: Offering)
    requires c.Valid() && forall s :: s in r.claims ==> r.nextSeq < s + c.nslots
    ensures DisciplinedFrom(c, r, OfferAlone(o))
  {
    forall k | 0 <= k < |OfferAlone(o)|
      ensures Disciplined(c, RunFrom(c, r, OfferAlone(o)[..k]), OfferAlone(o)[k])
    {
      if k == 0 { assert OfferAlone(o)[..0] == []; }
    }
  }

  lemma OneOffer(c: Config, r: Ring, o: Offering, next: nat, claims: map<nat, Claim>, k: nat)
    requires c.Valid() && Goes(c, o) && PublishedSoFar(c, FrameOf(c, o), next, claims)(k, r) && next + k + 1 < U64 / 2
    requires forall s :: s in claims ==> next + k < s + c.nslots
    ensures PublishedSoFar(c, FrameOf(c, o), next, claims)(k + 1, RunFrom(c, r, OfferAlone(o)))
    ensures DisciplinedFrom(c, r, OfferAlone(o))
  {
    SoFar(c, FrameOf(c, o), next, claims, k, r);
    OfferAlonePublishes(c, r, o);
    PublishedOnce(c, r, FrameOf(c, o), next, claims, k);
    OfferAloneDisciplined(c, r, o);
  }

  /**
    From rest, offers that end less than a lap after every open claim keep the discipline and are published in turn.
   */
  lemma OffersRun(c: Config, r: Ring, o: Offering, next: nat, claims: map<nat, Claim>, n: nat)
    requires c.Valid() && Goes(c, o) && AtRest(c, r, next, claims) && next + n < U64 / 2
    requires forall s :: s in claims ==> next + n <= s + c.nslots
    ensures var r' := RunFrom(c, r, OffersAlone(o, n));
            && r'.job.NoJob? && r'.nextSeq == next + n && r'.claims == claims
            && (n > 0 ==> HoldsFrame(c, r', next + n - 1, FrameOf(c, o)))
    ensures DisciplinedFrom(c, r, OffersAlone(o, n))
  {
    var p := PublishedSoFar(c, FrameOf(c, o), next, claims);
    forall k: nat, y: Ring | k < n && p(k, y)
      ensures p(k + 1, Fold(Steps(c), y, OfferAlone(o))) && Guarded(Steps(c), Rules(c), y, OfferAlone(o))
    {
      OneOffer(c, y, o, next, claims, k);
      assert RunFrom(c, y, OfferAlone(o)) == Fold(Steps(c), y, OfferAlone(o));
      assert DisciplinedFrom(c, y, OfferAlone(o));
    }
    BlocksKeep(Steps(c), Rules(c), r, OfferAlone(o), n, p);
    SoFar(c, FrameOf(c, o), next, claims, n, RunFrom(c, r, OffersAlone(o, n)));
  }

  // ---- A small tensor to publish ----

  /** One byte. */
  const SCALAR := Header(1, ROW, 1, PROGRESS_NONE, 0, [1, 0, 0, 0, 0, 0, 0, 0], [0, 0, 0, 0, 0, 0, 0, 0])

  lemma ScalarGoes()
    ensures WireHeader(SCALAR) && Prepare(SCALAR).Some?
    ensures Validate(Prepare(SCALAR).value) == (true, Prepare(SCALAR).value)
  {
    assert Cleared(SCALAR) == SCALAR;
    var one := [1, 0, 0, 0, 0, 0, 0, 0];
    assert SCALAR.strides[0 := 1] == one;
    assert Fill(ROW, 1, SCALAR.dims, one, 1) == (true, one);
    PreparedIsSettled(SCALAR);
  }
}
