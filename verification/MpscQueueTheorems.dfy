/** The queue's promises, each over every schedule of every number of threads. */
module MpscQueueTheorems {
  import opened Bits
  import opened MpscQueue
  import opened MpscQueueSafety

  /** The queue after a schedule, from the allocated state. */
  ghost function Reached(cap: nat, size: nat, s: Schedule): Queue
    requires InitAccepts(cap)
  {
    Run(Init(cap, size), s)
  }

  ghost predicate Writing(q: Queue, p: nat) {
    exists t: nat :: WritesAt(q.At(t), p)
  }

  ghost predicate Reading(q: Queue, p: nat) {
    exists t: nat :: ReadsAt(q.At(t), p)
  }

  /**
    First in, first out, exactly once: what a poll took for position p is what the offer that
    claimed p put in; every position below head was taken by a finished poll or is being read;
    and at most a capacity of claimed positions is outstanding.
   */
  lemma FirstInFirstOut(cap: nat, size: nat, s: Schedule)
    requires InitAccepts(cap) && cap >= 2
    ensures var q := Reached(cap, size, s);
      && |q.claimed| == q.tail && q.head <= q.tail <= q.head + cap
      && (forall p :: p in q.taken ==> p < q.head && q.taken[p] == q.claimed[p])
      && (forall p: nat :: p < q.head ==> (p in q.taken <==> !Reading(q, p)))
      && (forall t: nat :: q.At(t).Returned? && q.At(t).result.Took? ==>
            var r := q.At(t).result; r.pos < q.head && r.item == q.claimed[r.pos])
  {
    RunKeepsInv(cap, size, s);
    var q := Reached(cap, size, s);
    forall p | p in q.taken
      ensures p < q.head && q.taken[p] == q.claimed[p]
    {
      assert TakenInv(q, p);
    }
    forall p: nat | p < q.head
      ensures p in q.taken <==> !Reading(q, p)
    {
      var i := p % q.cap;
      assert TakenInv(q, p) && SlotInv(q, i);
      if p !in q.taken {
        ResidueNext(p, q.cap);
        assert ReadsAt(q.At(q.owner[i]), p);
      }
      if Reading(q, p) {
        var t: nat :| ReadsAt(q.At(t), p);
        assert ThreadInv(q, t);
      }
    }
    forall t: nat | q.At(t).Returned? && q.At(t).result.Took?
      ensures var r := q.At(t).result; r.pos < q.head && r.item == q.claimed[r.pos]
    {
      assert ThreadInv(q, t) && TakenInv(q, q.At(t).result.pos);
    }
  }

  /** With no poll under way, the items taken, in head order, are a prefix of the items claimed, in tail order. */
  lemma TakenIsPrefixOfClaimed(cap: nat, size: nat, s: Schedule)
    requires InitAccepts(cap) && cap >= 2
    requires var q := Reached(cap, size, s); forall t: nat :: !q.At(t).PollCopy? && !q.At(t).PollRelease?
    ensures var q := Reached(cap, size, s);
      && (forall p: nat :: p in q.taken <==> p < q.head)
      && q.head <= |q.claimed|
      && seq(q.head, p requires 0 <= p < q.head && p in q.taken => q.taken[p]) == q.claimed[..q.head]
  {
    FirstInFirstOut(cap, size, s);
    var q := Reached(cap, size, s);
    forall p: nat | p < q.head
      ensures p in q.taken && q.taken[p] == q.claimed[p]
    {
      assert !Reading(q, p);
    }
  }

  /**
    One step appends to the claimed items at most once, and then the item the stepping thread offers;
    it records at most one taken position, new, whose item the stepping thread returns.
   */
  lemma HistoryGrows(cap: nat, size: nat, s: Schedule, t: nat, c: Choice)
    requires InitAccepts(cap) && cap >= 2
    ensures var q := Reached(cap, size, s);
      var q' := Step(q, t, c);
      && (q'.claimed == q.claimed ||
          (q.At(t).OfferTry? && q'.claimed == q.claimed + [q.At(t).item] && WritesAt(q'.At(t), q.tail)))
      && (q'.taken == q.taken ||
          (exists p: nat, item :: p !in q.taken && q'.taken == q.taken[p := item]
              && q'.At(t) == Returned(Took(p, item))))
  {
    RunKeepsInv(cap, size, s);
    var q := Reached(cap, size, s);
    var q' := Step(q, t, c);
    if q.At(t).PollRelease? {
      Release(q, t);
      var p, item := q.At(t).pos, q.At(t).item;
      assert p !in q.taken && q'.taken == q.taken[p := item] && q'.At(t) == Returned(Took(p, item));
    }
  }

  /** At most one thread owns a slot, so no word is copied in or out while another thread may touch it. */
  lemma SlotsAreExclusive(cap: nat, size: nat, s: Schedule, t: nat, u: nat)
    requires InitAccepts(cap) && cap >= 2 && t != u
    requires var q := Reached(cap, size, s); Owns(q.At(t)) && Owns(q.At(u))
    ensures var q := Reached(cap, size, s); q.Slot(q.At(t).pos) != q.Slot(q.At(u).pos)
  {
    RunKeepsInv(cap, size, s);
    Exclusive(Reached(cap, size, s), t, u);
  }

  /** No claimed item is overwritten before it is taken: once written, it is in its slot until released. */
  ghost predicate Lossless(q: Queue) {
    && q.Shaped() && |q.claimed| == q.tail
    && forall p: nat :: q.head <= p < q.tail && !Writing(q, p) ==> q.data[q.Slot(p)] == q.claimed[p]
  }

  lemma NothingLost(cap: nat, size: nat, s: Schedule)
    requires InitAccepts(cap) && cap >= 2
    ensures Lossless(Reached(cap, size, s))
  {
    RunKeepsInv(cap, size, s);
    var q := Reached(cap, size, s);
    forall p: nat | q.head <= p < q.tail && !Writing(q, p)
      ensures q.data[q.Slot(p)] == q.claimed[p]
    {
      PublishedOrWriting(q, p);
    }
  }

  /** An untaken claimed position is the current one of its slot. */
  lemma PublishedOrWriting(q: Queue, p: nat)
    requires Inv(q) && q.head <= p < q.tail
    ensures Writing(q, p) || (q.sequence[p % q.cap] == p + 1 && q.data[p % q.cap] == q.claimed[p])
    ensures q.sequence[p % q.cap] == p ==> Writing(q, p)
  {
    var i := p % q.cap;
    var v := q.sequence[i];
    assert SlotInv(q, i);
    if v % q.cap == i && q.head <= v < q.head + q.cap && (v < q.tail ==> WritesAt(q.At(q.owner[i]), v)) {
      if p < v { ResidueGap(p, v, q.cap); }
      if v < p { ResidueGap(v, p, q.cap); }
      assert v == p;
    } else {
      if p < v - 1 { ResidueGap(p, v - 1, q.cap); }
      if v - 1 < p { ResidueGap(v - 1, p, q.cap); }
    }
  }

  /** For a position not past the tail, a slot sequence behind it means the previous lap's position is unreleased. */
  lemma BehindMeansUnreleased(q: Queue, pos: nat)
    requires Inv(q) && pos <= q.tail
    ensures q.sequence[pos % q.cap] < pos <==> q.tail == pos && pos >= q.cap && pos - q.cap !in q.taken
  {
    var i := pos % q.cap;
    var v := q.sequence[i];
    assert SlotInv(q, i);
    if v < pos {
      if v % q.cap == i && q.head <= v < q.head + q.cap {
        ResidueGap(v, pos, q.cap);
        assert v == pos - q.cap == q.head;
      } else {
        ResidueGap(v - 1, pos, q.cap);
        assert v - 1 == pos - q.cap;
        ResidueNext(v - 1, q.cap);
      }
      assert TakenInv(q, pos - q.cap);
    }
    if q.tail == pos && pos >= q.cap && pos - q.cap !in q.taken {
      UnreleasedIsBehind(q, pos - q.cap);
      ResidueShift(pos - q.cap, q.cap);
    }
  }

  lemma UnreleasedIsBehind(q: Queue, e: nat)
    requires Inv(q) && e + q.cap == q.tail && e !in q.taken
    ensures q.sequence[e % q.cap] <= e + 1
  {
    assert TakenInv(q, e);
    if e >= q.head {
      PublishedOrWriting(q, e);
      if Writing(q, e) {
        var u: nat :| WritesAt(q.At(u), e);
        assert ThreadInv(q, u);
      }
    }
  }

  lemma BelowPublished(q: Queue, pos: nat)
    requires Inv(q) && pos <= q.head && q.sequence[pos % q.cap] < pos + 1
    ensures q.head == pos && (q.tail == q.head || Writing(q, q.head))
  {
    var i := pos % q.cap;
    var v := q.sequence[i];
    assert SlotInv(q, i);
    if v % q.cap == i && q.head <= v < q.head + q.cap && (v < q.tail ==> WritesAt(q.At(q.owner[i]), v)) {
      assert v == pos;
    } else {
      ResidueGap(v - 1, pos, q.cap);
    }
  }

  lemma UnpublishedHead(q: Queue, pos: nat)
    requires Inv(q) && q.head == pos && (q.tail == q.head || Writing(q, q.head))
    ensures q.sequence[pos % q.cap] < pos + 1
  {
    var i := pos % q.cap;
    var v := q.sequence[i];
    assert SlotInv(q, i);
    if Writing(q, pos) {
      var u: nat :| WritesAt(q.At(u), pos);
      assert ThreadInv(q, u);
    } else if v % q.cap == i && v > pos {
      ResidueGap(pos, v, q.cap);
    }
  }

  /**
    Offer reports a full queue at its sequence load exactly when its position is the tail and the
    position one capacity earlier has not been released; with no poll under way that means a full
    capacity of items is waiting.
   */
  lemma FullIsJustified(cap: nat, size: nat, s: Schedule, t: nat, c: Choice)
    requires InitAccepts(cap) && cap >= 2
    requires Reached(cap, size, s).At(t).OfferAt?
    ensures var q := Reached(cap, size, s);
      var pos := q.At(t).pos;
      && (Step(q, t, c).At(t) == Returned(Full) <==> q.tail == pos && pos >= cap && pos - cap !in q.taken)
      && (Step(q, t, c).At(t) == Returned(Full) && (forall p: nat :: !Reading(q, p)) ==> q.tail == q.head + cap)
  {
    RunKeepsInv(cap, size, s);
    var q := Reached(cap, size, s);
    var pos := q.At(t).pos;
    assert ThreadInv(q, t);
    BehindMeansUnreleased(q, pos);
    if pos >= cap && pos - cap < q.head && pos - cap !in q.taken {
      FirstInFirstOut(cap, size, s);
      assert Reading(q, pos - cap);
    }
  }

  /**
    Poll reports an empty queue at its sequence load exactly when its position is the head and that
    position is unpublished: unclaimed, or claimed by an offer still under way.
   */
  lemma EmptyIsJustified(cap: nat, size: nat, s: Schedule, t: nat, c: Choice)
    requires InitAccepts(cap) && cap >= 2
    requires Reached(cap, size, s).At(t).PollAt?
    ensures var q := Reached(cap, size, s);
      Step(q, t, c).At(t) == Returned(Empty) <==>
      q.head == q.At(t).pos && (q.tail == q.head || Writing(q, q.head))
  {
    RunKeepsInv(cap, size, s);
    var q := Reached(cap, size, s);
    assert ThreadInv(q, t);
    var pos := q.At(t).pos;
    if q.sequence[pos % q.cap] < pos + 1 { BelowPublished(q, pos); }
    if q.head == pos && (q.tail == q.head || Writing(q, q.head)) { UnpublishedHead(q, pos); }
  }

  lemma RunSnoc(q: Queue, s: Schedule, t: nat, c: Choice)
    requires q.Shaped()
    ensures Run(q, s + [(t, c)]) == Step(Run(q, s), t, c)
  {
    assert (s + [(t, c)])[..|s|] == s;
  }

  /** One whole undisturbed offer of a one-word item, as a schedule: up to the exchange, then to the end. */
  function OfferAlone(x: int): Schedule {
    ClaimAlone(x) + FinishAlone()
  }

  function ClaimAlone(x: int): Schedule { [(0, StartOffer([x])), (0, Proceed), (0, Proceed)] }

  function FinishAlone(): Schedule { [(0, Proceed), (0, Proceed), (0, Proceed)] }

  lemma {:induction false} RunAppend(q: Queue, s: Schedule, r: Schedule)
    requires q.Shaped()
    ensures Run(q, s + r) == Run(Run(q, s), r)
    decreases |r|
  {
    if r == [] {
      assert s + r == s;
    } else {
      var last := |r| - 1;
      RunAppend(q, s, r[..last]);
      assert s + r == (s + r[..last]) + [r[last]];
      RunSnoc(q, s + r[..last], r[last].0, r[last].1);
    }
  }

  lemma ClaimSteps(q: Queue, x: int, q1: Queue, q2: Queue)
    requires OneSlotAtRest(q)
    requires q1 == q.Goto(0, OfferAt([x], q.tail)) && q2 == q1.Goto(0, OfferTry([x], q.tail))
    ensures Step(q, 0, StartOffer([x])) == q1 && Step(q1, 0, Proceed) == q2
  {
    assert q.Slot(q.tail) == 0;
  }

  lemma ClaimOnOneSlot(q: Queue, x: int)
    requires OneSlotAtRest(q)
    ensures Run(q, ClaimAlone(x)) == q.(tail := q.tail + 1, claimed := q.claimed + [[x]], owner := [0])
            .Goto(0, OfferCopy([x], q.tail, 0))
  {
    var q1 := q.Goto(0, OfferAt([x], q.tail));
    var q2 := q1.Goto(0, OfferTry([x], q.tail));
    ClaimSteps(q, x, q1, q2);
    var q3 := Step(q2, 0, Proceed);
    assert q3.owner == [0];
    assert q3.threads == q.threads[0 := OfferCopy([x], q.tail, 0)];
    UnrollThree(q, ClaimAlone(x), q1, q2, q3);
  }

  lemma FinishOnOneSlot(q: Queue, x: int, pos: nat)
    requires q.Shaped() && q.cap == 1 && q.size == 1 && q.At(0) == OfferCopy([x], pos, 0)
    ensures Run(q, FinishAlone()) == q.(sequence := [pos + 1], data := [[x]]).Goto(0, Returned(Accepted))
  {
    var i := q.Slot(pos);
    assert |q.data[i]| == 1 && q.data[i][0 := x] == [x];
    var q4 := Step(q, 0, Proceed);
    assert q4.data == [[x]];
    assert q4 == q.(data := [[x]]).Goto(0, OfferCopy([x], pos, 1));
    var q5 := Step(q4, 0, Proceed);
    assert q5.threads == q.threads[0 := OfferRelease([x], pos)];
    var q6 := Step(q5, 0, Proceed);
    assert q6.sequence == [pos + 1];
    assert q6.threads == q.threads[0 := Returned(Accepted)];
    UnrollThree(q, FinishAlone(), q4, q5, q6);
  }

  /**
    What one whole offer on one slot leads to: the item is claimed and written, and the slot looks free for the next.
   */
  ghost predicate Offered(q: Queue, q': Queue, x: int) {
    && q'.Shaped() && q'.cap == q.cap && q'.size == q.size
    && q'.head == q.head && q'.tail == q.tail + 1 && q'.claimed == q.claimed + [[x]]
    && q'.sequence == [q'.tail] && q'.data == [[x]]
    && q'.threads == q.threads[0 := Returned(Accepted)]
  }

  ghost predicate OneSlotAtRest(q: Queue) {
    q.Shaped() && q.cap == 1 && q.size == 1 && q.sequence == [q.tail]
        && (q.At(0).Idle? || q.At(0) == Returned(Accepted))
  }

  /** With one slot the published value of a position is the free value of the next, so the offer goes through. */
  lemma LoneOfferOnOneSlot(q: Queue, x: int, a: Schedule, b: Schedule)
    requires OneSlotAtRest(q) && a == ClaimAlone(x) && b == FinishAlone()
    ensures Offered(q, Run(q, a + b), x)
  {
    var q3 := q.(tail := q.tail + 1, claimed := q.claimed + [[x]], owner := [0]).Goto(0, OfferCopy([x], q.tail, 0));
    assert Run(q, a) == q3 by { ClaimOnOneSlot(q, x); }
    assert Run(q3, b) == q3.(sequence := [q.tail + 1], data := [[x]]).Goto(0, Returned(Accepted)) by {
      FinishOnOneSlot(q3, x, q.tail);
    }
    Combine(q, x, a, b, q3);
  }

  lemma Combine(q: Queue, x: int, a: Schedule, b: Schedule, q3: Queue)
    requires OneSlotAtRest(q) && q3 == Run(q, a)
    requires q3 == q.(tail := q.tail + 1, claimed := q.claimed + [[x]], owner := [0]).Goto(0, OfferCopy([x], q.tail, 0))
    requires Run(q3, b) == q3.(sequence := [q.tail + 1], data := [[x]]).Goto(0, Returned(Accepted))
    ensures Offered(q, Run(q, a + b), x)
  {
    RunAppend(q, a, b);
    assert q3.threads[0 := Returned(Accepted)] == q.threads[0 := Returned(Accepted)];
  }

  lemma UnrollThree(q: Queue, o: Schedule, q1: Queue, q2: Queue, q3: Queue)
    requires q.Shaped() && |o| == 3 && q1 == Step(q, o[0].0, o[0].1)
    requires q2 == Step(q1, o[1].0, o[1].1) && q3 == Step(q2, o[2].0, o[2].1)
    ensures Run(q, o) == q3
  {
    assert o[..1] == [] + [o[0]];
    assert o[..2] == o[..1] + [o[1]];
    assert o == o[..2] + [o[2]];
    RunSnoc(q, [], o[0].0, o[0].1);
    RunSnoc(q, o[..1], o[1].0, o[1].1);
    RunSnoc(q, o[..2], o[2].0, o[2].1);
  }

  /**
    A queue of capacity one, which initialisation accepts, never reports full: the second item overwrites the first.
   */
  lemma OneSlotLosesItems(s: Schedule)
    requires s == OfferAlone(1) + OfferAlone(2)
    ensures InitAccepts(1) && !Lossless(Reached(1, 1, s))
  {
    assert And(1, 0) == 0;
    var q0 := Init(1, 1);
    assert q0.sequence == [0];
    LoneOfferOnOneSlot(q0, 1, ClaimAlone(1), FinishAlone());
    var q1 := Run(q0, OfferAlone(1));
    LoneOfferOnOneSlot(q1, 2, ClaimAlone(2), FinishAlone());
    RunAppend(q0, OfferAlone(1), OfferAlone(2));
    OverwrittenItem(q0, q1, Run(q1, OfferAlone(2)));
  }

  lemma OverwrittenItem(q0: Queue, q1: Queue, q2: Queue)
    requires q0 == Init(1, 1) && Offered(q0, q1, 1) && Offered(q1, q2, 2)
    ensures !Lossless(q2)
  {
    assert q2.claimed == [[1], [2]] && q2.data == [[2]] && q2.head == 0;
    assert !Writing(q2, 0);
    assert q2.Slot(0) == 0;
    assert q2.data[q2.Slot(0)] != q2.claimed[0];
  }

  /**
    Of the capacities initialisation accepts, the queue is lossless under every schedule exactly for those above one.
   */
  lemma LosslessIffCapacityAboveOne(cap: nat)
    requires InitAccepts(cap)
    ensures (forall size: nat, s: Schedule :: Lossless(Reached(cap, size, s))) <==> cap >= 2
  {
    if cap >= 2 {
      forall size: nat, s: Schedule
        ensures Lossless(Reached(cap, size, s))
      {
        NothingLost(cap, size, s);
      }
    } else {
      OneSlotLosesItems(OfferAlone(1) + OfferAlone(2));
    }
  }
}
