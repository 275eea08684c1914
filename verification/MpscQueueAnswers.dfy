/**
  What calls on the queue answer, and that they do: no refusal without cause from any state of a thread, no call that
  forgets what it is doing, and an answer after a bounded number of steps of a thread left alone.
 */
module MpscQueueAnswers {
  import opened Bits
  import opened MpscQueue
  import opened MpscQueueSafety
  import opened MpscQueueTheorems
  import opened Folds

  // ---- Refusals ----

  /** The position at the tail still belongs to the lap before: its predecessor has not been taken. */
  predicate FullAt(q: Queue, pos: nat) { q.tail == pos && pos >= q.cap && pos - q.cap !in q.taken }

  /** The position at the head is unclaimed, or its offer is still under way. */
  ghost predicate EmptyAt(q: Queue, pos: nat) { q.head == pos && (q.tail == q.head || Writing(q, q.head)) }

  /**
    Whatever the thread was doing: a step that answers full is the sequence load of an offer that found the queue full.
   */
  lemma FullNeedsCause(cap: nat, size: nat, s: Schedule, t: nat, c: Choice)
    requires InitAccepts(cap) && cap >= 2
    requires var q := Reached(cap, size, s); Step(q, t, c).At(t) == Returned(Full) && q.At(t) != Returned(Full)
    ensures var q := Reached(cap, size, s); q.At(t).OfferAt? && FullAt(q, q.At(t).pos)
  {
    var q := Reached(cap, size, s);
    OnlyLoadsRefuse(q, t, c);
    FullIsJustified(cap, size, s, t, c);
  }

  lemma EmptyNeedsCause(cap: nat, size: nat, s: Schedule, t: nat, c: Choice)
    requires InitAccepts(cap) && cap >= 2
    requires var q := Reached(cap, size, s); Step(q, t, c).At(t) == Returned(Empty) && q.At(t) != Returned(Empty)
    ensures var q := Reached(cap, size, s); q.At(t).PollAt? && EmptyAt(q, q.At(t).pos)
  {
    var q := Reached(cap, size, s);
    OnlyLoadsRefuse(q, t, c);
    EmptyIsJustified(cap, size, s, t, c);
  }

  lemma OnlyLoadsRefuse(q: Queue, t: nat, c: Choice)
    requires q.Shaped()
    ensures var (pc, pc') := (q.At(t), Step(q, t, c).At(t));
            && (pc' == Returned(Full) && pc != pc' ==> pc.OfferAt?)
            && (pc' == Returned(Empty) && pc != pc' ==> pc.PollAt?)
  {
  }

  // ---- Calls stay what they are ----

  /** Inside an offer of this item. */
  predicate Offering(pc: Thread, item: Item) {
    (pc.OfferAt? || pc.OfferReload? || pc.OfferTry? || pc.OfferCopy? || pc.OfferRelease?) && pc.item == item
  }

  predicate Polling(pc: Thread) { pc.PollAt? || pc.PollReload? || pc.PollTry? || pc.PollCopy? || pc.PollRelease? }

  predicate Resting(pc: Thread) { pc.Idle? || pc.Returned? }

  /** An offer goes on offering its item until it answers, and accepts only what it has claimed and written. */
  lemma OffersStayOffers(q: Queue, t: nat, c: Choice)
    requires q.Shaped() && !Resting(q.At(t)) && !Polling(q.At(t))
    ensures var (pc, pc') := (q.At(t), Step(q, t, c).At(t));
            Offering(pc', pc.item) || pc' == Returned(Full) || (pc' == Returned(Accepted) && pc.OfferRelease?)
  {
  }

  /** A poll goes on polling until it answers, and takes only what it has claimed and read. */
  lemma PollsStayPolls(q: Queue, t: nat, c: Choice)
    requires q.Shaped() && Polling(q.At(t))
    ensures var (pc, pc') := (q.At(t), Step(q, t, c).At(t));
            || Polling(pc') || pc' == Returned(Empty)
            || (pc.PollRelease? && pc' == Returned(Took(pc.pos, pc.item)))
  {
  }

  /** No step moves another thread. */
  lemma OthersStay(q: Queue, t: nat, c: Choice, u: nat)
    requires q.Shaped() && u != t
    ensures Step(q, t, c).At(u) == q.At(u)
  {
    match q.At(t)
    case Idle =>
    case Returned(_) =>
    case OfferAt(_, _) =>
    case OfferReload(_) =>
    case OfferTry(_, _) =>
    case OfferCopy(_, _, _) =>
    case OfferRelease(_, _) =>
    case PollAt(_) =>
    case PollReload =>
    case PollTry(_) =>
    case PollCopy(_, _) =>
    case PollRelease(_, _) =>
  }

  /** A resting thread calls what the scheduler says; an item of another size is refused with nothing changed. */
  lemma CallsBegin(q: Queue, t: nat, item: Item)
    requires q.Shaped() && Resting(q.At(t))
    ensures |item| == q.size ==> Offering(Step(q, t, StartOffer(item)).At(t), item)
    ensures |item| != q.size ==> Step(q, t, StartOffer(item)) == q
    ensures Polling(Step(q, t, StartPoll).At(t))
  {
  }

  // ---- A thread left alone ----

  /** How many steps at most a thread left alone is from its answer. */
  function Distance(q: Queue, t: nat): nat {
    match q.At(t)
    case OfferCopy(_, _, k) => if k <= q.size then q.size - k + 2 else 1
    case OfferRelease(_, _) => 1
    case OfferTry(_, pos) => if pos == q.tail then q.size + 3 else q.size + 5
    case OfferAt(_, pos) => if pos == q.tail then q.size + 4 else q.size + 7
    case OfferReload(_) => q.size + 5
    case PollCopy(_, got) => if |got| <= q.size then q.size - |got| + 2 else 1
    case PollRelease(_, _) => 1
    case PollTry(pos) => if pos == q.head then q.size + 3 else q.size + 5
    case PollAt(pos) => if pos == q.head then q.size + 4 else q.size + 7
    case PollReload => q.size + 5
    case Idle => 0
    case Returned(_) => 0
  }

  /** The tail's slot is not ahead of the tail, nor the head's slot ahead of the head. */
  lemma CurrentSlotIsNotAhead(q: Queue)
    requires Inv(q)
    ensures q.sequence[q.Slot(q.tail)] <= q.tail && q.sequence[q.Slot(q.head)] <= q.head + 1
  {
    SlotNotAhead(q, q.tail, q.tail);
    SlotNotAhead(q, q.head, q.head + 1);
  }

  lemma SlotNotAhead(q: Queue, pos: nat, v: nat)
    requires Inv(q) && ((pos == q.tail && v == pos) || (pos == q.head && v == pos + 1))
    ensures q.sequence[pos % q.cap] <= v
  {
    var i := pos % q.cap;
    var now := q.sequence[i];
    assert SlotInv(q, i);
    if now > v {
      if now % q.cap == i && q.head <= now < q.head + q.cap {
        ResidueGap(pos, now, q.cap);
      } else if now - 1 > pos {
        ResidueGap(pos, now - 1, q.cap);
      }
    }
  }

  /** Alone, every step of a thread inside a call brings it nearer to its answer. */
  lemma StepShortens(q: Queue, t: nat)
    requires Inv(q) && !Resting(q.At(t))
    ensures Distance(Step(q, t, Proceed), t) < Distance(q, t)
  {
    CurrentSlotIsNotAhead(q);
    assert ThreadInv(q, t);
  }

  /** n steps of thread t with nothing in between. */
  function Alone(t: nat, n: nat): Schedule { Repeat((t, Proceed), n) }

  lemma AloneOnce(q: Queue, t: nat, n: nat)
    requires q.Shaped() && n > 0
    ensures Run(q, Alone(t, n)) == Step(Run(q, Alone(t, n - 1)), t, Proceed)
  {
    assert Alone(t, n) == Alone(t, n - 1) + [(t, Proceed)];
    RunSnoc(q, Alone(t, n - 1), t, Proceed);
  }

  /** The first step of a lone run, and the rest. */
  lemma {:induction false} AloneFirst(q: Queue, t: nat, n: nat)
    requires q.Shaped() && n > 0
    ensures Run(q, Alone(t, n)) == Run(Step(q, t, Proceed), Alone(t, n - 1))
    decreases n
  {
    AloneOnce(q, t, n);
    if n == 1 {
      assert Alone(t, 0) == [];
    } else {
      AloneFirst(q, t, n - 1);
      AloneOnce(Step(q, t, Proceed), t, n - 1);
    }
  }

  /** A resting thread told to proceed stays where it is. */
  lemma {:induction false} RestStays(q: Queue, t: nat, n: nat)
    requires q.Shaped() && Resting(q.At(t))
    ensures Run(q, Alone(t, n)) == q
    decreases n
  {
    if n > 0 {
      RestStays(q, t, n - 1);
      AloneOnce(q, t, n);
    }
  }

  /** Where an undisturbed call ends, from any point inside it. */
  ghost predicate LoneOutcome(q: Queue, t: nat, q': Queue) {
    && q'.Shaped() && q'.cap == q.cap && Resting(q'.At(t))
    && (forall u: nat :: u != t ==> q'.At(u) == q.At(u))
    && match q.At(t)
       case OfferAt(item, _) => OfferOutcome(q, t, item, q')
       case OfferReload(item) => OfferOutcome(q, t, item, q')
       case OfferTry(item, _) => OfferOutcome(q, t, item, q')
       case OfferCopy(_, _, _) => Kept(q, q') && q'.taken == q.taken && q'.At(t) == Returned(Accepted)
       case OfferRelease(_, _) => Kept(q, q') && q'.taken == q.taken && q'.At(t) == Returned(Accepted)
       case PollAt(_) => PollOutcome(q, t, q')
       case PollReload => PollOutcome(q, t, q')
       case PollTry(_) => PollOutcome(q, t, q')
       case PollCopy(pos, _) => Kept(q, q') && TakesAt(q, t, pos, q')
       case PollRelease(pos, _) => Kept(q, q') && TakesAt(q, t, pos, q')
       case Idle => q' == q
       case Returned(_) => q' == q
  }

  /** No position was claimed on either side. */
  predicate Kept(q: Queue, q': Queue) { q'.head == q.head && q'.tail == q.tail && q'.claimed == q.claimed }

  /** The item claimed at pos was taken and is the answer. */
  ghost predicate TakesAt(q: Queue, t: nat, pos: nat, q': Queue) {
    pos < |q.claimed| && q'.taken == q.taken[pos := q.claimed[pos]] && q'.At(t) == Returned(Took(pos, q.claimed[pos]))
  }

  /** An undisturbed offer appends its item unless the queue is full. */
  ghost predicate OfferOutcome(q: Queue, t: nat, item: Item, q': Queue) {
    && q'.head == q.head && q'.taken == q.taken
    && if FullAt(q, q.tail) then Kept(q, q') && q'.At(t) == Returned(Full)
       else q'.tail == q.tail + 1 && q'.claimed == q.claimed + [item] && q'.At(t) == Returned(Accepted)
  }

  /** An undisturbed poll takes the oldest item unless there is none to take yet. */
  ghost predicate PollOutcome(q: Queue, t: nat, q': Queue) {
    && q'.tail == q.tail && q'.claimed == q.claimed
    && if EmptyAt(q, q.head) then q'.head == q.head && q'.taken == q.taken && q'.At(t) == Returned(Empty)
       else q'.head == q.head + 1 && TakesAt(q, t, q.head, q')
  }

  // ---- The outcome, from the last step backwards ----

  /** A step of a thread that writes nowhere before or after it does not change who writes what. */
  lemma WritingSame(q: Queue, q': Queue, t: nat, p: nat)
    requires q'.threads == q.threads[t := q'.At(t)] && !WritesAt(q.At(t), p) && !WritesAt(q'.At(t), p)
    ensures Writing(q, p) <==> Writing(q', p)
  {
    forall u: nat ensures WritesAt(q.At(u), p) <==> WritesAt(q'.At(u), p) {
      if u != t { assert q'.At(u) == q.At(u); }
    }
  }

  lemma OfferSearchStep(q: Queue, t: nat, r: Queue)
    requires Inv(q) && (q.At(t).OfferAt? || q.At(t).OfferReload?) && LoneOutcome(Step(q, t, Proceed), t, r)
    ensures LoneOutcome(q, t, r)
  {
    var q1 := Step(q, t, Proceed);
    assert ThreadInv(q, t);
    forall u: nat | u != t ensures r.At(u) == q.At(u) { OthersStay(q, t, Proceed, u); }
    assert q1 == q.Goto(t, q1.At(t));
    if q.At(t).OfferAt? { BehindMeansUnreleased(q, q.At(t).pos); }
  }

  lemma OfferTryStep(q: Queue, t: nat, r: Queue)
    requires Inv(q) && q.At(t).OfferTry? && LoneOutcome(Step(q, t, Proceed), t, r)
    ensures LoneOutcome(q, t, r)
  {
    forall u: nat | u != t ensures r.At(u) == q.At(u) { OthersStay(q, t, Proceed, u); }
    if q.tail == q.At(t).pos {
      OfferTrySees(q, t);
      BehindMeansUnreleased(q, q.tail);
    }
  }

  lemma OfferWriteStep(q: Queue, t: nat, r: Queue)
    requires Inv(q) && (q.At(t).OfferCopy? || q.At(t).OfferRelease?) && LoneOutcome(Step(q, t, Proceed), t, r)
    ensures LoneOutcome(q, t, r)
  {
    forall u: nat | u != t ensures r.At(u) == q.At(u) { OthersStay(q, t, Proceed, u); }
  }

  lemma PollSearchStep(q: Queue, t: nat, r: Queue)
    requires Inv(q) && (q.At(t).PollAt? || q.At(t).PollReload?) && LoneOutcome(Step(q, t, Proceed), t, r)
    ensures LoneOutcome(q, t, r)
  {
    var q1 := Step(q, t, Proceed);
    assert ThreadInv(q, t);
    forall u: nat | u != t ensures r.At(u) == q.At(u) { OthersStay(q, t, Proceed, u); }
    assert q1 == q.Goto(t, q1.At(t));
    WritingSame(q, q1, t, q.head);
    if q.At(t).PollAt? && q1.At(t) == Returned(Empty) { BelowPublished(q, q.At(t).pos); }
  }

  lemma PollTryStep(q: Queue, t: nat, r: Queue)
    requires Inv(q) && q.At(t).PollTry? && LoneOutcome(Step(q, t, Proceed), t, r)
    ensures LoneOutcome(q, t, r)
  {
    forall u: nat | u != t ensures r.At(u) == q.At(u) { OthersStay(q, t, Proceed, u); }
    if q.head == q.At(t).pos {
      PollTrySees(q, t);
      if Writing(q, q.head) { UnpublishedHead(q, q.head); }
    } else {
      WritingSame(q, Step(q, t, Proceed), t, q.head);
    }
  }

  lemma PollReadStep(q: Queue, t: nat, r: Queue)
    requires Inv(q) && (q.At(t).PollCopy? || q.At(t).PollRelease?) && LoneOutcome(Step(q, t, Proceed), t, r)
    ensures LoneOutcome(q, t, r)
  {
    forall u: nat | u != t ensures r.At(u) == q.At(u) { OthersStay(q, t, Proceed, u); }
    if q.At(t).PollRelease? {
      var pos := q.At(t).pos;
      assert ThreadInv(q, t) && SlotInv(q, pos % q.cap);
      ResidueNext(pos, q.cap);
    }
  }

  lemma OutcomeStep(q: Queue, t: nat, r: Queue)
    requires Inv(q) && !Resting(q.At(t)) && LoneOutcome(Step(q, t, Proceed), t, r)
    ensures LoneOutcome(q, t, r)
  {
    match q.At(t)
    case OfferAt(_, _) => OfferSearchStep(q, t, r);
    case OfferReload(_) => OfferSearchStep(q, t, r);
    case OfferTry(_, _) => OfferTryStep(q, t, r);
    case OfferCopy(_, _, _) => OfferWriteStep(q, t, r);
    case OfferRelease(_, _) => OfferWriteStep(q, t, r);
    case PollAt(_) => PollSearchStep(q, t, r);
    case PollReload => PollSearchStep(q, t, r);
    case PollTry(_) => PollTryStep(q, t, r);
    case PollCopy(_, _) => PollReadStep(q, t, r);
    case PollRelease(_, _) => PollReadStep(q, t, r);
  }

  lemma {:induction false} LoneCall(q: Queue, t: nat, n: nat)
    requires Inv(q) && Distance(q, t) <= n
    ensures LoneOutcome(q, t, Run(q, Alone(t, n)))
    decreases n
  {
    if Resting(q.At(t)) {
      RestStays(q, t, n);
    } else {
      StepShortens(q, t);
      StepKeepsInv(q, t, Proceed);
      AloneFirst(q, t, n);
      LoneCall(Step(q, t, Proceed), t, n - 1);
      OutcomeStep(q, t, Run(q, Alone(t, n)));
    }
  }

  /**
    From any reachable state, a thread left alone anywhere inside a call answers within size + 7 steps: an offer appends
    its item unless the queue is full, and a poll takes the oldest item unless there is none to take yet.
   */
  lemma LoneCallsAnswer(cap: nat, size: nat, s: Schedule, t: nat)
    requires InitAccepts(cap) && cap >= 2
    ensures var q := Reached(cap, size, s); LoneOutcome(q, t, Run(q, Alone(t, size + 7)))
  {
    RunKeepsInv(cap, size, s);
    LoneCall(Reached(cap, size, s), t, size + 7);
  }
}
