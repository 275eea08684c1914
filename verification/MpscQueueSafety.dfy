/**
  What every schedule of the ring queue keeps: exclusive slots, first-in first-out, exactly once, and honest refusals.
 */
module MpscQueueSafety {
  import opened Bits
  import opened MpscQueue

  /** The life of one slot: waiting for or being filled by its next position, or holding the item of the last one. */
  ghost predicate SlotInv(q: Queue, i: nat)
    requires q.Shaped() && i < q.cap && |q.claimed| == q.tail
  {
    var v := q.sequence[i];
    || (&& v % q.cap == i
        && q.head <= v < q.head + q.cap
        && (v < q.tail ==> WritesAt(q.At(q.owner[i]), v)))
    || (&& v >= 1 && (v - 1) % q.cap == i
        && q.tail - q.cap <= v - 1 < q.tail
        && q.data[i] == q.claimed[v - 1]
        && (v - 1 < q.head ==> ReadsAt(q.At(q.owner[i]), v - 1)))
  }

  ghost predicate ThreadInv(q: Queue, t: nat)
    requires q.Shaped() && |q.claimed| == q.tail
  {
    match q.At(t)
    case Idle => true
    case OfferAt(item, pos) => |item| == q.size && pos <= q.tail
    case OfferReload(item) => |item| == q.size
    case OfferTry(item, pos) => |item| == q.size && pos <= q.tail && q.sequence[pos % q.cap] >= pos
    case OfferCopy(item, pos, k) =>
      var i := pos % q.cap;
      && |item| == q.size && k <= q.size
      && pos < q.tail && q.claimed[pos] == item
      && q.sequence[i] == pos && q.owner[i] == t
      && q.data[i][..k] == item[..k]
    case OfferRelease(item, pos) =>
      var i := pos % q.cap;
      && pos < q.tail && q.claimed[pos] == item
      && q.sequence[i] == pos && q.owner[i] == t
      && q.data[i] == item
    case PollAt(pos) => pos <= q.head
    case PollReload => true
    case PollTry(pos) => pos <= q.head && q.sequence[pos % q.cap] >= pos + 1
    case PollCopy(pos, got) =>
      var i := pos % q.cap;
      && pos < q.head <= q.tail
      && q.sequence[i] == pos + 1 && q.owner[i] == t
      && |got| <= q.size && got == q.data[i][..|got|]
    case PollRelease(pos, item) =>
      var i := pos % q.cap;
      && pos < q.head <= q.tail
      && q.sequence[i] == pos + 1 && q.owner[i] == t
      && item == q.data[i]
    case Returned(r) => r.Took? ==> r.pos in q.taken && q.taken[r.pos] == r.item
  }

  /** Position p was taken by a finished poll exactly when no poll is still reading it. */
  ghost predicate TakenInv(q: Queue, p: nat)
    requires q.Shaped() && |q.claimed| == q.tail && q.head <= q.tail
  {
    if p < q.head then
      && (p in q.taken <==> q.sequence[p % q.cap] != p + 1)
      && (p in q.taken ==> q.taken[p] == q.claimed[p])
    else p !in q.taken
  }

  ghost predicate Inv(q: Queue) {
    && q.Shaped() && q.cap >= 2
    && q.head <= q.tail <= q.head + q.cap
    && |q.claimed| == q.tail
    && (forall i: nat :: i < q.cap ==> SlotInv(q, i))
    && (forall t: nat :: ThreadInv(q, t))
    && (forall p: nat :: TakenInv(q, p))
  }

  lemma InitInv(cap: nat, size: nat)
    requires InitAccepts(cap) && cap >= 2
    ensures Inv(Init(cap, size))
  {
    var q := Init(cap, size);
    forall i: nat | i < cap
      ensures SlotInv(q, i)
    {
      DivModUnique(i, cap, 0, i);
    }
  }

  /** A thread about to exchange tail still finds its slot free when tail has not moved. */
  lemma OfferTrySees(q: Queue, t: nat)
    requires Inv(q) && q.At(t).OfferTry? && q.tail == q.At(t).pos
    ensures q.sequence[q.tail % q.cap] == q.tail && q.tail < q.head + q.cap
  {
    var i := q.tail % q.cap;
    var v := q.sequence[i];
    assert SlotInv(q, i) && ThreadInv(q, t);
    if v % q.cap == i && q.head <= v < q.head + q.cap {
      if v > q.tail { ResidueGap(q.tail, v, q.cap); }
    } else {
      ResidueNext(v - 1, q.cap);
    }
  }

  /** A thread about to exchange head still finds its slot published when head has not moved. */
  lemma PollTrySees(q: Queue, t: nat)
    requires Inv(q) && q.At(t).PollTry? && q.head == q.At(t).pos
    ensures q.sequence[q.head % q.cap] == q.head + 1 && q.head < q.tail
  {
    var i := q.head % q.cap;
    var v := q.sequence[i];
    assert SlotInv(q, i) && ThreadInv(q, t);
    if v % q.cap == i && q.head <= v < q.head + q.cap {
      ResidueGap(q.head, v, q.cap);
    } else {
      if v - 1 > q.head { ResidueGap(q.head, v - 1, q.cap); }
    }
  }

  /** Steps that change nothing but the thread's own program counter. */
  lemma LocalStep(q: Queue, t: nat, pc: Thread)
    requires Inv(q) && !Owns(q.At(t)) && !Owns(pc)
    requires ThreadInv(q.Goto(t, pc), t)
    ensures Inv(q.Goto(t, pc))
  {
    var q' := q.Goto(t, pc);
    forall i: nat | i < q.cap
      ensures SlotInv(q', i)
    {
      assert SlotInv(q, i);
    }
    forall u: nat
      ensures ThreadInv(q', u)
    {
      assert ThreadInv(q, u);
    }
    forall p: nat
      ensures TakenInv(q', p)
    {
      assert TakenInv(q, p);
    }
  }

  lemma ClaimTail(q: Queue, t: nat)
    requires Inv(q) && q.At(t).OfferTry? && q.tail == q.At(t).pos
    ensures Inv(OfferClaim(q, t, q.At(t).item))
  {
    var q' := OfferClaim(q, t, q.At(t).item);
    var w := q.tail % q.cap;
    OfferTrySees(q, t);
    forall i: nat | i < q.cap
      ensures SlotInv(q', i)
    {
      assert SlotInv(q, i);
      var v := q.sequence[i];
      if i != w && v >= 1 && v - 1 == q.tail - q.cap {
        ResidueShift(v - 1, q.cap);
      }
      if i == w && v >= 1 { ResidueNext(v - 1, q.cap); }
    }
    forall u: nat
      ensures ThreadInv(q', u)
    {
      assert ThreadInv(q, u);
      if u != t && Owns(q.At(u)) {
        OwnerNotFree(q, u, w);
      }
    }
    forall p: nat
      ensures TakenInv(q', p)
    {
      assert TakenInv(q, p);
    }
  }

  /** The slot of an owning thread is neither the free slot at tail nor the published slot at head. */
  lemma OwnerNotFree(q: Queue, u: nat, w: nat)
    requires Inv(q) && Owns(q.At(u)) && w < q.cap
    requires (w == q.tail % q.cap && q.sequence[w] == q.tail) || (w == q.head % q.cap && q.sequence[w] == q.head + 1)
    ensures q.At(u).pos % q.cap != w
  {
    var p := q.At(u).pos;
    assert ThreadInv(q, u);
    if p % q.cap == w {
      if q.sequence[w] == q.tail && w == q.tail % q.cap {
        ResidueNext(p, q.cap);
      } else {
        ResidueNext(q.head, q.cap);
      }
    }
  }

  lemma ClaimHeadThreads(q: Queue, t: nat, u: nat)
    requires Inv(q) && q.At(t).PollTry? && q.head == q.At(t).pos
    ensures ThreadInv(PollClaim(q, t), u)
  {
    PollTrySees(q, t);
    assert ThreadInv(q, u);
    if u != t && Owns(q.At(u)) {
      OwnerNotFree(q, u, q.head % q.cap);
    }
  }

  lemma ClaimHead(q: Queue, t: nat)
    requires Inv(q) && q.At(t).PollTry? && q.head == q.At(t).pos
    ensures Inv(PollClaim(q, t))
  {
    var q' := PollClaim(q, t);
    PollTrySees(q, t);
    ResidueNext(q.head, q.cap);
    forall i: nat | i < q.cap
      ensures SlotInv(q', i)
    {
      assert SlotInv(q, i);
    }
    forall u: nat
      ensures ThreadInv(q', u)
    {
      ClaimHeadThreads(q, t, u);
    }
    forall p: nat
      ensures TakenInv(q', p)
    {
      assert TakenInv(q, p);
    }
  }

  /** Two threads that own slots own different ones. */
  lemma Exclusive(q: Queue, t: nat, u: nat)
    requires Inv(q) && t != u && Owns(q.At(t)) && Owns(q.At(u))
    ensures q.At(t).pos % q.cap != q.At(u).pos % q.cap
  {
    assert ThreadInv(q, t) && ThreadInv(q, u);
  }

  /** The owner writes only inside its own slot, one more word of the item it claimed with. */
  lemma WordThreads(q: Queue, q': Queue, t: nat, u: nat)
    requires Inv(q) && q.At(t).OfferCopy?
    requires q' == OfferWord(q, t, q.At(t).item, q.At(t).pos, q.At(t).copied)
    ensures ThreadInv(q', u)
  {
    var OfferCopy(item, pos, k) := q.At(t);
    var w := pos % q.cap;
    assert ThreadInv(q, t) && ThreadInv(q, u);
    if u != t {
      if Owns(q.At(u)) { Exclusive(q, t, u); }
      assert q'.At(u) == q.At(u);
    } else if k < q.size {
      assert q'.data[w][..k + 1] == q.data[w][..k] + [item[k]];
      assert item[..k + 1] == item[..k] + [item[k]];
    } else {
      assert q.data[w] == q.data[w][..k] && item == item[..k];
    }
  }

  lemma CopyIn(q: Queue, t: nat)
    requires Inv(q) && q.At(t).OfferCopy?
    ensures Inv(OfferWord(q, t, q.At(t).item, q.At(t).pos, q.At(t).copied))
  {
    var OfferCopy(item, pos, k) := q.At(t);
    var q' := OfferWord(q, t, item, pos, k);
    var w := pos % q.cap;
    assert ThreadInv(q, t);
    if pos >= 1 { ResidueNext(pos - 1, q.cap); }
    forall i: nat | i < q.cap
      ensures SlotInv(q', i)
    {
      assert SlotInv(q, i);
    }
    forall u: nat
      ensures ThreadInv(q', u)
    {
      WordThreads(q, q', t, u);
    }
    forall p: nat
      ensures TakenInv(q', p)
    {
      assert TakenInv(q, p);
    }
  }

  lemma CopyOut(q: Queue, t: nat)
    requires Inv(q) && q.At(t).PollCopy?
    ensures Inv(PollWord(q, t, q.At(t).pos, q.At(t).got))
  {
    var PollCopy(pos, got) := q.At(t);
    var w := pos % q.cap;
    assert ThreadInv(q, t);
    if |got| < q.size {
      assert q.data[w][..|got| + 1] == got + [q.data[w][|got|]];
      KeepReading(q, t, PollCopy(pos, q.data[w][..|got| + 1]));
    } else {
      assert q.data[w][..|got|] == q.data[w];
      KeepReading(q, t, PollRelease(pos, got));
    }
  }

  /** A reader that keeps its position changes nothing the others rely on. */
  lemma KeepReading(q: Queue, t: nat, pc: Thread)
    requires Inv(q) && q.At(t).PollCopy? && ReadsAt(pc, q.At(t).pos)
    requires ThreadInv(q.Goto(t, pc), t)
    ensures Inv(q.Goto(t, pc))
  {
    var q' := q.Goto(t, pc);
    assert ThreadInv(q, t);
    forall i: nat | i < q.cap
      ensures SlotInv(q', i)
    {
      assert SlotInv(q, i);
    }
    forall u: nat
      ensures ThreadInv(q', u)
    {
      assert ThreadInv(q, u);
    }
    forall p: nat
      ensures TakenInv(q', p)
    {
      assert TakenInv(q, p);
    }
  }

  lemma StoreThreads(q: Queue, q': Queue, t: nat, u: nat)
    requires Inv(q) && q.At(t).OfferRelease? && q' == OfferPublish(q, t, q.At(t).pos)
    ensures ThreadInv(q', u)
  {
    assert ThreadInv(q, t) && ThreadInv(q, u);
    if u != t && Owns(q.At(u)) {
      Exclusive(q, t, u);
    }
  }

  lemma Publish(q: Queue, t: nat)
    requires Inv(q) && q.At(t).OfferRelease?
    ensures Inv(OfferPublish(q, t, q.At(t).pos))
  {
    var pos := q.At(t).pos;
    var q' := OfferPublish(q, t, pos);
    var w := pos % q.cap;
    assert ThreadInv(q, t) && SlotInv(q, w);
    if pos >= 1 { ResidueNext(pos - 1, q.cap); }
    forall i: nat | i < q.cap
      ensures SlotInv(q', i)
    {
      assert SlotInv(q, i);
    }
    forall u: nat
      ensures ThreadInv(q', u)
    {
      StoreThreads(q, q', t, u);
    }
    forall p: nat
      ensures TakenInv(q', p)
    {
      assert TakenInv(q, p);
      if p % q.cap == w && p + 1 == pos { ResidueNext(p, q.cap); }
    }
  }

  lemma ReleaseSlots(q: Queue, q': Queue, t: nat, i: nat)
    requires Inv(q) && q.At(t).PollRelease? && q' == PollFree(q, t, q.At(t).pos, q.At(t).item) && i < q.cap
    ensures SlotInv(q', i)
  {
    var pos := q.At(t).pos;
    var w := pos % q.cap;
    assert ThreadInv(q, t) && SlotInv(q, w) && SlotInv(q, i);
    ResidueNext(pos, q.cap);
    ResidueShift(pos, q.cap);
    assert q'.sequence == q.sequence[w := pos + q.cap];
  }

  lemma ReleaseTaken(q: Queue, q': Queue, t: nat, p: nat)
    requires Inv(q) && q.At(t).PollRelease? && q' == PollFree(q, t, q.At(t).pos, q.At(t).item)
    ensures TakenInv(q', p)
  {
    var pos := q.At(t).pos;
    var w := pos % q.cap;
    assert ThreadInv(q, t) && SlotInv(q, w) && TakenInv(q, p);
    assert q'.sequence == q.sequence[w := pos + q.cap];
    if p % q.cap == w && p + 1 == pos + q.cap {
      ResidueNext(p, q.cap);
      ResidueShift(pos, q.cap);
    }
    ResidueNext(pos, q.cap);
  }

  lemma ReleaseThreads(q: Queue, q': Queue, t: nat, u: nat)
    requires Inv(q) && q.At(t).PollRelease? && q' == PollFree(q, t, q.At(t).pos, q.At(t).item)
    ensures ThreadInv(q', u)
  {
    assert ThreadInv(q, t) && ThreadInv(q, u) && TakenInv(q, q.At(t).pos);
    if u != t && Owns(q.At(u)) {
      Exclusive(q, t, u);
    }
  }

  /** A finishing poll records its position for the first time and hands the slot to the next lap. */
  lemma Release(q: Queue, t: nat)
    requires Inv(q) && q.At(t).PollRelease?
    ensures Inv(PollFree(q, t, q.At(t).pos, q.At(t).item))
    ensures q.At(t).pos !in q.taken
  {
    var pos := q.At(t).pos;
    var q' := PollFree(q, t, pos, q.At(t).item);
    assert ThreadInv(q, t) && TakenInv(q, pos);
    forall i: nat | i < q.cap
      ensures SlotInv(q', i)
    {
      ReleaseSlots(q, q', t, i);
    }
    forall u: nat
      ensures ThreadInv(q', u)
    {
      ReleaseThreads(q, q', t, u);
    }
    forall p: nat
      ensures TakenInv(q', p)
    {
      ReleaseTaken(q, q', t, p);
    }
  }

  /** Loads and failed exchanges move only the program counter, to one whose facts hold. */
  lemma LoadStep(q: Queue, t: nat, c: Choice)
    requires Inv(q)
    requires var pc := q.At(t); pc.OfferAt? || pc.OfferReload? || pc.PollAt? || pc.PollReload?
    ensures Inv(Step(q, t, c))
  {
    var pc := Step(q, t, c).At(t);
    assert ThreadInv(q, t);
    assert Step(q, t, c) == q.Goto(t, pc);
    LocalStep(q, t, pc);
  }

  lemma StartStep(q: Queue, t: nat, c: Choice)
    requires Inv(q) && !Owns(q.At(t))
    ensures Inv(Start(q, t, c))
  {
    match c
    case StartOffer(item) =>
      if |item| == q.size { LocalStep(q, t, OfferAt(item, q.tail)); }
    case StartPoll => LocalStep(q, t, PollAt(q.head));
    case _ =>
  }

  lemma ExchangeStep(q: Queue, t: nat, c: Choice)
    requires Inv(q) && (q.At(t).OfferTry? || q.At(t).PollTry?)
    ensures Inv(Step(q, t, c))
  {
    var pc := q.At(t);
    assert ThreadInv(q, t);
    if pc.OfferTry? {
      if q.tail == pc.pos && !c.FailSpuriously? {
        ClaimTail(q, t);
      } else {
        LocalStep(q, t, OfferAt(pc.item, q.tail));
      }
    } else {
      if q.head == pc.pos && !c.FailSpuriously? {
        ClaimHead(q, t);
      } else {
        LocalStep(q, t, PollAt(q.head));
      }
    }
  }

  /** Every step of every thread keeps the invariant. */
  lemma StepKeepsInv(q: Queue, t: nat, c: Choice)
    requires Inv(q)
    ensures Inv(Step(q, t, c))
  {
    var pc := q.At(t);
    if pc.Idle? || pc.Returned? { StartStep(q, t, c); }
    else if pc.OfferTry? || pc.PollTry? { ExchangeStep(q, t, c); }
    else if pc.OfferCopy? { CopyIn(q, t); }
    else if pc.PollCopy? { CopyOut(q, t); }
    else if pc.OfferRelease? { Publish(q, t); }
    else if pc.PollRelease? { Release(q, t); }
    else { LoadStep(q, t, c); }
  }

  lemma {:induction false} RunKeepsInv(cap: nat, size: nat, s: Schedule)
    requires InitAccepts(cap) && cap >= 2
    ensures Init(cap, size).Shaped() && Inv(Run(Init(cap, size), s))
    decreases |s|
  {
    if s == [] {
      InitInv(cap, size);
    } else {
      var last := |s| - 1;
      RunKeepsInv(cap, size, s[..last]);
      StepKeepsInv(Run(Init(cap, size), s[..last]), s[last].0, s[last].1);
    }
  }
}
