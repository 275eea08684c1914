/** The same ring queue as a caller alone with it sees it: a bounded first-in first-out buffer, updated in place. */
module MpscQueueInPlace {
  import opened Bits

  datatype PollResult = Item(item: seq<int>) | Empty | Mismatch

  datatype OfferResult = Accepted | Full | WrongSize

  function Index(p: nat, cap: nat): (i: nat)
    requires IsPowerOfTwo(cap)
    ensures i < cap
  {
    And(p, cap - 1)
  }

  /** Positions less than a lap apart have different slots; a lap apart, the same. */
  lemma Slots(p: nat, q: nat, cap: nat)
    requires IsPowerOfTwo(cap)
    ensures p < q < p + cap ==> Index(p, cap) != Index(q, cap)
    ensures Index(p + cap, cap) == Index(p, cap)
  {
    RingIndex(p, cap);
    RingIndex(q, cap);
    RingIndex(p + cap, cap);
    ResidueShift(p, cap);
    if p < q < p + cap && Index(p, cap) == Index(q, cap) { ResidueGap(p, q, cap); }
  }

  /** The slots of one lap: the claimed positions are published, the others free. */
  ghost predicate Lap(s: seq<nat>, cap: nat, head: nat, tail: nat) {
    && IsPowerOfTwo(cap) && |s| == cap && head <= tail <= head + cap
    && (forall p: nat :: head <= p < tail ==> s[Index(p, cap)] == p + 1)
    && (forall p: nat :: tail <= p < head + cap ==> s[Index(p, cap)] == p)
  }

  /** Releasing the oldest position readies its slot for the next lap. */
  lemma NextLap(s: seq<nat>, cap: nat, head: nat, tail: nat)
    requires Lap(s, cap, head, tail) && head < tail
    ensures Lap(s[Index(head, cap) := head + cap], cap, head + 1, tail)
  {
    forall p: nat | head < p <= head + cap
      ensures Index(p, cap) == Index(head, cap) <==> p == head + cap
    {
      Slots(head, p, cap);
    }
  }

  /** Publishing the next position leaves the others of the lap, whose slots are different. */
  lemma ClaimedLap(s: seq<nat>, cap: nat, head: nat, tail: nat)
    requires Lap(s, cap, head, tail) && tail < head + cap
    ensures Lap(s[Index(tail, cap) := tail + 1], cap, head, tail + 1)
    ensures forall p: nat :: head <= p < tail ==> Index(p, cap) != Index(tail, cap)
  {
    forall p: nat | head <= p < head + cap && p != tail
      ensures Index(p, cap) != Index(tail, cap)
    {
      Slots(p, tail, cap);
      Slots(tail, p, cap);
    }
  }

  /** The data of n positions from head on. */
  ghost function Items(data: seq<seq<int>>, cap: nat, head: nat, n: nat): (items: seq<seq<int>>)
    requires IsPowerOfTwo(cap) && |data| == cap
    ensures |items| == n
  {
    seq(n, i requires 0 <= i < n => data[Index(head + i, cap)])
  }

  lemma OldestFirst(data: seq<seq<int>>, cap: nat, head: nat, n: nat)
    requires IsPowerOfTwo(cap) && |data| == cap && n > 0
    ensures Items(data, cap, head, n) == [data[Index(head, cap)]] + Items(data, cap, head + 1, n - 1)
  {
  }

  lemma NewestLast(data: seq<seq<int>>, cap: nat, head: nat, n: nat, item: seq<int>)
    requires IsPowerOfTwo(cap) && |data| == cap
    requires forall p: nat :: head <= p < head + n ==> Index(p, cap) != Index(head + n, cap)
    ensures Items(data[Index(head + n, cap) := item], cap, head, n + 1) == Items(data, cap, head, n) + [item]
  {
  }

  class Ring {
    const cap: nat
    const size: nat
    const sequence: array<nat>
    const data: array<seq<int>>
    var head: nat
    var tail: nat

    ghost predicate Shaped()
      reads this
    {
      IsPowerOfTwo(cap) && sequence.Length == cap && data.Length == cap
    }

    /** Between calls: the claimed positions are published, the rest of the lap is free. */
    ghost predicate Valid()
      reads this, sequence, data
    {
      Shaped() && Lap(sequence[..], cap, head, tail)
    }

    /** What has been accepted and not yet taken, oldest first. */
    ghost function Contents(): (items: seq<seq<int>>)
      reads this, sequence, data
      requires Valid()
      ensures |items| == tail - head
    {
      Items(data[..], cap, head, tail - head)
    }

    constructor (cap: nat, size: nat)
      requires IsPowerOfTwo(cap)
      ensures Valid() && Contents() == [] && this.cap == cap && this.size == size
      ensures fresh(sequence) && fresh(data)
    {
      this.cap, this.size := cap, size;
      sequence := new nat[cap](i => i);
      data := new seq<int>[cap](_ => seq(size, _ => 0));
      head, tail := 0, 0;
      new;
      forall p: nat | p < cap ensures Index(p, cap) == p {
        RingIndex(p, cap);
        InRange(p, cap);
      }
    }

    /** A position's slot is free, published, or still unreleased from the lap before. */
    lemma SlotOfTail()
      requires Valid()
      ensures sequence[Index(tail, cap)] == if tail < head + cap then tail else tail - cap + 1
    {
      if tail == head + cap {
        Slots(head, head, cap);
      }
    }

    lemma SlotOfHead()
      requires Valid()
      ensures sequence[Index(head, cap)] == if head < tail then head + 1 else head
    {
    }

    /**
      An offer appends its item unless the ring is full. In a ring of one slot a full ring looks free: the offer is
      accepted over the item still waiting.
     */
    method Offer(item: seq<int>, spurious: nat) returns (r: OfferResult)
      requires Valid()
      modifies this`tail, sequence, data
      ensures r == if |item| != size then WrongSize else if |old(Contents())| == cap && cap >= 2 then Full else Accepted
      ensures Valid() <==> r != Accepted || |old(Contents())| < cap
      ensures Valid() ==> Contents() == if r == Accepted then old(Contents()) + [item] else old(Contents())
      ensures !Valid() ==> cap == 1 && data[..] == [item] && sequence[..] == [tail] && tail == old(tail) + 1
    {
      if |item| != size { return WrongSize; }
      var pos := tail;
      var failures := spurious;
      while true
        invariant Valid() && pos == tail == old(tail) && head == old(head) && Contents() == old(Contents())
        decreases failures
      {
        SlotOfTail();
        var sn := sequence[Index(pos, cap)];
        if sn == pos {
          if failures == 0 {
            Claim(pos, item);
            return Accepted;
          }
          failures := failures - 1;
          pos := tail;
        } else if sn < pos {
          return Full;
        } else {
          assert false;
        }
      }
    }

    method Claim(pos: nat, item: seq<int>)
      requires Valid() && pos == tail && (tail < head + cap || cap == 1)
      modifies this`tail, sequence, data
      ensures tail == old(tail) + 1
      ensures sequence[..] == old(sequence[..])[Index(pos, cap) := pos + 1]
      ensures data[..] == old(data[..])[Index(pos, cap) := item]
      ensures pos < head + cap ==> Valid() && Contents() == old(Contents()) + [item]
    {
      ghost var before: seq<nat> := sequence[..];
      ghost var held: seq<seq<int>> := data[..];
      if tail < head + cap {
        ClaimedLap(before, cap, head, tail);
        NewestLast(held, cap, head, tail - head, item);
      }
      tail := pos + 1;
      data[Index(pos, cap)] := item;
      sequence[Index(pos, cap)] := pos + 1;
      assert sequence[..] == before[Index(pos, cap) := pos + 1];
      assert data[..] == held[Index(pos, cap) := item];
    }

    method Poll(wanted: nat, spurious: nat) returns (r: PollResult)
      requires Valid()
      modifies this`head, sequence
      ensures Valid()
      ensures r == if wanted != size then Mismatch
                   else if old(Contents()) == [] then Empty
                   else Item(old(Contents())[0])
      ensures Contents() == if r.Item? then old(Contents())[1..] else old(Contents())
    {
      if wanted != size { return Mismatch; }
      var pos := head;
      var failures := spurious;
      while true
        invariant Valid() && pos == head == old(head) && tail == old(tail) && Contents() == old(Contents())
        decreases failures
      {
        SlotOfHead();
        var sn := sequence[Index(pos, cap)];
        if sn == pos + 1 {
          if failures == 0 {
            var item := Release(pos);
            return Item(item);
          }
          failures := failures - 1;
          pos := head;
        } else if sn < pos + 1 {
          return Empty;
        } else {
          assert false;
        }
      }
    }

    method Release(pos: nat) returns (item: seq<int>)
      requires Valid() && pos == head < tail
      modifies this`head, sequence
      ensures Valid() && [item] + Contents() == old(Contents())
    {
      ghost var before: seq<nat> := sequence[..];
      NextLap(before, cap, head, tail);
      OldestFirst(data[..], cap, head, tail - head);
      head := pos + 1;
      item := data[Index(pos, cap)];
      sequence[Index(pos, cap)] := pos + (cap - 1) + 1;
      assert sequence[..] == before[Index(pos, cap) := pos + cap];
    }
  }
}
