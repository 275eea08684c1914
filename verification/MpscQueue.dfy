/**
  The bounded ring queue with one sequence counter per slot, as a machine whose threads interleave
  one shared-memory access at a time. Any number of threads may offer and any number may poll.
  Positions are unbounded; the slots are taken as already allocated.
 */
module MpscQueue {
  import opened Bits

  /** An item is a block of words; it is copied into and out of a slot one word at a time. */
  type Item = seq<int>

  datatype Result =
    | Accepted
    | Full
    | Took(pos: nat, item: Item)
    | Empty

  /** Where a thread stands inside offer or poll, with its local variables. */
  datatype Thread =
    | Idle
    | OfferAt(item: Item, pos: nat)                 // holds a position, next loads the slot's sequence
    | OfferTry(item: Item, pos: nat)                // saw the slot free, next compare-exchanges tail
    | OfferReload(item: Item)                       // saw the slot ahead, next loads tail again
    | OfferCopy(item: Item, pos: nat, copied: nat)  // owns the slot, copies the next word
    | OfferRelease(item: Item, pos: nat)            // copied everything, next stores the sequence
    | PollAt(pos: nat)
    | PollTry(pos: nat)
    | PollReload
    | PollCopy(pos: nat, got: Item)
    | PollRelease(pos: nat, item: Item)
    | Returned(result: Result)

  /** What the scheduler decides: which call a resting thread makes, and whether a weak exchange fails for no reason. */
  datatype Choice =
    | StartOffer(item: Item)
    | StartPoll
    | Proceed
    | FailSpuriously

  /**
    Shared memory and threads. The last three fields are history: the items in the order their
    positions were claimed, what each completed poll took, and which thread last won each slot.
   */
  datatype Queue = Queue(
    cap: nat,
    size: nat,
    head: nat,
    tail: nat,
    sequence: seq<nat>,
    data: seq<Item>,
    threads: map<nat, Thread>,
    claimed: seq<Item>,
    taken: map<nat, Item>,
    owner: seq<nat>)
  {
    predicate Shaped() {
      && IsPowerOfTwo(cap)
      && |sequence| == cap && |data| == cap && |owner| == cap
      && forall i :: 0 <= i < cap ==> |data[i]| == size
    }

    function Slot(pos: nat): (i: nat)
      requires IsPowerOfTwo(cap)
      ensures i == pos % cap && i < cap
    {
      RingIndex(pos, cap);
      And(pos, cap - 1)
    }

    function At(t: nat): Thread {
      if t in threads then threads[t] else Idle
    }

    function Goto(t: nat, pc: Thread): Queue {
      this.(threads := threads[t := pc])
    }
  }

  /** The queue right after its slots are allocated: slot i is free for position i and the items are zero. */
  function Init(cap: nat, size: nat): Queue {
    Queue(cap, size, 0, 0, seq(cap, i => i), seq(cap, i => seq(size, j => 0)), map[], [], map[], seq(cap, i => 0))
  }

  /** Exactly what initialisation accepts: any power of two, one included. */
  predicate InitAccepts(cap: nat) {
    IsPowerOfTwo(cap)
  }

  /** Offer loads the slot's sequence and compares it with its position. */
  function OfferLoad(q: Queue, t: nat, item: Item, pos: nat): Queue
    requires q.Shaped()
  {
    var v := q.sequence[q.Slot(pos)];
    q.Goto(t, if v == pos then OfferTry(item, pos) else if v < pos then Returned(Full) else OfferReload(item))
  }

  /** Offer compare-exchanges the tail; a failed exchange leaves the current tail in its position. */
  function OfferExchange(q: Queue, t: nat, c: Choice, item: Item, pos: nat): Queue
    requires q.Shaped()
  {
    if q.tail == pos && !c.FailSpuriously? then OfferClaim(q, t, item) else q.Goto(t, OfferAt(item, q.tail))
  }

  function OfferClaim(q: Queue, t: nat, item: Item): Queue
    requires q.Shaped()
  {
    q.(tail := q.tail + 1, claimed := q.claimed + [item], owner := q.owner[q.Slot(q.tail) := t],
       threads := q.threads[t := OfferCopy(item, q.tail, 0)])
  }

  /** Offer copies word k of its item into the slot it owns. */
  function OfferWord(q: Queue, t: nat, item: Item, pos: nat, k: nat): Queue
    requires q.Shaped()
  {
    if k < q.size && k < |item| then
      var i := q.Slot(pos);
      q.(data := q.data[i := q.data[i][k := item[k]]], threads := q.threads[t := OfferCopy(item, pos, k + 1)])
    else
      q.Goto(t, OfferRelease(item, pos))
  }

  /** Offer publishes: the slot's sequence becomes the position plus one. */
  function OfferPublish(q: Queue, t: nat, pos: nat): Queue
    requires q.Shaped()
  {
    q.(sequence := q.sequence[q.Slot(pos) := pos + 1], threads := q.threads[t := Returned(Accepted)])
  }

  function PollLoad(q: Queue, t: nat, pos: nat): Queue
    requires q.Shaped()
  {
    var v := q.sequence[q.Slot(pos)];
    q.Goto(t, if v == pos + 1 then PollTry(pos) else if v < pos + 1 then Returned(Empty) else PollReload)
  }

  function PollExchange(q: Queue, t: nat, c: Choice, pos: nat): Queue
    requires q.Shaped()
  {
    if q.head == pos && !c.FailSpuriously? then PollClaim(q, t) else q.Goto(t, PollAt(q.head))
  }

  function PollClaim(q: Queue, t: nat): Queue
    requires q.Shaped()
  {
    q.(head := q.head + 1, owner := q.owner[q.Slot(q.head) := t], threads := q.threads[t := PollCopy(q.head, [])])
  }

  function PollWord(q: Queue, t: nat, pos: nat, got: Item): Queue
    requires q.Shaped()
  {
    if |got| < q.size then
      q.Goto(t, PollCopy(pos, got + [q.data[q.Slot(pos)][|got|]]))
    else
      q.Goto(t, PollRelease(pos, got))
  }

  /** Poll releases: the slot's sequence becomes the position of the next lap. */
  function PollFree(q: Queue, t: nat, pos: nat, item: Item): Queue
    requires q.Shaped()
  {
    q.(sequence := q.sequence[q.Slot(pos) := pos + (q.cap - 1) + 1], taken := q.taken[pos := item],
       threads := q.threads[t := Returned(Took(pos, item))])
  }

  /** One access to shared memory by thread t. A choice that does not apply leaves the queue as it is. */
  function Step(q: Queue, t: nat, c: Choice): (q': Queue)
    requires q.Shaped()
    ensures q'.Shaped() && q'.cap == q.cap && q'.size == q.size
  {
    match q.At(t)
    case Idle => Start(q, t, c)
    case Returned(_) => Start(q, t, c)
    case OfferAt(item, pos) => OfferLoad(q, t, item, pos)
    case OfferReload(item) => q.Goto(t, OfferAt(item, q.tail))
    case OfferTry(item, pos) => OfferExchange(q, t, c, item, pos)
    case OfferCopy(item, pos, k) => OfferWord(q, t, item, pos, k)
    case OfferRelease(item, pos) => OfferPublish(q, t, pos)
    case PollAt(pos) => PollLoad(q, t, pos)
    case PollReload => q.Goto(t, PollAt(q.head))
    case PollTry(pos) => PollExchange(q, t, c, pos)
    case PollCopy(pos, got) => PollWord(q, t, pos, got)
    case PollRelease(pos, item) => PollFree(q, t, pos, item)
  }

  /** Entering a call: an item of the wrong size is refused, otherwise the first load of tail or head. */
  function Start(q: Queue, t: nat, c: Choice): Queue {
    match c
    case StartOffer(item) => if |item| == q.size then q.Goto(t, OfferAt(item, q.tail)) else q
    case StartPoll => q.Goto(t, PollAt(q.head))
    case Proceed => q
    case FailSpuriously => q
  }

  type Schedule = seq<(nat, Choice)>

  /** The queue after the threads took the steps of a schedule. */
  function Run(q: Queue, s: Schedule): (q': Queue)
    requires q.Shaped()
    ensures q'.Shaped() && q'.cap == q.cap && q'.size == q.size
    decreases |s|
  {
    if s == [] then q else
      var last := |s| - 1;
      Step(Run(q, s[..last]), s[last].0, s[last].1)
  }

  /** Thread t is inside an offer that owns position p. */
  predicate WritesAt(pc: Thread, p: nat) {
    (pc.OfferCopy? || pc.OfferRelease?) && pc.pos == p
  }

  /** Thread t is inside a poll that owns position p. */
  predicate ReadsAt(pc: Thread, p: nat) {
    (pc.PollCopy? || pc.PollRelease?) && pc.pos == p
  }

  predicate Owns(pc: Thread) {
    pc.OfferCopy? || pc.OfferRelease? || pc.PollCopy? || pc.PollRelease?
  }
}
