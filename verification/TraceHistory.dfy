/** The producer's ring-sized record of which trace id each published descriptor carried. */
module TraceHistory {
  import opened Bits

  datatype Link = Link(sn: u64, trace: u64)

  /** What a slot holds before anything is recorded in it. */
  const NOTHING := Link(NULL_U64, 0)

  function SlotOf(nslots: nat, sn: u64): (i: nat)
    requires nslots > 0
    ensures i < nslots
  {
    And(sn, nslots - 1)
  }

  predicate Congruent(nslots: nat, a: u64, b: u64)
    requires nslots > 0
  {
    a % nslots == b % nslots
  }

  /** k is the most recent record among sequence numbers congruent to sn. */
  predicate MostRecent(log: seq<Link>, nslots: nat, sn: u64, k: nat)
    requires nslots > 0 && k < |log|
  {
    Congruent(nslots, log[k].sn, sn) && forall j :: k < j < |log| ==> !Congruent(nslots, log[j].sn, sn)
  }

  /** The ring after a log of records. */
  function Ring(nslots: nat, log: seq<Link>): (r: seq<Link>)
    requires nslots > 0
    ensures |r| == nslots
  {
    if log == [] then seq(nslots, _ => NOTHING)
    else
      var l := log[|log| - 1];
      Ring(nslots, log[..|log| - 1])[SlotOf(nslots, l.sn) := l]
  }

  /** With a power-of-two ring, slots are residue classes. */
  lemma SameSlotIffCongruent(nslots: nat, a: u64, b: u64)
    requires IsPowerOfTwo(nslots)
    ensures SlotOf(nslots, a) == SlotOf(nslots, b) <==> Congruent(nslots, a, b)
  {
    PowerOfTwoTest(nslots);
    var k: nat :| nslots == Pow2(k);
    MaskIsResidue(a, k);
    MaskIsResidue(b, k);
  }

  /** e is the most recent record of sn's residue class, or the blank when the class has none. */
  ghost predicate HeldFor(log: seq<Link>, nslots: nat, sn: u64, e: Link)
    requires nslots > 0
  {
    || (exists k :: 0 <= k < |log| && MostRecent(log, nslots, sn, k) && e == log[k])
    || (e == NOTHING && forall k :: 0 <= k < |log| ==> !Congruent(nslots, log[k].sn, sn))
  }

  lemma HeldForOneMore(log: seq<Link>, nslots: nat, sn: u64, e: Link)
    requires nslots > 0 && log != [] && HeldFor(log[..|log| - 1], nslots, sn, e)
    ensures var l := log[|log| - 1]; HeldFor(log, nslots, sn, if Congruent(nslots, l.sn, sn) then l else e)
  {
    var front, last := log[..|log| - 1], |log| - 1;
    if Congruent(nslots, log[last].sn, sn) {
      assert MostRecent(log, nslots, sn, last);
    } else if k :| 0 <= k < |front| && MostRecent(front, nslots, sn, k) && e == front[k] {
      StillMostRecent(log, nslots, sn, k);
    } else {
      forall k | 0 <= k < |log| ensures !Congruent(nslots, log[k].sn, sn) {
        if k < last { assert log[k] == front[k]; }
      }
    }
  }

  lemma StillMostRecent(log: seq<Link>, nslots: nat, sn: u64, k: nat)
    requires nslots > 0 && k < |log| - 1 && MostRecent(log[..|log| - 1], nslots, sn, k)
    requires !Congruent(nslots, log[|log| - 1].sn, sn)
    ensures MostRecent(log, nslots, sn, k)
  {
    forall j | k < j < |log| ensures !Congruent(nslots, log[j].sn, sn) {
      if j < |log| - 1 { assert log[j] == log[..|log| - 1][j]; }
    }
  }

  /** A slot of the ring holds the most recent record of its residue class. */
  lemma {:induction false} RingHoldsMostRecent(nslots: nat, log: seq<Link>, sn: u64)
    requires IsPowerOfTwo(nslots)
    ensures HeldFor(log, nslots, sn, Ring(nslots, log)[SlotOf(nslots, sn)])
  {
    if log != [] {
      var front := log[..|log| - 1];
      RingHoldsMostRecent(nslots, front, sn);
      SameSlotIffCongruent(nslots, log[|log| - 1].sn, sn);
      HeldForOneMore(log, nslots, sn, Ring(nslots, front)[SlotOf(nslots, sn)]);
    }
  }

  /** The link is the most recent one recorded in its residue class. */
  ghost predicate IsCurrent(log: seq<Link>, nslots: nat, l: Link)
    requires nslots > 0
  {
    exists k :: 0 <= k < |log| && MostRecent(log, nslots, l.sn, k) && log[k] == l
  }

  /**
    The ring accepts a link exactly when it is current in the full log, or is the blank one and its class is unused.
    A nonzero trace id rules the second case out.
   */
  lemma AcceptedIffCurrent(nslots: nat, log: seq<Link>, l: Link)
    requires IsPowerOfTwo(nslots)
    ensures Ring(nslots, log)[SlotOf(nslots, l.sn)] == l <==>
            || IsCurrent(log, nslots, l)
            || (l == NOTHING && forall k :: 0 <= k < |log| ==> !Congruent(nslots, log[k].sn, l.sn))
  {
    RingHoldsMostRecent(nslots, log, l.sn);
    if IsCurrent(log, nslots, l) {
      var k :| 0 <= k < |log| && MostRecent(log, nslots, l.sn, k) && log[k] == l;
      forall j | 0 <= j < |log| && MostRecent(log, nslots, l.sn, j) ensures j == k {}
    }
  }

  class TraceLinks {
    var entries: array<Link>
    ghost var log: seq<Link>

    ghost predicate Valid()
      reads this, entries
    {
      entries.Length > 0 ==> IsPowerOfTwo(entries.Length) && entries[..] == Ring(entries.Length, log)
    }

    /** Attaching to a ring of nslots headers forgets the past. */
    constructor (nslots: nat)
      requires nslots > 0 ==> IsPowerOfTwo(nslots)
      ensures Valid() && entries.Length == nslots && log == [] && fresh(entries)
    {
      entries, log := new Link[nslots](_ => NOTHING), [];
      new;
      assert nslots > 0 ==> entries[..] == Ring(nslots, []);
    }

    method Record(sn: u64, trace: u64)
      requires Valid()
      modifies this`log, entries
      ensures Valid() && log == old(log) + [Link(sn, trace)]
    {
      log := log + [Link(sn, trace)];
      if entries.Length == 0 { return; }
      var index := SlotOf(entries.Length, sn);
      entries[index] := Link(sn, trace);
      assert log[..|log| - 1] == old(log);
    }

    /** The default validator: for a nonzero trace id, membership of the current links of the whole log. */
    method Validate(sn: u64, trace: u64) returns (ok: bool)
      requires Valid()
      ensures entries.Length == 0 ==> !ok
      ensures entries.Length > 0 && trace != 0 ==> (ok <==> IsCurrent(log, entries.Length, Link(sn, trace)))
    {
      if entries.Length == 0 { return false; }
      var index := SlotOf(entries.Length, sn);
      AcceptedIffCurrent(entries.Length, log, Link(sn, trace));
      ok := entries[index].sn == sn && entries[index].trace == trace;
      assert ok <==> entries[..][index] == Link(sn, trace);
    }
  }
}
