/**
  The merge-map registry: a fixed table of entries searched and overwritten in place, refining a bounded map from
  (kind, output stream) to the map last announced for it.
 */
module MergeMapRegistry {
  import opened Bits
  import opened Options
  import opened JoinBarrier

  datatype MapKind = SequenceKind | TimestampKind

  datatype MergeMap = OfSequence(sequence: SequenceMap) | OfTimestamp(timestamp: TimestampMap)

  datatype Key = Key(kind: MapKind, outStream: nat)

  datatype Entry = Free | InUse(kind: MapKind, outStream: nat, epoch: u64, announced: u64, content: MergeMap)

  function KindOf(m: MergeMap): MapKind { if m.OfSequence? then SequenceKind else TimestampKind }

  function OutStreamOf(m: MergeMap): nat { if m.OfSequence? then m.sequence.outStream else m.timestamp.outStream }

  function EpochOf(m: MergeMap): u64 { if m.OfSequence? then m.sequence.epoch else m.timestamp.epoch }

  function KeyOf(m: MergeMap): Key { Key(KindOf(m), OutStreamOf(m)) }

  /** The map is of this kind and for this output stream. */
  predicate Names(m: MergeMap, key: Key) {
    match key.kind
    case SequenceKind => m.OfSequence? && m.sequence.outStream == key.outStream
    case TimestampKind => m.OfTimestamp? && m.timestamp.outStream == key.outStream
  }

  lemma KeyIsName(m: MergeMap, key: Key)
    ensures KeyOf(m) == key <==> Names(m, key)
  {
  }

  // ---- The abstract table ----

  datatype Announcement = Announcement(content: MergeMap, announced: u64)

  /** An announcement replaces whatever its key held; a new key needs room. */
  predicate Accepts(table: map<Key, Announcement>, capacity: nat, m: MergeMap) {
    KeyOf(m) in table || |table| < capacity
  }

  function Announce(table: map<Key, Announcement>, capacity: nat, a: Announcement): map<Key, Announcement> {
    if Accepts(table, capacity, a.content) then table[KeyOf(a.content) := a] else table
  }

  function Lookup(table: map<Key, Announcement>, key: Key, epoch: u64): Option<MergeMap> {
    if key in table && EpochOf(table[key].content) == epoch then Some(table[key].content) else None
  }

  // ---- The entries represent a table ----

  predicate Holds(e: Entry, key: Key) { e.InUse? && e.kind == key.kind && e.outStream == key.outStream }

  /** No key has two live entries, and an entry's own fields agree with the map it stores. */
  predicate WellFormed(es: seq<Entry>) {
    && (forall i, j :: 0 <= i < j < |es| && es[i].InUse? && es[j].InUse? ==>
          Key(es[i].kind, es[i].outStream) != Key(es[j].kind, es[j].outStream))
    && (forall i :: 0 <= i < |es| && es[i].InUse? ==>
          KeyOf(es[i].content) == Key(es[i].kind, es[i].outStream) && EpochOf(es[i].content) == es[i].epoch)
  }

  function Table(es: seq<Entry>): map<Key, Announcement> {
    if es == [] then map[] else
      var (front, e) := (Table(es[..|es| - 1]), es[|es| - 1]);
      if e.InUse? then front[Key(e.kind, e.outStream) := Announcement(e.content, e.announced)] else front
  }

  lemma {:induction false} TableContents(es: seq<Entry>, key: Key)
    requires WellFormed(es)
    ensures key in Table(es) <==> exists i :: 0 <= i < |es| && Holds(es[i], key)
    ensures forall i :: 0 <= i < |es| && Holds(es[i], key) ==>
              key in Table(es) && Table(es)[key] == Announcement(es[i].content, es[i].announced)
  {
    if es != [] {
      var front := es[..|es| - 1];
      TableContents(front, key);
      forall i | 0 <= i < |es| && Holds(es[i], key)
        ensures key in Table(es) && Table(es)[key] == Announcement(es[i].content, es[i].announced)
      {
        if i < |front| { assert Holds(front[i], key); }
      }
      if key in Table(es) {
        if !Holds(es[|es| - 1], key) {
          var i :| 0 <= i < |front| && Holds(front[i], key);
          assert Holds(es[i], key);
        }
      }
    }
  }

  /** The table is full exactly when every entry is in use. */
  lemma {:induction false} TableSize(es: seq<Entry>)
    requires WellFormed(es)
    ensures |Table(es)| <= |es|
    ensures |Table(es)| == |es| <==> forall i :: 0 <= i < |es| ==> es[i].InUse?
  {
    if es != [] {
      var front, e := es[..|es| - 1], es[|es| - 1];
      TableSize(front);
      if e.InUse? {
        TableContents(front, Key(e.kind, e.outStream));
        assert Key(e.kind, e.outStream) !in Table(front);
        assert (forall i :: 0 <= i < |es| ==> es[i].InUse?) <==> forall i :: 0 <= i < |front| ==> front[i].InUse?;
      }
    }
  }

  /** Writing a map where its key lives, or into a free entry when it lives nowhere, updates that key alone. */
  lemma TableAfterWrite(es: seq<Entry>, slot: nat, m: MergeMap, now: u64)
    requires WellFormed(es) && slot < |es|
    requires forall i :: 0 <= i < |es| && i != slot ==> !Holds(es[i], KeyOf(m))
    requires es[slot].Free? || Holds(es[slot], KeyOf(m))
    ensures var es' := es[slot := InUse(KindOf(m), OutStreamOf(m), EpochOf(m), now, m)];
            WellFormed(es') && Table(es') == Table(es)[KeyOf(m) := Announcement(m, now)]
  {
    var es' := es[slot := InUse(KindOf(m), OutStreamOf(m), EpochOf(m), now, m)];
    assert WellFormed(es');
    var expected := Table(es)[KeyOf(m) := Announcement(m, now)];
    forall key
      ensures key in Table(es') <==> key in expected
      ensures key in expected ==> key in Table(es') && Table(es')[key] == expected[key]
    {
      SameKeyElsewhere(es, slot, m, now, key);
    }
  }

  lemma SameKeyElsewhere(es: seq<Entry>, slot: nat, m: MergeMap, now: u64, key: Key)
    requires WellFormed(es) && slot < |es|
    requires WellFormed(es[slot := InUse(KindOf(m), OutStreamOf(m), EpochOf(m), now, m)])
    requires forall i :: 0 <= i < |es| && i != slot ==> !Holds(es[i], KeyOf(m))
    requires es[slot].Free? || Holds(es[slot], KeyOf(m))
    ensures var es' := es[slot := InUse(KindOf(m), OutStreamOf(m), EpochOf(m), now, m)];
            && (key in Table(es') <==> key == KeyOf(m) || key in Table(es))
            && (key in Table(es') ==>
                  Table(es')[key] == if key == KeyOf(m) then Announcement(m, now) else Table(es)[key])
  {
    var es' := es[slot := InUse(KindOf(m), OutStreamOf(m), EpochOf(m), now, m)];
    TableContents(es, key);
    TableContents(es', key);
    if key == KeyOf(m) {
      assert Holds(es'[slot], key);
    } else {
      forall i | 0 <= i < |es| ensures Holds(es'[i], key) == Holds(es[i], key) {}
    }
  }

  class Registry {
    const entries: array<Entry>

    ghost predicate Valid()
      reads entries
    {
      WellFormed(entries[..])
    }

    constructor (capacity: nat)
      ensures Valid() && entries.Length == capacity && fresh(entries)
      ensures Table(entries[..]) == map[]
    {
      entries := new Entry[capacity](_ => Free);
      new;
      EmptyTable(entries[..]);
    }

    method FindEntry(kind: MapKind, outStream: nat, epoch: u64) returns (i: nat)
      ensures i <= entries.Length
      ensures i < entries.Length ==> Holds(entries[i], Key(kind, outStream)) && entries[i].epoch == epoch
      ensures forall j :: 0 <= j < i ==> !(Holds(entries[j], Key(kind, outStream)) && entries[j].epoch == epoch)
    {
      i := 0;
      while i < entries.Length
        invariant i <= entries.Length
        invariant forall j :: 0 <= j < i ==> !(Holds(entries[j], Key(kind, outStream)) && entries[j].epoch == epoch)
      {
        var e := entries[i];
        if e.InUse? && e.kind == kind && e.outStream == outStream && e.epoch == epoch { return; }
        i := i + 1;
      }
    }

    /** The entry with exactly this key and epoch, else the first free one, else the capacity. */
    method FindSlot(kind: MapKind, outStream: nat, epoch: u64) returns (slot: nat)
      ensures slot <= entries.Length
      ensures slot < entries.Length ==>
                || (Holds(entries[slot], Key(kind, outStream)) && entries[slot].epoch == epoch)
                || (entries[slot].Free?
                    && forall j :: 0 <= j < entries.Length ==>
                         !(Holds(entries[j], Key(kind, outStream)) && entries[j].epoch == epoch))
      ensures slot == entries.Length ==>
                forall j :: 0 <= j < entries.Length ==>
                  entries[j].InUse? && !(Holds(entries[j], Key(kind, outStream)) && entries[j].epoch == epoch)
    {
      slot := entries.Length;
      var i := 0;
      while i < entries.Length
        invariant i <= entries.Length && slot <= entries.Length
        invariant slot < entries.Length ==> entries[slot].Free?
        invariant forall j :: 0 <= j < i ==> !(Holds(entries[j], Key(kind, outStream)) && entries[j].epoch == epoch)
        invariant slot == entries.Length ==> forall j :: 0 <= j < i ==> entries[j].InUse?
      {
        var e := entries[i];
        if e.InUse? {
          if e.kind == kind && e.outStream == outStream && e.epoch == epoch { return i; }
        } else if slot == entries.Length {
          slot := i;
        }
        i := i + 1;
      }
    }

    /** Frees every entry that holds the key under another epoch. */
    method InvalidateStream(kind: MapKind, outStream: nat, epoch: u64)
      modifies entries
      ensures forall j :: 0 <= j < entries.Length ==>
                entries[j] == if Holds(old(entries[j]), Key(kind, outStream)) && old(entries[j]).epoch != epoch
                              then Free else old(entries[j])
    {
      for i := 0 to entries.Length
        invariant forall j :: 0 <= j < i ==>
                    entries[j] == if Holds(old(entries[j]), Key(kind, outStream)) && old(entries[j]).epoch != epoch
                                  then Free else old(entries[j])
        invariant forall j :: i <= j < entries.Length ==> entries[j] == old(entries[j])
      {
        var e := entries[i];
        if e.InUse? && e.kind == kind && e.outStream == outStream && e.epoch != epoch {
          entries[i] := Free;
        }
      }
    }

    method Upsert(m: MergeMap, now: u64) returns (ok: bool)
      requires Valid()
      modifies entries
      ensures Valid()
      ensures ok <==> Accepts(old(Table(entries[..])), entries.Length, m)
      ensures Table(entries[..]) == Announce(old(Table(entries[..])), entries.Length, Announcement(m, now))
      ensures !ok ==> entries[..] == old(entries[..])
    {
      ghost var was, key := entries[..], KeyOf(m);
      InvalidateStream(KindOf(m), OutStreamOf(m), EpochOf(m));
      ghost var cleared := entries[..];
      var slot := FindSlot(KindOf(m), OutStreamOf(m), EpochOf(m));
      if slot == entries.Length {
        TableContents(was, key);
        TableSize(was);
        assert forall j :: 0 <= j < |was| ==> cleared[j] == was[j] && was[j].InUse? && !Holds(was[j], key);
        assert cleared == was;
        return false;
      }
      entries[slot] := Free;
      entries[slot] := InUse(KindOf(m), OutStreamOf(m), EpochOf(m), now, m);
      ok := true;
      SlotMeansAccepted(was, cleared, slot, m);
      WriteAfterInvalidate(was, cleared, slot, m, now);
      assert entries[..] == cleared[slot := InUse(KindOf(m), OutStreamOf(m), EpochOf(m), now, m)];
    }

    method UpsertSequence(m: SequenceMap, now: u64) returns (ok: bool)
      requires Valid()
      modifies entries
      ensures Valid()
      ensures ok <==> Key(SequenceKind, m.outStream) in old(Table(entries[..]))
                      || |old(Table(entries[..]))| < entries.Length
      ensures ok ==> Table(entries[..]) ==
                     old(Table(entries[..]))[Key(SequenceKind, m.outStream) := Announcement(OfSequence(m), now)]
      ensures ok ==> forall epoch: u64 :: Lookup(Table(entries[..]), Key(SequenceKind, m.outStream), epoch) ==
                       if epoch == m.epoch then Some(OfSequence(m)) else None
      ensures forall key, epoch: u64 :: key != Key(SequenceKind, m.outStream) ==>
                Lookup(Table(entries[..]), key, epoch) == old(Lookup(Table(entries[..]), key, epoch))
      ensures !ok ==> entries[..] == old(entries[..])
    {
      KeyIsName(OfSequence(m), Key(SequenceKind, m.outStream));
      ok := Upsert(OfSequence(m), now);
    }

    method UpsertTimestamp(m: TimestampMap, now: u64) returns (ok: bool)
      requires Valid()
      modifies entries
      ensures Valid()
      ensures ok <==> Key(TimestampKind, m.outStream) in old(Table(entries[..]))
                      || |old(Table(entries[..]))| < entries.Length
      ensures ok ==> Table(entries[..]) ==
                     old(Table(entries[..]))[Key(TimestampKind, m.outStream) := Announcement(OfTimestamp(m), now)]
      ensures ok ==> forall epoch: u64 :: Lookup(Table(entries[..]), Key(TimestampKind, m.outStream), epoch) ==
                       if epoch == m.epoch then Some(OfTimestamp(m)) else None
      ensures forall key, epoch: u64 :: key != Key(TimestampKind, m.outStream) ==>
                Lookup(Table(entries[..]), key, epoch) == old(Lookup(Table(entries[..]), key, epoch))
      ensures !ok ==> entries[..] == old(entries[..])
    {
      KeyIsName(OfTimestamp(m), Key(TimestampKind, m.outStream));
      ok := Upsert(OfTimestamp(m), now);
    }

    method FindSequence(outStream: nat, epoch: u64) returns (r: Option<MergeMap>)
      requires Valid()
      ensures r == Lookup(Table(entries[..]), Key(SequenceKind, outStream), epoch)
      ensures r.Some? ==>
                r.value.OfSequence? && r.value.sequence.outStream == outStream && r.value.sequence.epoch == epoch
    {
      var i := FindEntry(SequenceKind, outStream, epoch);
      if i < entries.Length { KeyIsName(entries[i].content, Key(SequenceKind, outStream)); }
      LookupIsSearch(entries[..], Key(SequenceKind, outStream), epoch, i);
      r := if i == entries.Length then None else Some(entries[i].content);
    }

    method FindTimestamp(outStream: nat, epoch: u64) returns (r: Option<MergeMap>)
      requires Valid()
      ensures r == Lookup(Table(entries[..]), Key(TimestampKind, outStream), epoch)
      ensures r.Some? ==>
                r.value.OfTimestamp? && r.value.timestamp.outStream == outStream && r.value.timestamp.epoch == epoch
    {
      var i := FindEntry(TimestampKind, outStream, epoch);
      if i < entries.Length { KeyIsName(entries[i].content, Key(TimestampKind, outStream)); }
      LookupIsSearch(entries[..], Key(TimestampKind, outStream), epoch, i);
      r := if i == entries.Length then None else Some(entries[i].content);
    }
  }

  lemma {:induction false} EmptyTable(es: seq<Entry>)
    requires forall i :: 0 <= i < |es| ==> es[i] == Free
    ensures Table(es) == map[]
  {
    if es != [] {
      EmptyTable(es[..|es| - 1]);
    }
  }

  /** Linear search for key and epoch is lookup in the table. */
  lemma LookupIsSearch(es: seq<Entry>, key: Key, epoch: u64, i: nat)
    requires WellFormed(es) && i <= |es|
    requires i < |es| ==> Holds(es[i], key) && es[i].epoch == epoch
    requires forall j :: 0 <= j < i ==> !(Holds(es[j], key) && es[j].epoch == epoch)
    ensures Lookup(Table(es), key, epoch) == if i == |es| then None else Some(es[i].content)
  {
    TableContents(es, key);
  }

  /** The entries left after freeing a key's outdated ones. */
  ghost predicate Invalidated(was: seq<Entry>, cleared: seq<Entry>, key: Key, epoch: u64) {
    && |cleared| == |was|
    && forall j :: 0 <= j < |was| ==>
         cleared[j] == if Holds(was[j], key) && was[j].epoch != epoch then Free else was[j]
  }

  lemma InvalidateTouchesOneKey(was: seq<Entry>, cleared: seq<Entry>, key: Key, epoch: u64)
    requires WellFormed(was) && Invalidated(was, cleared, key, epoch)
    ensures WellFormed(cleared)
    ensures forall k :: k != key ==>
              && (k in Table(cleared) <==> k in Table(was))
              && (k in Table(was) ==> Table(cleared)[k] == Table(was)[k])
  {
    forall k | k != key
      ensures k in Table(cleared) <==> k in Table(was)
      ensures k in Table(was) ==> k in Table(cleared) && Table(cleared)[k] == Table(was)[k]
    {
      TableContents(cleared, k);
      TableContents(was, k);
      assert forall j :: 0 <= j < |was| ==> Holds(cleared[j], k) == Holds(was[j], k);
    }
  }

  /** Freeing the key's outdated entry and writing the new one amounts to one update of the table. */
  lemma WriteAfterInvalidate(was: seq<Entry>, cleared: seq<Entry>, slot: nat, m: MergeMap, now: u64)
    requires WellFormed(was) && Invalidated(was, cleared, KeyOf(m), EpochOf(m)) && slot < |was|
    requires || (Holds(cleared[slot], KeyOf(m)) && cleared[slot].epoch == EpochOf(m))
             || (cleared[slot].Free?
                 && forall j :: 0 <= j < |cleared| ==>
                      !(Holds(cleared[j], KeyOf(m)) && cleared[j].epoch == EpochOf(m)))
    ensures var es := cleared[slot := InUse(KindOf(m), OutStreamOf(m), EpochOf(m), now, m)];
            WellFormed(es) && Table(es) == Table(was)[KeyOf(m) := Announcement(m, now)]
  {
    var key := KeyOf(m);
    InvalidateTouchesOneKey(was, cleared, key, EpochOf(m));
    TableAfterWrite(cleared, slot, m, now);
    assert Table(cleared)[key := Announcement(m, now)] == Table(was)[key := Announcement(m, now)];
  }

  /** A slot is found only for a key the table has, or has room for. */
  lemma SlotMeansAccepted(was: seq<Entry>, cleared: seq<Entry>, slot: nat, m: MergeMap)
    requires WellFormed(was) && Invalidated(was, cleared, KeyOf(m), EpochOf(m)) && slot < |was|
    requires Holds(cleared[slot], KeyOf(m)) || cleared[slot].Free?
    ensures Accepts(Table(was), |was|, m)
  {
    TableContents(was, KeyOf(m));
    TableSize(was);
  }

  // ---- Runs ----

  function Run(capacity: nat, log: seq<Announcement>): map<Key, Announcement> {
    if log == [] then map[] else Announce(Run(capacity, log[..|log| - 1]), capacity, log[|log| - 1])
  }

  /** The keys announced, each once, in order of first appearance. */
  function DistinctKeys(log: seq<Announcement>): seq<Key> {
    if log == [] then [] else
      var (front, key) := (DistinctKeys(log[..|log| - 1]), KeyOf(log[|log| - 1].content));
      if key in front then front else front + [key]
  }

  function FirstKeys(capacity: nat, log: seq<Announcement>): seq<Key> {
    var keys := DistinctKeys(log);
    if |keys| <= capacity then keys else keys[..capacity]
  }

  /** k is the last announcement of a key. */
  predicate LastOf(log: seq<Announcement>, key: Key, k: nat)
    requires k < |log|
  {
    Names(log[k].content, key) && forall j :: k < j < |log| ==> !Names(log[j].content, key)
  }

  lemma {:induction false} KeysAreDistinct(log: seq<Announcement>)
    ensures forall i, j :: 0 <= i < j < |DistinctKeys(log)| ==> DistinctKeys(log)[i] != DistinctKeys(log)[j]
  {
    if log != [] {
      KeysAreDistinct(log[..|log| - 1]);
    }
  }

  lemma {:induction false} SizeOfDistinct(keys: seq<Key>, s: set<Key>)
    requires forall i, j :: 0 <= i < j < |keys| ==> keys[i] != keys[j]
    requires forall k :: k in s <==> k in keys
    ensures |s| == |keys|
  {
    if keys == [] {
      assert s == {};
    } else {
      var front, last := keys[..|keys| - 1], keys[|keys| - 1];
      assert last in keys;
      forall k ensures k in s - {last} <==> k in front {
        if k in front { assert k in keys; }
      }
      SizeOfDistinct(front, s - {last});
    }
  }

  /** The first keys announced own the table for good: never more than the capacity, and none of them ever dropped. */
  lemma {:induction false} FirstKeysOwnTheTable(capacity: nat, log: seq<Announcement>, key: Key)
    ensures key in Run(capacity, log) <==> key in FirstKeys(capacity, log)
    ensures |Run(capacity, log)| == |FirstKeys(capacity, log)|
  {
    if log != [] {
      var front, k := log[..|log| - 1], KeyOf(log[|log| - 1].content);
      FirstKeysOwnTheTable(capacity, front, key);
      FirstKeysOwnTheTable(capacity, front, k);
      KeysAreDistinct(log);
      var keys := DistinctKeys(front);
      assert |keys| < capacity ==> FirstKeys(capacity, log) == DistinctKeys(log);
      assert |keys| >= capacity ==> FirstKeys(capacity, log) == FirstKeys(capacity, front);
      if k !in Run(capacity, front) && |Run(capacity, front)| < capacity {
        assert FirstKeys(capacity, front) == keys;
      }
    }
  }

  /** A lookup finds a map exactly when it is the last one announced for an owned key and has the epoch asked for. */
  lemma {:induction false} LookupFindsLastAnnounced(capacity: nat, log: seq<Announcement>, key: Key, epoch: u64,
      m: MergeMap)
    ensures Lookup(Run(capacity, log), key, epoch) == Some(m) <==>
            && key in FirstKeys(capacity, log)
            && epoch == (if m.OfSequence? then m.sequence.epoch else m.timestamp.epoch)
            && exists k :: 0 <= k < |log| && LastOf(log, key, k) && log[k].content == m
  {
    FirstKeysOwnTheTable(capacity, log, key);
    if key in Run(capacity, log) {
      HeldIsLast(capacity, log, key);
      var k :| 0 <= k < |log| && LastOf(log, key, k) && Run(capacity, log)[key] == log[k];
      forall k' | 0 <= k' < |log| && LastOf(log, key, k') ensures k' == k {}
    }
  }

  lemma {:induction false} HeldIsLast(capacity: nat, log: seq<Announcement>, key: Key)
    requires key in Run(capacity, log)
    ensures exists k :: 0 <= k < |log| && LastOf(log, key, k) && Run(capacity, log)[key] == log[k]
  {
    var front := log[..|log| - 1];
    if KeyOf(log[|log| - 1].content) == key {
      assert LastOf(log, key, |log| - 1);
    } else {
      HeldIsLast(capacity, front, key);
      var k :| 0 <= k < |front| && LastOf(front, key, k) && Run(capacity, front)[key] == front[k];
      assert LastOf(log, key, k);
    }
  }
}
