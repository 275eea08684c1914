/**
  The progress poller's cache of the last byte count accepted per frame. With a slot count it is direct-mapped on the
  sequence number; without one it is searched linearly and overwritten in rotation.
 */
module ProgressTracker {
  import opened Bits

  const TRACKER_CAPACITY := 64

  datatype Key = Key(stream: nat, epoch: u64, sn: u64)

  datatype Entry = Empty | Tracked(key: Key, bytes: u64)

  datatype Progress = Progress(key: Key, bytes: u64)

  datatype Tracker = Tracker(entries: seq<Entry>, cursor: nat, nslots: nat, maxBytes: u64)

  predicate WellFormed(t: Tracker) { t.cursor < |t.entries| || (t.entries == [] && t.cursor == 0) }

  // ---- Specification ----

  function Grown(t: Tracker, capacity: nat): Tracker {
    if |t.entries| >= capacity then t
    else t.(entries := t.entries + seq(capacity - |t.entries|, _ => Empty))
  }

  function Ready(t: Tracker): Tracker { if t.nslots > 0 then Grown(t, t.nslots) else t }

  predicate Matches(e: Entry, key: Key) { e.Tracked? && e.key == key }

  /** The first entry of a key from position i on, or the length. */
  function Find(entries: seq<Entry>, key: Key, i: nat := 0): (r: nat)
    requires i <= |entries|
    ensures i <= r <= |entries|
    ensures r < |entries| ==> Matches(entries[r], key)
    ensures forall j :: i <= j < r ==> !Matches(entries[j], key)
    decreases |entries| - i
  {
    if i == |entries| || Matches(entries[i], key) then i else Find(entries, key, i + 1)
  }

  /** Where an update of this key is checked and stored. */
  function Place(t: Tracker, key: Key): (r: nat)
    requires WellFormed(t) && t.entries != [] && t.nslots <= |t.entries|
    ensures r < |t.entries|
  {
    if t.nslots > 0 then And(key.sn, t.nslots - 1)
    else
      var i := Find(t.entries, key);
      if i < |t.entries| then i else t.cursor
  }

  predicate Regresses(e: Entry, v: Progress) { Matches(e, v.key) && v.bytes < e.bytes }

  /** One progress message, given what the external validator would say. */
  function Step(t: Tracker, v: Progress, valid: bool): (r: (bool, Tracker))
    requires WellFormed(t)
    ensures WellFormed(r.1)
  {
    if t.maxBytes > 0 && v.bytes > t.maxBytes then (false, t) else
      var t := Ready(t);
      if t.entries == [] then (false, t) else
        var p := Place(t, v.key);
        if Regresses(t.entries[p], v) || !valid then (false, t) else
          (true, t.(entries := t.entries[p := Tracked(v.key, v.bytes)],
                    cursor := if t.nslots == 0 && !Matches(t.entries[p], v.key)
                              then (t.cursor + 1) % |t.entries| else t.cursor))
  }

  // ---- The poller's structure ----

  class Poller {
    var tracker: array<Entry>
    var cursor: nat
    var nslots: nat
    var maxBytes: u64

    ghost predicate Valid()
      reads this
    {
      cursor < tracker.Length || (tracker.Length == 0 && cursor == 0)
    }

    ghost function View(): Tracker
      reads this, tracker
    {
      Tracker(tracker[..], cursor, nslots, maxBytes)
    }

    constructor ()
      ensures Valid() && fresh(tracker)
      ensures View() == Tracker(seq(64, _ => Empty), 0, 0, 0)
    {
      tracker := new Entry[TRACKER_CAPACITY](_ => Empty);
      cursor, nslots, maxBytes := 0, 0, 0;
    }

    /** Grows the table. The cursor is inside the old one, so it needs no correction. */
    method Resize(capacity: nat)
      requires Valid()
      modifies this`tracker
      ensures Valid() && View() == Grown(old(View()), capacity)
      ensures tracker == old(tracker) || fresh(tracker)
    {
      if tracker.Length >= capacity { return; }
      var next := new Entry[capacity](_ => Empty);
      for i := 0 to tracker.Length
        modifies next
        invariant forall j :: 0 <= j < capacity ==> next[j] == if j < i then tracker[j] else Empty
      {
        next[i] := tracker[i];
      }
      tracker := next;
      assert tracker[..] == Grown(old(View()), capacity).entries;
    }

    /** Following a consumer's ring: its slot count makes the tracker direct-mapped. */
    method SetConsumer(consumerNslots: nat)
      requires Valid()
      modifies this
      ensures Valid() && View() == Ready(old(View()).(nslots := consumerNslots))
    {
      nslots := consumerNslots;
      if consumerNslots > 0 { Resize(consumerNslots); }
    }

    method Validate(v: Progress, valid: bool) returns (ok: bool)
      requires Valid()
      modifies this`tracker, this`cursor, tracker
      ensures Valid() && (ok, View()) == Step(old(View()), v, valid)
    {
      if maxBytes > 0 && v.bytes > maxBytes { return false; }
      if nslots > 0 && tracker.Length < nslots { Resize(nslots); }
      if tracker.Length == 0 { return false; }
      if nslots > 0 {
        var index := And(v.key.sn, nslots - 1);
        ok := Store(index, v, valid);
        return;
      }
      ghost var t := View();
      var i := 0;
      while i < tracker.Length
        invariant i <= tracker.Length && View() == t
        invariant Find(t.entries, v.key, i) == Find(t.entries, v.key, 0)
      {
        if tracker[i].Tracked? && tracker[i].key == v.key {
          ok := Store(i, v, valid);
          return;
        }
        i := i + 1;
      }
      if !valid { return false; }
      tracker[cursor] := Tracked(v.key, v.bytes);
      cursor := (cursor + 1) % tracker.Length;
      ok := true;
    }

    method Store(index: nat, v: Progress, valid: bool) returns (ok: bool)
      requires index < tracker.Length
      modifies tracker
      ensures ok == (!Regresses(old(tracker[index]), v) && valid)
      ensures tracker[..] == if ok then old(tracker[..])[index := Tracked(v.key, v.bytes)] else old(tracker[..])
    {
      if tracker[index].Tracked? && tracker[index].key == v.key {
        if v.bytes < tracker[index].bytes { return false; }
      }
      if !valid { return false; }
      tracker[index] := Tracked(v.key, v.bytes);
      ok := true;
    }
  }

  // ---- Runs ----

  datatype Update = Update(progress: Progress, valid: bool)

  /** The tracker after the first n updates, and the verdict on each of them. */
  function Run(t: Tracker, us: seq<Update>, n: nat): (r: (Tracker, seq<bool>))
    requires WellFormed(t) && n <= |us|
    ensures WellFormed(r.0) && |r.1| == n
  {
    if n == 0 then (t, []) else
      var (t', oks) := Run(t, us, n - 1);
      var (ok, t'') := Step(t', us[n - 1].progress, us[n - 1].valid);
      (t'', oks + [ok])
  }

  lemma {:induction false} RunPrefix(t: Tracker, us: seq<Update>, n: nat, k: nat)
    requires WellFormed(t) && k <= n <= |us|
    ensures Run(t, us, n).1[..k] == Run(t, us, k).1
  {
    if k < n {
      RunPrefix(t, us, n - 1, k);
    }
  }

  /** Growing keeps every entry, and a rejected update changes none. */
  lemma RejectedChangesNoEntry(t: Tracker, v: Progress, valid: bool)
    requires WellFormed(t) && !Step(t, v, valid).0
    ensures var t' := Step(t, v, valid).1;
            && |t'.entries| >= |t.entries| && t'.entries[..|t.entries|] == t.entries && t'.cursor == t.cursor
            && forall i :: |t.entries| <= i < |t'.entries| ==> t'.entries[i] == Empty
  {
  }

  // ---- With a slot count: direct mapping ----

  ghost predicate FreshTracker(t: Tracker) {
    WellFormed(t) && forall i :: 0 <= i < |t.entries| ==> t.entries[i] == Empty
  }

  function Slot(nslots: nat, v: Progress): nat
    requires nslots > 0
  {
    And(v.key.sn, nslots - 1)
  }

  /** Update k was accepted into a slot. */
  predicate TookSlot(nslots: nat, us: seq<Update>, oks: seq<bool>, slot: nat, k: nat)
    requires nslots > 0 && k < |oks| <= |us|
  {
    oks[k] && Slot(nslots, us[k].progress) == slot
  }

  /** k is the last update accepted into a slot. */
  predicate LastInSlot(nslots: nat, us: seq<Update>, oks: seq<bool>, slot: nat, k: nat)
    requires nslots > 0 && k < |oks| <= |us|
  {
    TookSlot(nslots, us, oks, slot, k) && forall j :: k < j < |oks| ==> !TookSlot(nslots, us, oks, slot, j)
  }

  /** What one message does to a slot of a direct-mapped tracker. */
  lemma StepOnSlot(t: Tracker, v: Progress, valid: bool, slot: nat)
    requires WellFormed(t) && t.nslots > 0 && slot < t.nslots
    ensures var (ok, t') := Step(t, v, valid);
            && t'.nslots == t.nslots && t'.maxBytes == t.maxBytes
            && |Ready(t).entries| >= t.nslots && |Ready(t').entries| >= t.nslots
            && Ready(t').entries[slot] ==
                 (if ok && Slot(t.nslots, v) == slot then Tracked(v.key, v.bytes) else Ready(t).entries[slot])
            && (ok <==> (t.maxBytes == 0 || v.bytes <= t.maxBytes) && valid
                        && !Regresses(Ready(t).entries[Slot(t.nslots, v)], v))
  {
  }

  /** An entry is the last update accepted into a slot, or empty when there was none. */
  ghost predicate IsLastOf(nslots: nat, us: seq<Update>, oks: seq<bool>, slot: nat, e: Entry)
    requires nslots > 0 && |oks| <= |us|
  {
    && (e.Empty? ==> forall k :: 0 <= k < |oks| ==> !TookSlot(nslots, us, oks, slot, k))
    && (e.Tracked? ==> exists k :: 0 <= k < |oks| && LastInSlot(nslots, us, oks, slot, k)
                                   && e == Tracked(us[k].progress.key, us[k].progress.bytes))
  }

  lemma LastOfOneMore(nslots: nat, us: seq<Update>, oks: seq<bool>, slot: nat, e: Entry)
    requires nslots > 0 && 0 < |oks| <= |us| && IsLastOf(nslots, us, oks[..|oks| - 1], slot, e)
    ensures var k := |oks| - 1;
            IsLastOf(nslots, us, oks, slot,
                     if TookSlot(nslots, us, oks, slot, k) then Tracked(us[k].progress.key, us[k].progress.bytes)
                         else e)
  {
    var last := |oks| - 1;
    var front := oks[..last];
    assert forall j :: 0 <= j < last ==> TookSlot(nslots, us, front, slot, j) == TookSlot(nslots, us, oks, slot, j);
    if TookSlot(nslots, us, oks, slot, last) {
      assert LastInSlot(nslots, us, oks, slot, last);
    } else if e.Tracked? {
      var k :| 0 <= k < |front| && LastInSlot(nslots, us, front, slot, k)
               && e == Tracked(us[k].progress.key, us[k].progress.bytes);
      assert LastInSlot(nslots, us, oks, slot, k);
    }
  }

  lemma {:induction false} RunKeepsSettings(t: Tracker, us: seq<Update>, n: nat)
    requires WellFormed(t) && t.nslots > 0 && n <= |us|
    ensures var r := Run(t, us, n).0;
            r.nslots == t.nslots && r.maxBytes == t.maxBytes && |Ready(r).entries| >= t.nslots
  {
    if n > 0 {
      RunKeepsSettings(t, us, n - 1);
      StepOnSlot(Run(t, us, n - 1).0, us[n - 1].progress, us[n - 1].valid, 0);
    }
  }

  /** A slot holds the last update accepted into it, or nothing when there was none. */
  lemma {:induction false} SlotHoldsLast(t: Tracker, us: seq<Update>, n: nat, slot: nat)
    requires FreshTracker(t) && t.nslots > 0 && slot < t.nslots && n <= |us|
    ensures |Ready(Run(t, us, n).0).entries| >= t.nslots
    ensures IsLastOf(t.nslots, us, Run(t, us, n).1, slot, Ready(Run(t, us, n).0).entries[slot])
  {
    RunKeepsSettings(t, us, n);
    if n == 0 {
      assert Ready(t).entries[slot].Empty?;
    } else {
      var (r, oks) := Run(t, us, n - 1);
      var u, all := us[n - 1], Run(t, us, n).1;
      SlotHoldsLast(t, us, n - 1, slot);
      RunKeepsSettings(t, us, n - 1);
      StepOnSlot(r, u.progress, u.valid, slot);
      assert all[..n - 1] == oks;
      LastOfOneMore(t.nslots, us, all, slot, Ready(r).entries[slot]);
    }
  }

  /**
    Accepted are exactly the updates within the limit that pass the validator and do not go below the last update of
    the same frame still in the slot.
   */
  lemma DirectMappedAcceptance(t: Tracker, us: seq<Update>, n: nat)
    requires FreshTracker(t) && t.nslots > 0 && n < |us|
    ensures var (v, oks) := (us[n].progress, Run(t, us, n).1);
            Run(t, us, n + 1).1[n] <==>
            && (t.maxBytes == 0 || v.bytes <= t.maxBytes) && us[n].valid
            && forall k :: 0 <= k < n && LastInSlot(t.nslots, us, oks, Slot(t.nslots, v), k) ==>
                 us[k].progress.key == v.key ==> us[k].progress.bytes <= v.bytes
  {
    var v, slot := us[n].progress, Slot(t.nslots, us[n].progress);
    SlotHoldsLast(t, us, n, slot);
    RunKeepsSettings(t, us, n);
    var r, oks := Run(t, us, n).0, Run(t, us, n).1;
    StepOnSlot(r, v, us[n].valid, slot);
    var e := Ready(r).entries[slot];
    if e.Tracked? {
      var k :| 0 <= k < n && LastInSlot(t.nslots, us, oks, slot, k)
               && e == Tracked(us[k].progress.key, us[k].progress.bytes);
      forall k' | 0 <= k' < n && LastInSlot(t.nslots, us, oks, slot, k') ensures k' == k {
        assert TookSlot(t.nslots, us, oks, slot, k) && TookSlot(t.nslots, us, oks, slot, k');
      }
    }
  }

  lemma {:induction false} LastOne(nslots: nat, us: seq<Update>, oks: seq<bool>, slot: nat, j: nat) returns (m: nat)
    requires nslots > 0 && j < |oks| <= |us| && TookSlot(nslots, us, oks, slot, j)
    ensures j <= m < |oks| && LastInSlot(nslots, us, oks, slot, m)
    decreases |oks| - j
  {
    if i :| j < i < |oks| && TookSlot(nslots, us, oks, slot, i) {
      m := LastOne(nslots, us, oks, slot, i);
    } else {
      m := j;
    }
  }

  /** A lower byte count for a frame is accepted only after another frame took its slot. */
  lemma {:induction false} DirectMappedIsMonotone(t: Tracker, us: seq<Update>, j: nat, k: nat)
    requires FreshTracker(t) && t.nslots > 0 && j < k < |us|
    requires Run(t, us, |us|).1[j] && Run(t, us, |us|).1[k] && us[j].progress.key == us[k].progress.key
    requires us[k].progress.bytes < us[j].progress.bytes
    ensures exists m :: j < m < k && TookSlot(t.nslots, us, Run(t, us, |us|).1, Slot(t.nslots, us[j].progress), m)
                        && us[m].progress.key != us[j].progress.key
    decreases k - j
  {
    var all, slot, past := Run(t, us, |us|).1, Slot(t.nslots, us[j].progress), Run(t, us, k).1;
    RunPrefix(t, us, |us|, k);
    RunPrefix(t, us, |us|, k + 1);
    assert past == all[..k] && Run(t, us, k + 1).1[k] == all[k];
    var m := LastOne(t.nslots, us, past, slot, j);
    DirectMappedAcceptance(t, us, k);
    assert TookSlot(t.nslots, us, all, slot, m);
    if us[m].progress.key == us[j].progress.key {
      assert m != j;
      if us[m].progress.bytes < us[j].progress.bytes {
        DirectMappedIsMonotone(t, us, j, m);
      }
    }
  }
}
