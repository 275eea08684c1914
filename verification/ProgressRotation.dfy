/**
  The progress tracker without a slot count: how long a frame is remembered when entries are overwritten in rotation.
 */
module ProgressRotation {
  import opened Bits
  import opened ProgressTracker

  /** A tracker searched linearly. */
  predicate Rotating(t: Tracker) { WellFormed(t) && t.nslots == 0 && t.entries != [] }

  predicate Present(t: Tracker, key: Key) { exists i :: 0 <= i < |t.entries| && Matches(t.entries[i], key) }

  ghost predicate UniqueKeys(t: Tracker) {
    forall i, j :: 0 <= i < j < |t.entries| && t.entries[i].Tracked? && t.entries[j].Tracked? ==>
      t.entries[i].key != t.entries[j].key
  }

  /** The two ways an accepted update changes the table: a new frame takes the cursor's entry, a known one is raised. */
  ghost predicate Moves(t: Tracker, v: Progress, ok: bool, inserted: bool, t': Tracker) {
    && Rotating(t) && Rotating(t') && UniqueKeys(t) && UniqueKeys(t') && |t'.entries| == |t.entries|
    && t'.maxBytes == t.maxBytes
    && (!ok ==> t' == t && !inserted)
    && (inserted ==>
          && !Present(t, v.key)
          && t'.entries == t.entries[t.cursor := Tracked(v.key, v.bytes)]
          && t'.cursor == (if t.cursor + 1 < |t.entries| then t.cursor + 1 else 0))
    && (ok && !inserted ==>
          && t'.cursor == t.cursor
          && exists p :: 0 <= p < |t.entries| && Matches(t.entries[p], v.key) && t.entries[p].bytes <= v.bytes
                         && t'.entries == t.entries[p := Tracked(v.key, v.bytes)])
  }

  lemma StepMoves(t: Tracker, u: Update)
    requires Rotating(t) && UniqueKeys(t)
    ensures var (ok, t') := Step(t, u.progress, u.valid);
            Moves(t, u.progress, ok, ok && !Present(t, u.progress.key), t')
  {
    var cap := |t.entries|;
    var p := Find(t.entries, u.progress.key);
    assert Present(t, u.progress.key) <==> p < cap;
    if t.cursor + 1 < cap { InRange(t.cursor + 1, cap); } else { DivModUnique(cap, cap, 1, 0); }
  }

  // ---- Histories of a tracker ----

  /**
    Successive trackers, the updates between them, what the validator says of each, the verdicts, and which updates
    inserted a frame.
   */
  datatype History = History(
    states: seq<Tracker>, updates: seq<Progress>, valids: seq<bool>, oks: seq<bool>, inserted: seq<bool>)

  predicate WellShaped(h: History) {
    |h.states| == |h.updates| + 1 && |h.valids| == |h.oks| == |h.inserted| == |h.updates|
  }

  predicate StepsAt(h: History, k: nat)
    requires WellShaped(h) && k < |h.updates|
  {
    && WellFormed(h.states[k])
    && h.inserted[k] == (h.oks[k] && !Present(h.states[k], h.updates[k].key))
    && (h.oks[k], h.states[k + 1]) == Step(h.states[k], h.updates[k], h.valids[k])
  }

  /** A history of a tracker that starts with no frame held twice, for instance an empty one. */
  ghost predicate IsHistory(h: History) {
    && WellShaped(h) && Rotating(h.states[0]) && UniqueKeys(h.states[0])
    && forall k :: 0 <= k < |h.updates| ==> StepsAt(h, k)
  }

  ghost predicate MovesAt(h: History, k: nat)
    requires WellShaped(h) && k < |h.updates|
  {
    Moves(h.states[k], h.updates[k], h.oks[k], h.inserted[k], h.states[k + 1])
  }

  ghost predicate Moving(h: History) { WellShaped(h) && forall k :: 0 <= k < |h.updates| ==> MovesAt(h, k) }

  lemma {:induction false} HistoryMovesAt(h: History, k: nat)
    requires IsHistory(h) && k < |h.updates|
    ensures MovesAt(h, k)
  {
    if k > 0 {
      HistoryMovesAt(h, k - 1);
    }
    assert StepsAt(h, k);
    StepMoves(h.states[k], Update(h.updates[k], h.valids[k]));
  }

  lemma HistoryMoves(h: History)
    requires IsHistory(h)
    ensures Moving(h)
  {
    forall k | 0 <= k < |h.updates| ensures MovesAt(h, k) {
      HistoryMovesAt(h, k);
    }
  }

  /** No frame is ever held twice. */
  lemma NoFrameHeldTwice(h: History, n: nat)
    requires IsHistory(h) && n < |h.states|
    ensures UniqueKeys(h.states[n]) && |h.states[n].entries| == |h.states[0].entries|
    decreases n
  {
    if n > 0 {
      NoFrameHeldTwice(h, n - 1);
      HistoryMovesAt(h, n - 1);
    }
  }

  /** How many of the updates in [i, n) inserted a frame. */
  function Insertions(h: History, i: nat, n: nat): nat
    requires WellShaped(h) && i <= n <= |h.updates|
  {
    if i == n then 0 else Insertions(h, i, n - 1) + if h.inserted[n - 1] then 1 else 0
  }

  function Wrap(x: nat, cap: nat): int { if x < cap then x else x - cap }

  /** The entry of a frame inserted at i, while fewer than a whole table of others has been inserted since. */
  lemma {:induction false} StaysInPlace(h: History, i: nat, n: nat)
    requires Moving(h) && i < n <= |h.updates| && h.inserted[i]
    requires Insertions(h, i + 1, n) < |h.states[i].entries|
    ensures var (r, p, cap) := (h.states[n], h.states[i].cursor, |h.states[i].entries|);
            && |r.entries| == cap && p < cap && Matches(r.entries[p], h.updates[i].key)
            && r.cursor == Wrap(p + 1 + Insertions(h, i + 1, n), cap)
  {
    assert MovesAt(h, n - 1) && MovesAt(h, i);
    if n > i + 1 {
      StaysInPlace(h, i, n - 1);
    }
  }

  /** Once a whole table of other frames has been inserted, a frame is gone until it is inserted again. */
  lemma {:induction false} Leaves(h: History, i: nat, n: nat)
    requires Moving(h) && i < n <= |h.updates| && h.inserted[i]
    requires forall k :: i < k < n && h.inserted[k] ==> h.updates[k].key != h.updates[i].key
    requires Insertions(h, i + 1, n) >= |h.states[i].entries|
    ensures !Present(h.states[n], h.updates[i].key)
  {
    var r, key := h.states[n - 1], h.updates[i].key;
    assert MovesAt(h, n - 1) && MovesAt(h, i);
    if Insertions(h, i + 1, n - 1) >= |h.states[i].entries| {
      Leaves(h, i, n - 1);
    } else {
      StaysInPlace(h, i, n - 1);
      assert forall q :: 0 <= q < |r.entries| && q != r.cursor ==> !Matches(r.entries[q], key);
    }
  }

  /** A frame is remembered exactly until as many others have been inserted as the table has entries. */
  lemma RememberedForOneTable(h: History, i: nat, n: nat)
    requires IsHistory(h) && i < n <= |h.updates| && h.inserted[i]
    requires forall k :: i < k < n && h.inserted[k] ==> h.updates[k].key != h.updates[i].key
    ensures Present(h.states[n], h.updates[i].key) <==> Insertions(h, i + 1, n) < |h.states[0].entries|
  {
    HistoryMoves(h);
    NoFrameHeldTwice(h, i);
    if Insertions(h, i + 1, n) < |h.states[0].entries| {
      StaysInPlace(h, i, n);
    } else {
      Leaves(h, i, n);
    }
  }

  /** While a frame is remembered its entry is at least every byte count accepted for it. */
  lemma {:induction false} EntryCoversAccepted(h: History, i: nat, j: nat, n: nat)
    requires Moving(h) && i <= j < n <= |h.updates| && h.inserted[i]
    requires Insertions(h, i + 1, n) < |h.states[i].entries|
    requires h.oks[j] && h.updates[j].key == h.updates[i].key
    ensures var (r, p) := (h.states[n], h.states[i].cursor);
            p < |r.entries| && Matches(r.entries[p], h.updates[i].key) && r.entries[p].bytes >= h.updates[j].bytes
  {
    StaysInPlace(h, i, n);
    assert MovesAt(h, n - 1);
    if n - 1 > i {
      StaysInPlace(h, i, n - 1);
      if j < n - 1 {
        EntryCoversAccepted(h, i, j, n - 1);
      }
    }
  }

  /** So a lower byte count for a frame is accepted only after it has been forgotten. */
  lemma RotatingIsMonotone(h: History, i: nat, j: nat, k: nat)
    requires IsHistory(h) && i <= j < k < |h.updates| && h.inserted[i] && h.oks[j] && h.oks[k]
    requires h.updates[i].key == h.updates[j].key == h.updates[k].key
    requires h.updates[k].bytes < h.updates[j].bytes
    ensures Insertions(h, i + 1, k) >= |h.states[0].entries|
  {
    HistoryMoves(h);
    NoFrameHeldTwice(h, i);
    assert MovesAt(h, k);
    if Insertions(h, i + 1, k) < |h.states[0].entries| {
      EntryCoversAccepted(h, i, j, k);
    }
  }

  // ---- Which updates are accepted ----

  /** The frame inserted at i has not been inserted again before n, nor forgotten by then. */
  ghost predicate Remembered(h: History, i: nat, n: nat)
    requires WellShaped(h) && n <= |h.updates|
  {
    && i < n && h.inserted[i] && Insertions(h, i + 1, n) < |h.states[0].entries|
    && forall k :: i < k < n && h.inserted[k] ==> h.updates[k].key != h.updates[i].key
  }

  /** j is the last update of a frame accepted before n. */
  ghost predicate LastAccepted(h: History, key: Key, j: nat, n: nat)
    requires WellShaped(h) && n <= |h.updates|
  {
    && j < n && h.oks[j] && h.updates[j].key == key
    && forall k :: j < k < n && h.oks[k] ==> h.updates[k].key != key
  }

  ghost predicate StartsEmpty(h: History)
    requires WellShaped(h)
  {
    forall p :: 0 <= p < |h.states[0].entries| ==> h.states[0].entries[p].Empty?
  }

  /** While a frame is remembered its entry is the last byte count accepted for it. */
  lemma {:induction false} EntryIsLastAccepted(h: History, i: nat, j: nat, n: nat)
    requires Moving(h) && i < n <= |h.updates| && Remembered(h, i, n) && |h.states[i].entries| == |h.states[0].entries|
    requires LastAccepted(h, h.updates[i].key, j, n)
    ensures var (r, p) := (h.states[n], h.states[i].cursor);
            p < |r.entries| && Matches(r.entries[p], h.updates[i].key) && r.entries[p].bytes == h.updates[j].bytes
  {
    StaysInPlace(h, i, n);
    assert MovesAt(h, n - 1);
    if n - 1 > i {
      StaysInPlace(h, i, n - 1);
      if j < n - 1 { EntryIsLastAccepted(h, i, j, n - 1); }
    }
  }

  /** From an empty table, a frame that is present was inserted and is remembered. */
  lemma {:induction false} PresentIsRemembered(h: History, key: Key, n: nat) returns (i: nat)
    requires IsHistory(h) && StartsEmpty(h) && n <= |h.updates| && Present(h.states[n], key)
    ensures Remembered(h, i, n) && h.updates[i].key == key
    decreases n
  {
    HistoryMovesAt(h, n - 1);
    if h.inserted[n - 1] && h.updates[n - 1].key == key {
      i := n - 1;
      NoFrameHeldTwice(h, 0);
    } else {
      i := PresentIsRemembered(h, key, n - 1);
      RememberedForOneTable(h, i, n);
    }
  }

  lemma {:induction false} LastAcceptedSince(h: History, i: nat, n: nat) returns (j: nat)
    requires WellShaped(h) && i < n <= |h.updates| && h.oks[i]
    ensures i <= j && LastAccepted(h, h.updates[i].key, j, n)
    decreases n
  {
    if h.oks[n - 1] && h.updates[n - 1].key == h.updates[i].key {
      j := n - 1;
    } else {
      j := LastAcceptedSince(h, i, n - 1);
    }
  }

  /** What decides about one update of a tracker without a slot count. */
  lemma AcceptedBy(t: Tracker, v: Progress, valid: bool)
    requires Rotating(t) && UniqueKeys(t)
    ensures Step(t, v, valid).0 <==>
            && (t.maxBytes == 0 || v.bytes <= t.maxBytes) && valid
            && forall p :: 0 <= p < |t.entries| && Matches(t.entries[p], v.key) ==> t.entries[p].bytes <= v.bytes
  {
  }

  lemma {:induction false} LimitStays(h: History, n: nat)
    requires Moving(h) && n <= |h.updates|
    ensures h.states[n].maxBytes == h.states[0].maxBytes
  {
    if n > 0 {
      LimitStays(h, n - 1);
      assert MovesAt(h, n - 1);
    }
  }

  /**
    From an empty table, accepted are exactly the updates within the limit that pass the validator and do not go below
    the last byte count accepted for a frame that is still remembered.
   */
  lemma RotatingAcceptance(h: History, n: nat)
    requires IsHistory(h) && StartsEmpty(h) && n < |h.updates|
    ensures var (v, limit) := (h.updates[n], h.states[0].maxBytes);
            h.oks[n] <==>
            && (limit == 0 || v.bytes <= limit) && h.valids[n]
            && forall i: nat, j: nat ::
                 (Remembered(h, i, n) && h.updates[i].key == v.key && LastAccepted(h, v.key, j, n)) ==>
                   h.updates[j].bytes <= v.bytes
  {
    var v, t := h.updates[n], h.states[n];
    HistoryMoves(h);
    LimitStays(h, n);
    assert MovesAt(h, n) && StepsAt(h, n);
    AcceptedBy(t, v, h.valids[n]);
    forall i: nat, j: nat | Remembered(h, i, n) && h.updates[i].key == v.key && LastAccepted(h, v.key, j, n)
      ensures exists p ::
                0 <= p < |t.entries| && Matches(t.entries[p], v.key) && t.entries[p].bytes == h.updates[j].bytes
    {
      NoFrameHeldTwice(h, i);
      EntryIsLastAccepted(h, i, j, n);
    }
    if p :| 0 <= p < |t.entries| && Matches(t.entries[p], v.key) && v.bytes < t.entries[p].bytes {
      OnlyEntry(h, n, p);
    }
  }

  /** An entry of a frame comes from an insertion that is remembered and holds the last count accepted. */
  lemma OnlyEntry(h: History, n: nat, p: nat)
    requires IsHistory(h) && StartsEmpty(h) && n <= |h.updates| && p < |h.states[n].entries|
    requires h.states[n].entries[p].Tracked?
    ensures exists i: nat, j: nat :: Remembered(h, i, n) && h.updates[i].key == h.states[n].entries[p].key
              && LastAccepted(h, h.states[n].entries[p].key, j, n) && h.updates[j].bytes == h.states[n].entries[p].bytes
  {
    var key := h.states[n].entries[p].key;
    assert Matches(h.states[n].entries[p], key);
    var i := PresentIsRemembered(h, key, n);
    HistoryMoves(h);
    assert MovesAt(h, i);
    var j := LastAcceptedSince(h, i, n);
    NoFrameHeldTwice(h, i);
    NoFrameHeldTwice(h, n);
    EntryIsLastAccepted(h, i, j, n);
    assert h.states[i].cursor == p;
  }
}
