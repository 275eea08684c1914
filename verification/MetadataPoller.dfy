/** Reassembly of metadata blobs: an announcement, contiguous chunks, a completion. */
module MetadataPoller {
  import opened Bits

  datatype Message =
    | Announce(stream: nat, version: nat, blobType: nat, total: u64, checksum: u64)
    | Chunk(stream: nat, version: nat, offset: u64, length: u64)
    | Complete(stream: nat, version: nat, checksum: u64)
    | Other

  /** The blob being assembled. */
  datatype Blob = Idle | Active(stream: nat, version: nat, blobType: nat, total: u64, checksum: u64, next: u64)

  predicate ChunkFits(b: Blob, m: Message)
    requires m.Chunk?
  {
    && b.Active? && m.stream == b.stream && m.version == b.version
    && m.length != 0 && m.offset == b.next && m.offset <= b.total && m.length <= b.total - m.offset
  }

  predicate CompleteFits(b: Blob, m: Message)
    requires m.Complete?
  {
    b.Active? && m.stream == b.stream && m.version == b.version && m.checksum == b.checksum && b.next == b.total
  }

  /** Whether a message is delivered, and the blob afterwards. */
  function Step(b: Blob, m: Message): (bool, Blob) {
    match m
    case Announce(stream, version, blobType, total, checksum) =>
      (true, Active(stream, version, blobType, total, checksum, 0))
    case Chunk(_, _, offset, length) =>
      if ChunkFits(b, m) then (true, b.(next := offset + length)) else (false, Idle)
    case Complete(_, _, _) => (CompleteFits(b, m), Idle)
    case Other => (false, b)
  }

  class Poller {
    var active: bool
    var stream: nat
    var version: nat
    var blobType: nat
    var total: u64
    var checksum: u64
    var next: u64

    ghost function View(): Blob
      reads this
    {
      if active then Active(stream, version, blobType, total, checksum, next) else Idle
    }

    ghost predicate Valid()
      reads this
    {
      active ==> next <= total
    }

    constructor ()
      ensures View() == Idle && Valid()
    {
      active, stream, version, blobType, total, checksum, next := false, 0, 0, 0, 0, 0, 0;
    }

    method Reset()
      modifies this
      ensures View() == Idle
    {
      active, stream, version, blobType, total, checksum, next := false, 0, 0, 0, 0, 0, 0;
    }

    method Begin(m: Message)
      requires m.Announce?
      modifies this
      ensures View() == Step(old(View()), m).1 && Valid()
    {
      active, stream, version, blobType, total, checksum := true, m.stream, m.version, m.blobType, m.total, m.checksum;
      next := 0;
    }

    method ValidateChunk(m: Message) returns (ok: bool)
      requires m.Chunk?
      modifies this
      ensures (ok, View()) == Step(old(View()), m) && Valid()
    {
      if !active { return false; }
      if m.stream != stream || m.version != version { Reset(); return false; }
      if m.length == 0 { Reset(); return false; }
      if m.offset != next { Reset(); return false; }
      if m.offset > total { Reset(); return false; }
      var remaining := total - m.offset;
      if m.length > remaining { Reset(); return false; }
      next := m.offset + m.length;
      ok := true;
    }

    method ValidateComplete(m: Message) returns (ok: bool)
      requires m.Complete?
      modifies this
      ensures ok == CompleteFits(old(View()), m)
      ensures ok ==> View() == old(View())
      ensures !ok ==> View() == Idle
    {
      if !active { return false; }
      if m.stream != stream || m.version != version { Reset(); return false; }
      if m.checksum != checksum { Reset(); return false; }
      if next != total { Reset(); return false; }
      ok := true;
    }

    /** Dispatch of one decoded message; true when a handler is to see it. */
    method Handle(m: Message) returns (delivered: bool)
      modifies this
      ensures (delivered, View()) == Step(old(View()), m)
      ensures old(Valid()) ==> Valid()
    {
      match m
      case Announce(_, _, _, _, _) =>
        Begin(m);
        delivered := true;
      case Chunk(_, _, _, _) =>
        delivered := ValidateChunk(m);
      case Complete(_, _, _) =>
        delivered := ValidateComplete(m);
        Reset();
      case Other =>
        delivered := false;
    }
  }

  // ---- Runs ----

  function Run(ms: seq<Message>): Blob {
    if ms == [] then Idle else Step(Run(ms[..|ms| - 1]), ms[|ms| - 1]).1
  }

  /** Message k of a run is delivered. */
  predicate Delivered(ms: seq<Message>, k: nat)
    requires k < |ms|
  {
    Step(Run(ms[..k]), ms[k]).0
  }

  /**
    Between announcement a and position k there are only chunks of the announced blob and unrelated messages, and the
    chunks, each non-empty, follow one another from offset 0 up to n.
   */
  predicate Tiles(ms: seq<Message>, a: nat, k: nat, n: nat)
    requires a < k <= |ms| && ms[a].Announce?
    decreases k
  {
    if k == a + 1 then n == 0 else
      var m := ms[k - 1];
      || (m.Other? && Tiles(ms, a, k - 1, n))
      || (m.Chunk? && m.stream == ms[a].stream && m.version == ms[a].version && m.length > 0
          && n == m.offset + m.length && n <= ms[a].total && Tiles(ms, a, k - 1, m.offset))
  }

  function Assembling(m: Message, n: u64): Blob
    requires m.Announce?
  {
    Active(m.stream, m.version, m.blobType, m.total, m.checksum, n)
  }

  lemma {:induction false} TilesOfPrefix(ms: seq<Message>, a: nat, k: nat, n: nat)
    requires a < k <= |ms| && ms[a].Announce?
    ensures Tiles(ms, a, k, n) == Tiles(ms[..k], a, k, n)
    decreases k
  {
    if k > a + 1 {
      var m := ms[k - 1];
      TilesOfPrefix(ms, a, k - 1, n);
      TilesOfPrefix(ms[..k], a, k - 1, n);
      assert ms[..k][..k - 1] == ms[..k - 1];
      if m.Chunk? {
        TilesOfPrefix(ms, a, k - 1, m.offset);
        TilesOfPrefix(ms[..k], a, k - 1, m.offset);
      }
    }
  }

  /** A tiled stretch leaves the poller assembling exactly that blob, at exactly that offset. */
  lemma {:induction false} TilingIsAssembled(ms: seq<Message>, a: nat, n: nat)
    requires a < |ms| && ms[a].Announce? && Tiles(ms, a, |ms|, n)
    ensures n <= ms[a].total && Run(ms) == Assembling(ms[a], n)
  {
    if |ms| > a + 1 {
      var front, m := ms[..|ms| - 1], ms[|ms| - 1];
      var before := if m.Other? then n else m.offset;
      TilesOfPrefix(ms, a, |front|, before);
      TilingIsAssembled(front, a, before);
    }
  }

  /** Whatever the poller is assembling was announced and tiled up to its offset. */
  lemma {:induction false} AssembledIsTiled(ms: seq<Message>) returns (a: nat)
    requires Run(ms).Active?
    ensures a < |ms| && ms[a].Announce? && Tiles(ms, a, |ms|, Run(ms).next)
    ensures Run(ms) == Assembling(ms[a], Run(ms).next)
    ensures Run(ms).next <= Run(ms).total
  {
    var front, m := ms[..|ms| - 1], ms[|ms| - 1];
    if m.Announce? {
      a := |front|;
    } else {
      a := AssembledIsTiled(front);
      TilesOfPrefix(ms, a, |front|, Run(front).next);
    }
  }

  /** Completion k closes a blob announced at a: the chunks between tile it and the completion names it. */
  predicate Closes(ms: seq<Message>, a: nat, k: nat)
    requires k < |ms|
  {
    && a < k && ms[a].Announce? && Tiles(ms, a, k, ms[a].total)
    && ms[k].Complete? && ms[k].stream == ms[a].stream && ms[k].version == ms[a].version
    && ms[k].checksum == ms[a].checksum
  }

  /**
    A completion is delivered exactly when an announced blob has been received whole, in order, since its announcement.
   */
  lemma CompletionIffWholeBlob(ms: seq<Message>, k: nat)
    requires k < |ms| && ms[k].Complete?
    ensures Delivered(ms, k) <==> exists a :: Closes(ms, a, k)
  {
    var front := ms[..k];
    if Delivered(ms, k) {
      var a := AssembledIsTiled(front);
      TilesOfPrefix(ms, a, k, ms[a].total);
      assert Closes(ms, a, k);
    }
    if a: nat :| Closes(ms, a, k) {
      TilesOfPrefix(ms, a, k, ms[a].total);
      TilingIsAssembled(front, a, ms[a].total);
    }
  }

  /** Chunk k continues a blob announced at a: it starts where the chunks since then end, and does not pass the end. */
  predicate Continues(ms: seq<Message>, a: nat, k: nat)
    requires k < |ms|
  {
    && a < k && ms[a].Announce? && ms[k].Chunk? && Tiles(ms, a, k, ms[k].offset)
    && ms[k].stream == ms[a].stream && ms[k].version == ms[a].version
    && ms[k].length > 0 && ms[k].offset + ms[k].length <= ms[a].total
  }

  /** A chunk is delivered exactly when it continues the announced blob. */
  lemma ChunkIffContinues(ms: seq<Message>, k: nat)
    requires k < |ms| && ms[k].Chunk?
    ensures Delivered(ms, k) <==> exists a :: Continues(ms, a, k)
  {
    var front := ms[..k];
    if Delivered(ms, k) {
      var a := AssembledIsTiled(front);
      TilesOfPrefix(ms, a, k, ms[k].offset);
      assert Continues(ms, a, k);
    }
    if a: nat :| Continues(ms, a, k) {
      TilesOfPrefix(ms, a, k, ms[k].offset);
      TilingIsAssembled(front, a, ms[k].offset);
    }
  }

  /** Every announcement is delivered, and nothing that is no message of this kind. */
  lemma AnnouncementsAreDelivered(ms: seq<Message>, k: nat)
    requires k < |ms| && (ms[k].Announce? || ms[k].Other?)
    ensures Delivered(ms, k) <==> ms[k].Announce?
    ensures ms[k].Other? ==> Run(ms[..k + 1]) == Run(ms[..k])
  {
    assert ms[..k + 1][..k] == ms[..k];
  }

  /** Position p of the blob lies in chunk j. */
  predicate Holds(ms: seq<Message>, j: nat, p: nat)
    requires j < |ms|
  {
    ms[j].Chunk? && ms[j].offset <= p < ms[j].offset + ms[j].length
  }

  /** Tiling means every byte up to n arrives in exactly one chunk, and nothing beyond n arrives. */
  lemma {:induction false} EveryByteOnce(ms: seq<Message>, a: nat, k: nat, n: nat, p: nat)
    requires a < k <= |ms| && ms[a].Announce? && Tiles(ms, a, k, n)
    ensures p < n <==> exists j :: a < j < k && Holds(ms, j, p)
    ensures forall i, j :: a < i < k && a < j < k && Holds(ms, i, p) && Holds(ms, j, p) ==> i == j
    decreases k
  {
    if k > a + 1 {
      var m := ms[k - 1];
      EveryByteOnce(ms, a, k - 1, if m.Other? then n else m.offset, p);
      if m.Chunk? && m.offset <= p < n { assert Holds(ms, k - 1, p); }
    }
  }

  /** The offset never passes the total, so a contiguous chunk is never beyond it: that check cannot fire. */
  lemma OffsetNeverBeyondTotal(ms: seq<Message>, m: Message)
    requires m.Chunk? && Run(ms).Active? && m.offset == Run(ms).next
    ensures m.offset <= Run(ms).total
  {
    var a := AssembledIsTiled(ms);
  }

  /** After a whole blob nothing more completes until another announcement. */
  lemma {:induction false} NothingCompletesTwice(ms: seq<Message>, j: nat, k: nat)
    requires j < k < |ms| && ms[j].Complete? && ms[k].Complete? && Delivered(ms, k)
    ensures exists a :: j < a < k && ms[a].Announce?
  {
    CompletionIffWholeBlob(ms, k);
    var a: nat :| Closes(ms, a, k);
    if a < j { OnlyChunksBetween(ms, a, k, ms[a].total, j); }
  }

  lemma {:induction false} OnlyChunksBetween(ms: seq<Message>, a: nat, k: nat, n: nat, j: nat)
    requires a < j < k <= |ms| && ms[a].Announce? && Tiles(ms, a, k, n)
    ensures ms[j].Chunk? || ms[j].Other?
    decreases k
  {
    if j < k - 1 {
      OnlyChunksBetween(ms, a, k - 1, if ms[k - 1].Other? then n else ms[k - 1].offset, j);
    }
  }
}
