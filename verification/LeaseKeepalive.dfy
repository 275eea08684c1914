/** Driver leases: keepalives sent from the client's duty cycle, and when they keep a lease from expiring. */
module LeaseKeepalive {
  import opened Bits

  /** The lease fields of a driver client; id 0 is no lease, expiry NULL_U64 is a lease that never expires. */
  datatype Lease = Lease(id: u64, expiry: u64, last: u64)

  datatype Config = Config(interval: u64, grace: u64)

  // ---- One driver at one call ----

  predicate Expired(l: Lease, now: u64) { l.id != 0 && l.expiry != NULL_U64 && now >= l.expiry }

  predicate Due(l: Lease, now: u64, interval: u64) { l.id != 0 && interval != 0 && Sub64(now, l.last) >= interval }

  function Recorded(l: Lease, c: Config, now: u64): Lease {
    var next := Add64(now, (c.interval * c.grace) % U64);
    var grows := l.expiry != NULL_U64 && c.interval > 0 && c.grace > 0 && next > l.expiry;
    Lease(l.id, if grows then next else l.expiry, now)
  }

  datatype Outcome = Served | LeaseLost | OfferFailed

  /** What one call does for one driver, given whether an offer on its publication would succeed. */
  function Serve(l: Lease, c: Config, now: u64, offered: bool): (Outcome, Lease) {
    if Expired(l, now) then (LeaseLost, l.(id := 0))
    else if !Due(l, now, c.interval) then (Served, l)
    else if offered then (Served, Recorded(l, c, now))
    else (OfferFailed, l)
  }

  /** The call walks the drivers in list order and stops at the first failure. */
  function Walk(ls: seq<Lease>, c: Config, now: u64, offered: seq<bool>, i: nat): (r: (bool, seq<Lease>))
    requires i <= |ls| == |offered|
    ensures |r.1| == |ls|
    decreases |ls| - i
  {
    if i == |ls| then (true, ls) else
      var (outcome, l) := Serve(ls[i], c, now, offered[i]);
      if outcome == Served then Walk(ls[i := l], c, now, offered, i + 1) else (false, ls[i := l])
  }

  class DriverClient {
    var leaseId: u64
    var expiry: u64
    var lastKeepalive: u64
    var streamId: nat
    var clientId: nat
    var role: nat

    constructor ()
      ensures View() == Lease(0, NULL_U64, 0)
    {
      leaseId, expiry, lastKeepalive, streamId, clientId, role := 0, NULL_U64, 0, 0, 0, 0;
    }

    function View(): Lease
      reads this
    {
      Lease(leaseId, expiry, lastKeepalive)
    }

    /** A successful attach; the time of the last keepalive is not reset. */
    method UpdateLease(id: u64, expires: u64, stream: nat, client: nat, asRole: nat)
      modifies this
      ensures View() == Lease(id, expires, old(lastKeepalive))
      ensures streamId == stream && clientId == client && role == asRole
    {
      leaseId, expiry := id, expires;
      streamId, clientId, role := stream, client, asRole;
    }

    method RecordKeepalive(c: Config, now: u64)
      modifies this
      ensures View() == Recorded(old(View()), c, now)
      ensures streamId == old(streamId) && clientId == old(clientId) && role == old(role)
    {
      lastKeepalive := now;
      if expiry != NULL_U64 {
        if c.interval > 0 && c.grace > 0 {
          var extension := (c.interval * c.grace) % U64;
          var next := Add64(now, extension);
          if next > expiry { expiry := next; }
        }
      }
    }

    method KeepaliveDue(now: u64, interval: u64) returns (due: bool)
      ensures due == Due(View(), now, interval)
    {
      if leaseId == 0 || interval == 0 { return false; }
      due := Sub64(now, lastKeepalive) >= interval;
    }

    method LeaseExpired(now: u64) returns (expired: bool)
      ensures expired == Expired(View(), now)
    {
      if leaseId == 0 { return false; }
      if expiry == NULL_U64 { return false; }
      expired := now >= expiry;
    }
  }

  function Views(ds: seq<DriverClient>): (ls: seq<Lease>)
    reads set d | d in ds
    ensures |ls| == |ds| && forall i :: 0 <= i < |ds| ==> ls[i] == ds[i].View()
  {
    if ds == [] then [] else Views(ds[..|ds| - 1]) + [ds[|ds| - 1].View()]
  }

  class Client {
    const config: Config
    var drivers: seq<DriverClient>

    constructor (config: Config)
      ensures this.config == config && drivers == []
    {
      this.config, drivers := config, [];
    }

    ghost predicate Valid()
      reads this
    {
      forall i, j :: 0 <= i < j < |drivers| ==> drivers[i] != drivers[j]
    }

    method ServeOne(d: DriverClient, now: u64, offered: bool) returns (outcome: Outcome)
      modifies d
      ensures (outcome, d.View()) == Serve(old(d.View()), config, now, offered)
    {
      var expired := d.LeaseExpired(now);
      if expired {
        d.leaseId := 0;
        return LeaseLost;
      }
      var due := d.KeepaliveDue(now, config.interval);
      if due {
        if !offered { return OfferFailed; }
        d.RecordKeepalive(config, now);
      }
      outcome := Served;
    }

    /** The lease loop of the duty cycle. The publications' answers are an oracle. */
    method DoWork(now: u64, offered: seq<bool>) returns (ok: bool)
      requires Valid() && |offered| == |drivers|
      modifies set d | d in drivers
      ensures ok == Walk(old(Views(drivers)), config, now, offered, 0).0
      ensures Views(drivers) == Walk(old(Views(drivers)), config, now, offered, 0).1
    {
      ghost var was := Views(drivers);
      ghost var current := was;
      var i := 0;
      while i < |drivers|
        invariant i <= |drivers| && |current| == |drivers| && current == Views(drivers)
        invariant Walk(current, config, now, offered, i) == Walk(was, config, now, offered, 0)
      {
        var outcome := ServeOne(drivers[i], now, offered[i]);
        current := current[i := drivers[i].View()];
        assert Views(drivers) == current;
        if outcome != Served { return false; }
        i := i + 1;
      }
      ok := true;
    }
  }

  // ---- One lease over a run of calls ----

  /** Call times within d of each other, starting from a time already passed. */
  predicate Paced(from: u64, calls: seq<u64>, d: nat) {
    calls != [] ==>
      from <= calls[0] <= from + d
      && forall k :: 0 < k < |calls| ==> calls[k - 1] <= calls[k] <= calls[k - 1] + d
  }

  /** The lease after the calls, every keepalive offer succeeding; false once a call finds it expired. */
  function RunLease(l: Lease, c: Config, calls: seq<u64>): (bool, Lease) {
    if calls == [] then (true, l) else
      var (ok, l') := RunLease(l, c, calls[..|calls| - 1]);
      if !ok then (false, l') else
        var (outcome, l'') := Serve(l', c, calls[|calls| - 1], true);
        (outcome == Served, l'')
  }

  function LastCall(from: u64, calls: seq<u64>): u64 { if calls == [] then from else calls[|calls| - 1] }

  /** A lease just attached: room for an interval and a gap before it expires. */
  predicate AttachedAt(l: Lease, c: Config, from: u64, d: nat) {
    l.id != 0 && l.last <= from && l.expiry >= from + c.interval + d
  }

  /** No sum of the run leaves the 64-bit range. */
  predicate InRangeUntil(c: Config, t: u64) { t + c.interval * c.grace < NULL_U64 }

  /** Slack between the client's pace and the grace period. */
  predicate SlowEnough(c: Config, d: nat) { c.interval > 0 && c.grace > 0 && d <= (c.grace - 1) * c.interval }

  /** Holds after every call: the lease outlives the next one, whether or not that one sends a keepalive. */
  predicate Safe(l: Lease, c: Config, t: u64, d: nat) {
    l.id != 0 && l.last <= t && l.expiry > t + d && l.expiry >= l.last + c.interval + d
  }

  lemma GraceProduct(interval: int, grace: int)
    requires interval > 0 && grace > 0
    ensures interval * grace == (grace - 1) * interval + interval
    ensures interval * grace >= interval
  {
    assert (grace - 1) * interval >= 0;
  }

  lemma SafeStep(l: Lease, c: Config, t: u64, next: u64, d: nat)
    requires Safe(l, c, t, d) && SlowEnough(c, d) && t <= next <= t + d && InRangeUntil(c, next)
    ensures Serve(l, c, next, true).0 == Served && Safe(Serve(l, c, next, true).1, c, next, d)
  {
    GraceProduct(c.interval, c.grace);
    InRange(next - l.last, U64);
    var extension: int := c.interval * c.grace;
    InRange(extension, U64);
    InRange(next + extension, U64);
  }

  lemma {:induction false} PacedPrefix(from: u64, calls: seq<u64>, d: nat)
    requires Paced(from, calls, d) && calls != []
    ensures Paced(from, calls[..|calls| - 1], d)
    ensures LastCall(from, calls[..|calls| - 1]) <= LastCall(from, calls) <= LastCall(from, calls[..|calls| - 1]) + d
  {
  }

  /** A client that calls often enough never sees its lease expire. */
  lemma {:induction false} NeverExpires(l: Lease, c: Config, from: u64, calls: seq<u64>, d: nat)
    requires SlowEnough(c, d) && AttachedAt(l, c, from, d) && Paced(from, calls, d)
    requires InRangeUntil(c, LastCall(from, calls))
    ensures RunLease(l, c, calls).0 && Safe(RunLease(l, c, calls).1, c, LastCall(from, calls), d)
  {
    if calls != [] {
      var front := calls[..|calls| - 1];
      PacedPrefix(from, calls, d);
      NeverExpires(l, c, from, front, d);
      SafeStep(RunLease(l, c, front).1, c, LastCall(from, front), LastCall(from, calls), d);
    }
  }

  /** Calls one tick apart, n of them after time t. */
  function Ticks(t: u64, n: nat): (r: seq<u64>)
    requires t + n < U64
    ensures |r| == n && forall k :: 0 <= k < n ==> r[k] == t + 1 + k
  {
    seq(n, k requires 0 <= k < n => t + 1 + k)
  }

  /** A client that may wait one tick longer than the grace allows: a keepalive, then none due until it is too late. */
  function LateCalls(c: Config, from: u64, d: nat): seq<u64>
    requires c.interval > 0 && from + 2 * d + c.interval < U64
  {
    [from + d] + Ticks(from + d, c.interval - 1) + [from + 2 * d + c.interval - 1]
  }

  lemma {:induction false} NothingDueBetween(l: Lease, c: Config, calls: seq<u64>, s: u64, n: nat)
    requires n < c.interval && s + n < U64 && RunLease(l, c, calls).0
    requires var l' := RunLease(l, c, calls).1; l'.id != 0 && l'.last == s && l'.expiry > s + n
    ensures RunLease(l, c, calls + Ticks(s, n)) == RunLease(l, c, calls)
  {
    if n == 0 {
      assert calls + Ticks(s, n) == calls;
    } else {
      NothingDueBetween(l, c, calls, s, n - 1);
      var all := calls + Ticks(s, n);
      assert all[..|all| - 1] == calls + Ticks(s, n - 1);
      InRange(n, U64);
    }
  }

  /** The first keepalive after attaching, and the expiry it buys. */
  lemma FirstKeepalive(l: Lease, c: Config, s: u64, extension: nat)
    requires l.id != 0 && l.last == 0 && c.interval <= s < l.expiry <= s + extension
    requires c.interval > 0 && c.grace > 0 && extension == c.interval * c.grace && s + extension < NULL_U64
    ensures RunLease(l, c, [s]) == (true, Lease(l.id, s + extension, s))
  {
    InRange(s, U64);
    InRange(extension, U64);
    InRange(s + extension, U64);
    var calls := [s];
    assert calls[..0] == [];
    assert RunLease(l, c, calls[..0]) == (true, l);
  }

  /** The bound is tight: any longer gap admits a run, paced and properly attached, that loses the lease. */
  lemma LongerGapLosesLease(c: Config, from: u64, d: nat)
    requires c.interval > 0 && c.grace > 0 && d > (c.grace - 1) * c.interval && from >= c.interval
    requires from + 2 * d + c.interval * c.grace + c.interval < NULL_U64
    ensures var l := Lease(1, from + c.interval + d, 0);
            && AttachedAt(l, c, from, d) && Paced(from, LateCalls(c, from, d), d)
            && !RunLease(l, c, LateCalls(c, from, d)).0
  {
    GraceProduct(c.interval, c.grace);
    LateRunExpires(c, from, d, c.interval * c.grace);
  }

  lemma LateRunExpires(c: Config, from: u64, d: nat, extension: nat)
    requires 0 < c.interval <= extension < d + c.interval && from >= c.interval && c.grace > 0
    requires extension == c.interval * c.grace && from + 2 * d + extension + c.interval < NULL_U64
    ensures var l := Lease(1, from + c.interval + d, 0);
            && AttachedAt(l, c, from, d) && Paced(from, LateCalls(c, from, d), d)
            && !RunLease(l, c, LateCalls(c, from, d)).0
  {
    var l, s, calls := Lease(1, from + c.interval + d, 0), from + d, LateCalls(c, from, d);
    FirstKeepalive(l, c, s, extension);
    NothingDueBetween(l, c, [s], s, c.interval - 1);
    assert calls[..|calls| - 1] == [s] + Ticks(s, c.interval - 1);
    assert RunLease(l, c, calls[..|calls| - 1]) == (true, Lease(l.id, s + extension, s));
    LateCallsArePaced(c, from, d);
  }

  lemma LateCallsArePaced(c: Config, from: u64, d: nat)
    requires c.interval > 0 && d > 0 && from + 2 * d + c.interval < U64
    ensures Paced(from, LateCalls(c, from, d), d)
  {
    var calls := LateCalls(c, from, d);
    forall k | 0 <= k < |calls|
      ensures calls[k] == if k < c.interval then from + d + k else from + 2 * d + c.interval - 1
    {
    }
  }

  // ---- The expiry only grows ----

  /** One lease over calls whose offers may fail. */
  function RunOffers(l: Lease, c: Config, calls: seq<(u64, bool)>): Lease {
    if calls == [] then l else
      var (now, offered) := calls[|calls| - 1];
      Serve(RunOffers(l, c, calls[..|calls| - 1]), c, now, offered).1
  }

  lemma {:induction false} ExpiryNeverDecreases(l: Lease, c: Config, calls: seq<(u64, bool)>, k: nat)
    requires k <= |calls|
    ensures RunOffers(l, c, calls[..k]).expiry <= RunOffers(l, c, calls).expiry
    ensures RunOffers(l, c, calls).id in {0, RunOffers(l, c, calls[..k]).id}
  {
    if k < |calls| {
      var front := calls[..|calls| - 1];
      ExpiryNeverDecreases(l, c, front, k);
      assert front[..k] == calls[..k];
    } else {
      assert calls[..k] == calls;
    }
  }

  // ---- Several drivers ----

  /** When nothing fails, every driver is served as if it were alone. */
  lemma {:induction false} WalkServesEach(ls: seq<Lease>, c: Config, now: u64, offered: seq<bool>, i: nat)
    requires i <= |ls| == |offered|
    requires forall j :: i <= j < |ls| ==> Serve(ls[j], c, now, offered[j]).0 == Served
    ensures var (ok, r) := Walk(ls, c, now, offered, i);
            ok && forall j :: 0 <= j < |ls| ==> r[j] == if j < i then ls[j] else Serve(ls[j], c, now, offered[j]).1
    decreases |ls| - i
  {
    if i < |ls| {
      WalkServesEach(ls[i := Serve(ls[i], c, now, offered[i]).1], c, now, offered, i + 1);
    }
  }

  function AllOffered(n: nat): seq<bool> { seq(n, _ => true) }

  function RunClient(ls: seq<Lease>, c: Config, calls: seq<u64>): (r: (bool, seq<Lease>))
    ensures |r.1| == |ls|
  {
    if calls == [] then (true, ls) else
      var (ok, ls') := RunClient(ls, c, calls[..|calls| - 1]);
      if !ok then (false, ls') else Walk(ls', c, calls[|calls| - 1], AllOffered(|ls|), 0)
  }

  /** The guarantee holds for every lease of a client that serves several drivers in one duty cycle. */
  lemma {:induction false} NoLeaseExpires(ls: seq<Lease>, c: Config, from: u64, calls: seq<u64>, d: nat)
    requires SlowEnough(c, d) && Paced(from, calls, d) && InRangeUntil(c, LastCall(from, calls))
    requires forall i :: 0 <= i < |ls| ==> AttachedAt(ls[i], c, from, d)
    ensures RunClient(ls, c, calls).0
    ensures forall i :: 0 <= i < |ls| ==> RunLease(ls[i], c, calls) == (true, RunClient(ls, c, calls).1[i])
  {
    if calls != [] {
      var front, now := calls[..|calls| - 1], calls[|calls| - 1];
      PacedPrefix(from, calls, d);
      NoLeaseExpires(ls, c, from, front, d);
      var r := RunClient(ls, c, front).1;
      forall i | 0 <= i < |ls| ensures Serve(r[i], c, now, true).0 == Served {
        NeverExpires(ls[i], c, from, front, d);
        SafeStep(r[i], c, LastCall(from, front), now, d);
      }
      WalkServesEach(r, c, now, AllOffered(|ls|), 0);
    }
  }
}
