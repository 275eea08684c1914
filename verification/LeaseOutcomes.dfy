/** What one duty cycle does to a lease in each case, and what a lease remembers of the keepalives sent for it. */
module LeaseOutcomes {
  import opened Bits
  import opened LeaseKeepalive

  /** A lease with a deadline that has come. */
  predicate Over(l: Lease, now: u64) { l.id != 0 && l.expiry != NULL_U64 && l.expiry <= now }

  /** A lease is lost exactly when its deadline has come, whatever the clock says; one without a deadline never is. */
  lemma LostIffOver(l: Lease, c: Config, now: u64, offered: bool)
    ensures Serve(l, c, now, offered).0 == LeaseLost <==> Over(l, now)
    ensures l.expiry == NULL_U64 ==> Serve(l, c, now, offered).0 != LeaseLost
  {
  }

  /** A live lease whose last keepalive is an interval old, when keepalives are on. */
  predicate Wanted(l: Lease, c: Config, now: u64) {
    l.id != 0 && c.interval > 0 && !Over(l, now) && l.last + c.interval <= now
  }

  /** When the lease ends after a keepalive: never before it did, and grace intervals from now if that is later. */
  function Extended(l: Lease, c: Config, now: u64): int {
    if l.expiry == NULL_U64 then NULL_U64
    else if c.grace > 0 && now + c.interval * c.grace > l.expiry then now + c.interval * c.grace
    else l.expiry
  }

  /** The three outcomes, and exactly what each leaves of the lease, while no sum leaves 64 bits. */
  lemma ServeOutcome(l: Lease, c: Config, now: u64, offered: bool)
    requires l.last <= now && InRangeUntil(c, now)
    ensures var (outcome, l') := Serve(l, c, now, offered);
            && (outcome == LeaseLost <==> Over(l, now))
            && (outcome == OfferFailed <==> Wanted(l, c, now) && !offered)
            && (outcome == LeaseLost ==> l' == Lease(0, l.expiry, l.last))
            && (outcome == OfferFailed ==> l' == l)
            && (outcome == Served && !Wanted(l, c, now) ==> l' == l)
            && (outcome == Served && Wanted(l, c, now) ==> l' == Lease(l.id, Extended(l, c, now), now))
  {
    InRange(now - l.last, U64);
    ProductIsNatural(c.interval, c.grace);
    InRange(c.interval * c.grace, U64);
    InRange(now + c.interval * c.grace, U64);
  }

  lemma ProductIsNatural(a: nat, b: nat)
    ensures a * b >= 0
  {
  }

  /**
    A clock that reads less than at the last keepalive counts as long after it, unless the interval is longer still.
   */
  lemma ClockWentBack(l: Lease, c: Config, now: u64)
    requires now < l.last
    ensures Due(l, now, c.interval) <==> l.id != 0 && 0 < c.interval <= U64 - (l.last - now)
  {
    DivModUnique(now - l.last, U64, -1, U64 + now - l.last);
  }

  // ---- Over runs ----

  /** The lease before call k. */
  function Before(l: Lease, c: Config, calls: seq<(u64, bool)>, k: nat): Lease
    requires k <= |calls|
  {
    RunOffers(l, c, calls[..k])
  }

  /** A keepalive was wanted at call k and its offer succeeded. */
  predicate SentAt(l: Lease, c: Config, calls: seq<(u64, bool)>, k: nat)
    requires k < |calls|
  {
    Wanted(Before(l, c, calls, k), c, calls[k].0) && calls[k].1
  }

  /** The time of the last keepalive sent, or the one the lease came with. */
  function LastSent(l: Lease, c: Config, calls: seq<(u64, bool)>, n: nat): u64
    requires n <= |calls|
  {
    if n == 0 then l.last else if SentAt(l, c, calls, n - 1) then calls[n - 1].0 else LastSent(l, c, calls, n - 1)
  }

  /** Clock readings never go back and no sum leaves 64 bits. */
  predicate Orderly(l: Lease, c: Config, calls: seq<(u64, bool)>) {
    && (forall k :: 0 <= k < |calls| ==> l.last <= calls[k].0 && InRangeUntil(c, calls[k].0))
    && (forall j, k :: 0 <= j <= k < |calls| ==> calls[j].0 <= calls[k].0)
  }

  lemma OneCall(l: Lease, c: Config, calls: seq<(u64, bool)>, k: nat)
    requires k < |calls|
    ensures Before(l, c, calls, k + 1) == Serve(Before(l, c, calls, k), c, calls[k].0, calls[k].1).1
  {
    assert calls[..k + 1][..k] == calls[..k];
  }

  /** The lease remembers the last keepalive sent, whatever offers failed meanwhile. */
  lemma {:induction false} RemembersLastSent(l: Lease, c: Config, calls: seq<(u64, bool)>, n: nat)
    requires Orderly(l, c, calls) && n <= |calls|
    ensures Before(l, c, calls, n).last == LastSent(l, c, calls, n)
    ensures n > 0 ==> Before(l, c, calls, n).last <= calls[n - 1].0
  {
    if n > 0 {
      RemembersLastSent(l, c, calls, n - 1);
      OneCall(l, c, calls, n - 1);
      ServeOutcome(Before(l, c, calls, n - 1), c, calls[n - 1].0, calls[n - 1].1);
    }
  }

  /** A keepalive whose offer failed is wanted again at the next call, unless the lease is over by then. */
  lemma FailedKeepaliveIsRetried(l: Lease, c: Config, calls: seq<(u64, bool)>, k: nat)
    requires Orderly(l, c, calls) && k + 1 < |calls|
    requires Wanted(Before(l, c, calls, k), c, calls[k].0) && !calls[k].1
    ensures Over(Before(l, c, calls, k + 1), calls[k + 1].0) || Wanted(Before(l, c, calls, k + 1), c, calls[k + 1].0)
  {
    RemembersLastSent(l, c, calls, k);
    OneCall(l, c, calls, k);
    ServeOutcome(Before(l, c, calls, k), c, calls[k].0, calls[k].1);
  }

  /** A lost lease is left alone: nothing is wanted for it, nothing is sent, and it is never lost a second time. */
  lemma LostLeaseIsLeftAlone(l: Lease, c: Config, now: u64, offered: bool)
    requires l.id == 0
    ensures Serve(l, c, now, offered) == (Served, l)
  {
  }

  // ---- Several drivers ----

  /** Drivers i up to j are all served without a failure. */
  ghost predicate ServedFrom(ls: seq<Lease>, c: Config, now: u64, offered: seq<bool>, i: nat, j: nat)
    requires |ls| == |offered|
  {
    i <= j <= |ls| && forall k :: i <= k < j ==> Serve(ls[k], c, now, offered[k]).0 == Served
  }

  /** The walk serves the drivers before the first one that fails, that one too, and none after it. */
  lemma {:induction false} WalkStopsAtFirstFailure(ls: seq<Lease>, c: Config, now: u64, offered: seq<bool>, i: nat,
      j: nat)
    requires i <= |ls| == |offered| && j < |ls|
    ensures Walk(ls, c, now, offered, i).0 <==> ServedFrom(ls, c, now, offered, i, |ls|)
    ensures Walk(ls, c, now, offered, i).1[j] ==
            if ServedFrom(ls, c, now, offered, i, j) then Serve(ls[j], c, now, offered[j]).1 else ls[j]
    decreases |ls| - i
  {
    if i < |ls| {
      var (outcome, l) := Serve(ls[i], c, now, offered[i]);
      var ls' := ls[i := l];
      if outcome == Served {
        WalkStopsAtFirstFailure(ls', c, now, offered, i + 1, j);
        ServedOneMore(ls, ls', c, now, offered, i, |ls|);
        if j > i { ServedOneMore(ls, ls', c, now, offered, i, j); }
      } else {
        assert !ServedFrom(ls, c, now, offered, i, |ls|);
        if j > i { assert !ServedFrom(ls, c, now, offered, i, j); }
      }
    }
  }

  lemma ServedOneMore(ls: seq<Lease>, ls': seq<Lease>, c: Config, now: u64, offered: seq<bool>, i: nat, j: nat)
    requires i < j <= |ls| == |ls'| == |offered| && Serve(ls[i], c, now, offered[i]).0 == Served
    requires forall k :: i < k < |ls| ==> ls'[k] == ls[k]
    ensures ServedFrom(ls, c, now, offered, i, j) <==> ServedFrom(ls', c, now, offered, i + 1, j)
  {
  }
}
