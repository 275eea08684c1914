/** Running a machine over a list of inputs, its runs one after the other, and what repeated stretches of a run keep. */
module Folds {
  function Fold<T, A>(f: (T, A) -> T, x: T, s: seq<A>): T
    decreases |s|
  {
    if s == [] then x else f(Fold(f, x, s[..|s| - 1]), s[|s| - 1])
  }

  /** Every input meets a condition on the state it finds. */
  ghost predicate Guarded<T, A>(f: (T, A) -> T, ok: (T, A) -> bool, x: T, s: seq<A>) {
    forall k :: 0 <= k < |s| ==> ok(Fold(f, x, s[..k]), s[k])
  }

  lemma {:induction false} FoldAppend<T, A>(f: (T, A) -> T, x: T, s: seq<A>, t: seq<A>)
    ensures Fold(f, x, s + t) == Fold(f, Fold(f, x, s), t)
    decreases |t|
  {
    if t == [] {
      assert s + t == s;
    } else {
      FoldAppend(f, x, s, t[..|t| - 1]);
      assert (s + t)[..|s + t| - 1] == s + t[..|t| - 1];
    }
  }

  lemma FoldOne<T, A>(f: (T, A) -> T, x: T, a: A)
    ensures Fold(f, x, [a]) == f(x, a)
  {
    assert [a][..0] == [];
    assert Fold(f, x, [a][..0]) == x;
  }

  lemma GuardedAppend<T, A>(f: (T, A) -> T, ok: (T, A) -> bool, x: T, s: seq<A>, t: seq<A>)
    requires Guarded(f, ok, x, s) && Guarded(f, ok, Fold(f, x, s), t)
    ensures Guarded(f, ok, x, s + t)
  {
    forall k | 0 <= k < |s + t| ensures ok(Fold(f, x, (s + t)[..k]), (s + t)[k]) {
      if k < |s| {
        assert (s + t)[..k] == s[..k];
      } else {
        FoldAppend(f, x, s, t[..k - |s|]);
        assert (s + t)[..k] == s + t[..k - |s|];
      }
    }
  }

  function Repeat<A>(a: A, n: nat): (s: seq<A>)
    ensures |s| == n && forall k :: 0 <= k < n ==> s[k] == a
  {
    seq(n, _ => a)
  }

  /** A stretch repeated n times. */
  function Blocks<A>(b: seq<A>, n: nat): seq<A> {
    if n == 0 then [] else Blocks(b, n - 1) + b
  }

  lemma {:induction false} BlocksLength<A>(b: seq<A>, n: nat)
    ensures |Blocks(b, n)| == n * |b| && forall k :: 0 <= k < |Blocks(b, n)| ==> Blocks(b, n)[k] in b
  {
    if n > 0 {
      BlocksLength(b, n - 1);
      assert n * |b| == (n - 1) * |b| + |b|;
    }
  }

  /** What each stretch keeps, the repeated stretch keeps; and it meets the condition if each does. */
  lemma {:induction false} BlocksKeep<T(!new), A>(f: (T, A) -> T, ok: (T, A) -> bool, x: T, b: seq<A>, n: nat,
      p: (nat, T) -> bool)
    requires p(0, x)
    requires forall k: nat, y: T :: k < n && p(k, y) ==> p(k + 1, Fold(f, y, b)) && Guarded(f, ok, y, b)
    ensures p(n, Fold(f, x, Blocks(b, n))) && Guarded(f, ok, x, Blocks(b, n))
  {
    if n > 0 {
      BlocksKeep(f, ok, x, b, n - 1, p);
      FoldAppend(f, x, Blocks(b, n - 1), b);
      GuardedAppend(f, ok, x, Blocks(b, n - 1), b);
    }
  }

  /** One input repeated is the same step iterated. */
  function Iterate<T>(f: T -> T, x: T, n: nat): T {
    if n == 0 then x else f(Iterate(f, x, n - 1))
  }

  /** What holds at the start and is carried from each step to the next holds at the end. */
  lemma {:induction false} IterateKeeps<T(!new)>(f: T -> T, x: T, n: nat, p: (nat, T) -> bool)
    requires p(0, x) && forall k: nat, y: T :: k < n && p(k, y) ==> p(k + 1, f(y))
    ensures p(n, Iterate(f, x, n))
  {
    if n > 0 {
      IterateKeeps(f, x, n - 1, p);
    }
  }

  lemma {:induction false} IterateAdd<T>(f: T -> T, x: T, m: nat, n: nat)
    ensures Iterate(f, x, m + n) == Iterate(f, Iterate(f, x, m), n)
  {
    if n > 0 {
      IterateAdd(f, x, m, n - 1);
    }
  }

  lemma {:induction false} FoldRepeat<T(!new), A>(f: (T, A) -> T, g: T -> T, x: T, a: A, n: nat)
    requires forall y: T :: f(y, a) == g(y)
    ensures Fold(f, x, Repeat(a, n)) == Iterate(g, x, n)
    decreases n
  {
    if n > 0 {
      FoldRepeat(f, g, x, a, n - 1);
      assert Repeat(a, n)[..n - 1] == Repeat(a, n - 1);
    }
  }
}
