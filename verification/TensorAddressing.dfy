/** What an accepted header means for addressing: collision-free offsets, and validation as a fixed point. */
module TensorAddressing {
  import opened Bits
  import opened Tensor

  /** Extent of an axis as stride inference uses it. */
  function Extent(dim: i32): (e: int)
    ensures e >= 1
  {
    if dim > 0 then dim else 1
  }

  /** Position k, counted from the innermost axis, has the stride its inner neighbour asks for, or more. */
  ghost predicate StepOk(h: Header, k: nat)
    requires h.Shaped() && 1 <= k < h.ndims <= MAX_DIMS
  {
    var inner, a := Axis(h.majorOrder, h.ndims, k - 1), Axis(h.majorOrder, h.ndims, k);
    h.strides[a] >= Expected(h.strides[inner], h.dims[inner])
  }

  /**
    The stride at position k is the one given, unless that was zero: then the element size or what the neighbour asks
    for.
   */
  ghost predicate Inferred(h: Header, elemSize: i32, s: seq<i32>, k: nat)
    requires h.Shaped() && |s| == MAX_DIMS && k < h.ndims <= MAX_DIMS
  {
    var a := Axis(h.majorOrder, h.ndims, k);
    s[a] == (if h.strides[a] != 0 then h.strides[a]
             else if k == 0 then elemSize
             else var inner := Axis(h.majorOrder, h.ndims, k - 1); Expected(s[inner], h.dims[inner]))
  }

  /** What makes a header acceptable, and what it becomes. */
  ghost predicate Accepts(h: Header, h': Header)
    requires h.Shaped()
  {
    && 1 <= h.ndims <= MAX_DIMS && DtypeSize(h.dtype) >= 1 && h.majorOrder in {ROW, COLUMN}
    && h' == h.(strides := h'.strides) && h'.Shaped()
    && (forall i :: 0 <= i < h.ndims ==> h.dims[i] >= 0 && h.strides[i] >= 0)
    && (forall i :: h.ndims <= i < MAX_DIMS ==> h'.strides[i] == h.strides[i])
    && (forall k: nat :: k < h.ndims ==> Inferred(h, DtypeSize(h.dtype), h'.strides, k))
    && (forall k: nat :: 1 <= k < h.ndims ==> StepOk(h', k))
    && ProgressOk(h')
  }

  /**
    An accepted header: every stride is the given or the inferred one, each large enough for its inner neighbour,
    nothing else changed.
   */
  lemma AcceptedMeans(h: Header)
    requires h.Shaped() && Validate(h).0
    ensures Accepts(h, Validate(h).1)
  {
    var e := DtypeSize(h.dtype);
    var innermost := Axis(h.majorOrder, h.ndims, 0);
    var s := if h.strides[innermost] == 0 then h.strides[innermost := e] else h.strides;
    FillMeans(h.majorOrder, h.ndims, h.dims, s, 1);
    var s' := Validate(h).1.strides;
    forall k: nat | k < h.ndims
      ensures Inferred(h, e, s', k)
    {
      if k > 0 { assert FilledAt(h.majorOrder, h.ndims, h.dims, s, s', k); }
    }
    forall k: nat | 1 <= k < h.ndims
      ensures StepOk(Validate(h).1, k)
    {
      assert FilledAt(h.majorOrder, h.ndims, h.dims, s, s', k);
    }
  }

  ghost predicate FilledAt(order: int, n: nat, dims: seq<i32>, s: seq<i32>, s': seq<i32>, k: nat)
    requires n <= |dims| == |s| == |s'| && 1 <= k < n
  {
    var inner, a := Axis(order, n, k - 1), Axis(order, n, k);
    var expected := Expected(s'[inner], dims[inner]);
    if s[a] == 0 then s'[a] == expected else s'[a] == s[a] >= expected
  }

  /** What filling from position k on does to each stride, when it succeeds. */
  lemma {:induction false} FillMeans(order: int, n: nat, dims: seq<i32>, s: seq<i32>, k: nat)
    requires n <= |dims| == |s| && 1 <= k <= n
    ensures var (ok, s') := Fill(order, n, dims, s, k);
      && (forall j: nat :: j < k ==> s'[Axis(order, n, j)] == s[Axis(order, n, j)])
      && (forall i :: n <= i < |s| ==> s'[i] == s[i])
      && (ok ==> forall j: nat :: k <= j < n ==> FilledAt(order, n, dims, s, s', j))
    decreases n - k
  {
    if k < n {
      var inner, a := Axis(order, n, k - 1), Axis(order, n, k);
      var expected := Expected(s[inner], dims[inner]);
      if s[a] == 0 {
        var t := s[a := expected];
        FillMeans(order, n, dims, t, k + 1);
        var (ok, s') := Fill(order, n, dims, t, k + 1);
        assert s'[inner] == s[inner] && s'[a] == expected;
        if ok {
          forall j: nat | k <= j < n
            ensures FilledAt(order, n, dims, s, s', j)
          {
            if j > k { assert FilledAt(order, n, dims, t, s', j); }
          }
        }
      } else if s[a] >= expected {
        FillMeans(order, n, dims, s, k + 1);
        var (ok, s') := Fill(order, n, dims, s, k + 1);
        assert s'[inner] == s[inner] && s'[a] == s[a];
      }
    }
  }

  /** Filling succeeds with any strides that meet every neighbour's demand, so it finds the only ones there are. */
  lemma {:induction false} FillFinds(order: int, n: nat, dims: seq<i32>, s: seq<i32>, s': seq<i32>, k: nat)
    requires n <= |dims| == |s| == |s'| && 1 <= k <= n
    requires forall j: nat :: j < k ==> s'[Axis(order, n, j)] == s[Axis(order, n, j)]
    requires forall i :: n <= i < |s| ==> s'[i] == s[i]
    requires forall j: nat :: k <= j < n ==> FilledAt(order, n, dims, s, s', j)
    ensures Fill(order, n, dims, s, k) == (true, s')
    decreases n - k
  {
    if k == n {
      forall i | 0 <= i < |s| ensures s'[i] == s[i] {
        if i < n {
          var j: nat := if order == ROW then n - 1 - i else i;
          assert Axis(order, n, j) == i;
        }
      }
      assert s == s';
    } else {
      var inner, a := Axis(order, n, k - 1), Axis(order, n, k);
      assert FilledAt(order, n, dims, s, s', k);
      var t := if s[a] == 0 then s[a := Expected(s[inner], dims[inner])] else s;
      forall j: nat | k + 1 <= j < n ensures FilledAt(order, n, dims, t, s', j) {
        assert FilledAt(order, n, dims, s, s', j);
      }
      FillFinds(order, n, dims, t, s', k + 1);
    }
  }

  lemma InferredIsFilled(h: Header, h': Header, s: seq<i32>, j: nat)
    requires h.Shaped() && Accepts(h, h') && 1 <= j < h.ndims && |s| == MAX_DIMS
    requires s[Axis(h.majorOrder, h.ndims, j)] == h.strides[Axis(h.majorOrder, h.ndims, j)]
    ensures FilledAt(h.majorOrder, h.ndims, h.dims, s, h'.strides, j)
  {
    assert Inferred(h, DtypeSize(h.dtype), h'.strides, j) && StepOk(h', j);
  }

  lemma AcceptableIsFilled(h: Header, h': Header)
    requires h.Shaped() && Accepts(h, h')
    ensures FillStrides(h, DtypeSize(h.dtype)) == (true, h'.strides)
  {
    var e, innermost := DtypeSize(h.dtype), Axis(h.majorOrder, h.ndims, 0);
    var s := if h.strides[innermost] == 0 then h.strides[innermost := e] else h.strides;
    assert Inferred(h, e, h'.strides, 0);
    forall j: nat | 1 <= j < h.ndims ensures FilledAt(h.majorOrder, h.ndims, h.dims, s, h'.strides, j) {
      InferredIsFilled(h, h', s, j);
    }
    FillFinds(h.majorOrder, h.ndims, h.dims, s, h'.strides, 1);
  }

  /** Validation accepts exactly the acceptable headers, and leaves exactly the inferred strides behind. */
  lemma AcceptedIff(h: Header, h': Header)
    requires h.Shaped()
    ensures Validate(h) == (true, h') <==> Accepts(h, h')
  {
    if Validate(h) == (true, h') {
      AcceptedMeans(h);
    }
    if Accepts(h, h') {
      AcceptableIsFilled(h, h');
    }
  }

  /** Filling strides that already satisfy every neighbour changes nothing, provided zeros are what is expected. */
  lemma {:induction false} FillAgain(order: int, n: nat, dims: seq<i32>, s: seq<i32>, k: nat)
    requires n <= |dims| == |s| && 1 <= k <= n
    requires forall j: nat :: 1 <= j < n ==>
      var inner, a := Axis(order, n, j - 1), Axis(order, n, j);
      if s[a] == 0 then Expected(s[inner], dims[inner]) == 0 else s[a] >= Expected(s[inner], dims[inner])
    ensures Fill(order, n, dims, s, k) == (true, s)
    decreases n - k
  {
    if k < n {
      assert s[Axis(order, n, k) := s[Axis(order, n, k)]] == s;
      FillAgain(order, n, dims, s, k + 1);
    }
  }

  // ---- The strides as functions of the header given ----

  /** The stride of position k as 32-bit arithmetic infers it. */
  function WrappedStride(h: Header, k: nat): i32
    requires h.Shaped() && k < h.ndims <= MAX_DIMS
  {
    var a := Axis(h.majorOrder, h.ndims, k);
    if h.strides[a] != 0 then h.strides[a]
    else if k == 0 then DtypeSize(h.dtype)
    else Expected(WrappedStride(h, k - 1), h.dims[Axis(h.majorOrder, h.ndims, k - 1)])
  }

  /** The stride of position k in exact arithmetic. */
  function ExactStride(h: Header, k: nat): int
    requires h.Shaped() && k < h.ndims <= MAX_DIMS
    decreases k, 0
  {
    var a := Axis(h.majorOrder, h.ndims, k);
    if h.strides[a] != 0 then h.strides[a] else if k == 0 then DtypeSize(h.dtype) else ExactProduct(h, k)
  }

  /** The smallest stride that lets position k step over all of its inner neighbour. */
  function ExactProduct(h: Header, k: nat): int
    requires h.Shaped() && 1 <= k < h.ndims <= MAX_DIMS
    decreases k - 1, 1
  {
    ExactStride(h, k - 1) * Extent(h.dims[Axis(h.majorOrder, h.ndims, k - 1)])
  }

  /** No inferred stride wraps below zero. */
  predicate NoNegativeWrap(h: Header)
    requires h.Shaped() && h.ndims <= MAX_DIMS
  {
    forall k :: 0 <= k < h.ndims ==> WrappedStride(h, k) >= 0
  }

  /** Every product that validation forms fits a 32-bit stride. */
  predicate ExactFits(h: Header)
    requires h.Shaped() && h.ndims <= MAX_DIMS
  {
    forall k :: 1 <= k < h.ndims ==> ExactProduct(h, k) < U32 / 2
  }

  lemma {:induction false} StridesAreWrapped(h: Header, h': Header, k: nat)
    requires h.Shaped() && Accepts(h, h') && k < h.ndims
    ensures h'.strides[Axis(h.majorOrder, h.ndims, k)] == WrappedStride(h, k)
  {
    assert Inferred(h, DtypeSize(h.dtype), h'.strides, k);
    if k > 0 { StridesAreWrapped(h, h', k - 1); }
  }

  lemma NonNegativeStrides(h: Header, h': Header)
    requires h.Shaped() && Accepts(h, h')
    ensures NoNegativeWrap(h) <==> forall i :: 0 <= i < h.ndims ==> h'.strides[i] >= 0
  {
    if NoNegativeWrap(h) {
      forall i | 0 <= i < h.ndims
        ensures h'.strides[i] >= 0
      {
        var k: nat := if h.majorOrder == ROW then h.ndims - 1 - i else i;
        StridesAreWrapped(h, h', k);
        assert Axis(h.majorOrder, h.ndims, k) == i;
      }
    } else {
      var k :| 0 <= k < h.ndims && WrappedStride(h, k) < 0;
      StridesAreWrapped(h, h', k);
    }
  }

  /**
    Validating an already validated header succeeds and changes nothing exactly when no inferred
    stride wrapped below zero; when it succeeds at all, it changes nothing.
   */
  lemma ValidationIsFixedPoint(h: Header)
    requires h.Shaped() && Validate(h).0
    ensures 1 <= h.ndims <= MAX_DIMS
    ensures var h' := Validate(h).1;
      && (Validate(h') == (true, h') <==> NoNegativeWrap(h))
      && (Validate(h').0 ==> Validate(h').1 == h')
  {
    AcceptedMeans(h);
    var h' := Validate(h).1;
    NonNegativeStrides(h, h');
    if NoNegativeWrap(h) {
      SettledStrides(h, h');
    }
  }

  lemma SettledStrides(h: Header, h': Header)
    requires h.Shaped() && Accepts(h, h') && forall i :: 0 <= i < h.ndims ==> h'.strides[i] >= 0
    ensures Validate(h') == (true, h')
  {
    var e := DtypeSize(h.dtype);
    var innermost := Axis(h.majorOrder, h.ndims, 0);
    assert Inferred(h, e, h'.strides, 0);
    assert h'.strides[innermost] != 0;
    forall j: nat | 1 <= j < h.ndims
      ensures var inner, a := Axis(h.majorOrder, h.ndims, j - 1), Axis(h.majorOrder, h.ndims, j);
        if h'.strides[a] == 0 then Expected(h'.strides[inner], h.dims[inner]) == 0
        else h'.strides[a] >= Expected(h'.strides[inner], h.dims[inner])
    {
      assert Inferred(h, e, h'.strides, j) && StepOk(h', j);
    }
    FillAgain(h.majorOrder, h.ndims, h.dims, h'.strides, 1);
  }

  // ---- Addresses ----

  /** Axis k steps over all of its inner neighbour. */
  ghost predicate Covers(h: Header, k: nat)
    requires h.Shaped() && k < h.ndims <= MAX_DIMS
  {
    var a := Axis(h.majorOrder, h.ndims, k);
    && h.strides[a] >= 1
    && (k > 0 ==>
          var inner := Axis(h.majorOrder, h.ndims, k - 1);
          h.strides[a] >= h.strides[inner] * Extent(h.dims[inner]))
  }

  /** A non-overlapping layout in the stated order: every axis steps over its inner neighbour. */
  ghost predicate Roomy(h: Header)
    requires h.Shaped() && 1 <= h.ndims <= MAX_DIMS
  {
    forall k: nat :: k < h.ndims ==> Covers(h, k)
  }

  ghost predicate InRangeIndex(h: Header, idx: seq<int>)
    requires h.Shaped() && h.ndims <= MAX_DIMS
  {
    |idx| == h.ndims && forall i :: 0 <= i < h.ndims ==> 0 <= idx[i] < h.dims[i]
  }

  /** The byte offset of an element: the sum over the axes of index times stride. */
  ghost function Offset(h: Header, idx: seq<int>, axes: nat): int
    requires h.Shaped() && axes <= |idx| <= MAX_DIMS
  {
    if axes == 0 then 0 else Offset(h, idx, axes - 1) + idx[axes - 1] * h.strides[axes - 1]
  }

  /** The same sum over the k innermost axes. */
  ghost function Inner(h: Header, idx: seq<int>, k: nat): int
    requires h.Shaped() && k <= h.ndims == |idx| <= MAX_DIMS
  {
    if k == 0 then 0 else
      var a := Axis(h.majorOrder, h.ndims, k - 1);
      Inner(h, idx, k - 1) + idx[a] * h.strides[a]
  }

  /** Summing from the inside out gives the offset. */
  lemma {:induction false} InnerIsOffset(h: Header, idx: seq<int>, k: nat)
    requires h.Shaped() && k <= h.ndims == |idx| <= MAX_DIMS
    ensures h.majorOrder != ROW ==> Inner(h, idx, k) == Offset(h, idx, k)
    ensures h.majorOrder == ROW ==> Inner(h, idx, k) + Offset(h, idx, h.ndims - k) == Offset(h, idx, h.ndims)
  {
    if k > 0 { InnerIsOffset(h, idx, k - 1); }
  }

  /** As long as the products fit, the strides left behind are the exact ones. */
  lemma {:induction false} StridesAreExact(h: Header, h': Header, k: nat)
    requires h.Shaped() && Accepts(h, h') && k < h.ndims
    requires forall j :: 1 <= j <= k ==> ExactProduct(h, j) < U32 / 2
    ensures h'.strides[Axis(h.majorOrder, h.ndims, k)] == ExactStride(h, k) >= 1
    ensures Covers(h', k)
  {
    assert Inferred(h, DtypeSize(h.dtype), h'.strides, k);
    if k > 0 {
      StridesAreExact(h, h', k - 1);
      var inner := Axis(h.majorOrder, h.ndims, k - 1);
      assert StepOk(h', k) && ExactProduct(h, k) < U32 / 2;
      ProductAtLeast(h'.strides[inner], Extent(h.dims[inner]));
      Int32Exact(h'.strides[inner] * Extent(h.dims[inner]));
    }
  }

  /** An axis that steps over its inner neighbour has a stride no smaller than the exact product. */
  lemma {:induction false} RoomyProductFits(h: Header, h': Header, k: nat)
    requires h.Shaped() && Accepts(h, h') && Roomy(h') && 1 <= k < h.ndims
    ensures forall j :: 1 <= j <= k ==> ExactProduct(h, j) < U32 / 2
  {
    if k > 1 { RoomyProductFits(h, h', k - 1); }
    StridesAreExact(h, h', k - 1);
    assert Covers(h', k);
  }

  /** Of the accepted headers, exactly those whose exact products fit describe a non-overlapping layout. */
  lemma RoomyIffExactFits(h: Header)
    requires h.Shaped() && Validate(h).0
    ensures 1 <= h.ndims == Validate(h).1.ndims <= MAX_DIMS
    ensures Roomy(Validate(h).1) <==> ExactFits(h)
  {
    AcceptedMeans(h);
    var h' := Validate(h).1;
    if ExactFits(h) {
      forall k: nat | k < h.ndims
        ensures Covers(h', k)
      {
        StridesAreExact(h, h', k);
      }
    }
    if Roomy(h') && h.ndims > 1 {
      RoomyProductFits(h, h', h.ndims - 1);
    }
  }

  /** For those, validation is also a fixed point: a consumer accepts unchanged what a producer validated. */
  lemma ExactFitsIsFixedPoint(h: Header)
    requires h.Shaped() && Validate(h).0
    ensures 1 <= h.ndims <= MAX_DIMS
    ensures ExactFits(h) ==> NoNegativeWrap(h) && Validate(Validate(h).1) == (true, Validate(h).1)
  {
    AcceptedMeans(h);
    ValidationIsFixedPoint(h);
    if ExactFits(h) {
      forall k: nat | k < h.ndims
        ensures WrappedStride(h, k) >= 0
      {
        StridesAreWrapped(h, Validate(h).1, k);
        StridesAreExact(h, Validate(h).1, k);
      }
    }
  }

  lemma ProductAtLeast(a: int, b: int)
    requires a >= 1 && b >= 1
    ensures a * b >= a
  {
    assert a * b == a + a * (b - 1);
    assert a * (b - 1) >= 0;
  }

  lemma Int32Exact(x: int)
    requires 0 <= x < U32 / 2
    ensures Int32(x) == x
  {
    Bits.InRange(x, U32);
  }

  /** Stride times dimension of an axis, without wrapping. */
  ghost function Reach(h: Header, a: nat): int
    requires h.Shaped() && a < MAX_DIMS
  {
    var stride: int, dim: int := h.strides[a], h.dims[a];
    stride * dim
  }

  /** The elements below one index of axis k stay below the next: no carry out of the inner axes. */
  lemma {:induction false} InnerFits(h: Header, idx: seq<int>, k: nat)
    requires h.Shaped() && 1 <= k <= h.ndims <= MAX_DIMS && Roomy(h) && InRangeIndex(h, idx)
    ensures var a, first := Axis(h.majorOrder, h.ndims, k - 1), Axis(h.majorOrder, h.ndims, 0);
      0 <= Inner(h, idx, k) <= Reach(h, a) - h.strides[first]
  {
    var a := Axis(h.majorOrder, h.ndims, k - 1);
    assert Covers(h, k - 1);
    assert 0 <= idx[a] < h.dims[a];
    Bounded(h.strides[a], idx[a], h.dims[a]);
    if k == 1 {
      assert Inner(h, idx, 0) == 0;
    } else {
      InnerFits(h, idx, k - 1);
      ExtentIsDim(h, idx, k - 2);
    }
  }

  lemma ExtentIsDim(h: Header, idx: seq<int>, k: nat)
    requires h.Shaped() && k < h.ndims <= MAX_DIMS && InRangeIndex(h, idx)
    ensures var a := Axis(h.majorOrder, h.ndims, k); Extent(h.dims[a]) == h.dims[a]
  {
    var a := Axis(h.majorOrder, h.ndims, k);
    assert 0 <= idx[a] < h.dims[a];
  }

  lemma Bounded(s: int, i: int, d: int)
    requires s >= 1 && 0 <= i < d
    ensures 0 <= i * s && i * s + s <= s * d
  {
    MulStep(s, i, d);
    assert i * s == s * i;
    assert s * i >= 0;
  }

  /** Two index tuples that differ on the k innermost axes are at least one innermost stride apart there. */
  lemma {:induction false} InnerSeparates(h: Header, x: seq<int>, y: seq<int>, k: nat)
    requires h.Shaped() && k <= h.ndims <= MAX_DIMS && 1 <= h.ndims && Roomy(h) && InRangeIndex(h, x)
    requires InRangeIndex(h, y)
    requires exists j: nat :: j < k && x[Axis(h.majorOrder, h.ndims, j)] != y[Axis(h.majorOrder, h.ndims, j)]
    ensures var e := h.strides[Axis(h.majorOrder, h.ndims, 0)];
      Inner(h, x, k) + e <= Inner(h, y, k) || Inner(h, y, k) + e <= Inner(h, x, k)
  {
    var a := Axis(h.majorOrder, h.ndims, k - 1);
    if x[a] == y[a] {
      InnerSeparates(h, x, y, k - 1);
    } else if x[a] < y[a] {
      Outweighs(h, x, y, k);
    } else {
      Outweighs(h, y, x, k);
    }
  }

  /** One more step along axis k outweighs everything the inner axes can add. */
  lemma Outweighs(h: Header, x: seq<int>, y: seq<int>, k: nat)
    requires h.Shaped() && 1 <= k <= h.ndims <= MAX_DIMS && Roomy(h) && InRangeIndex(h, x) && InRangeIndex(h, y)
    requires x[Axis(h.majorOrder, h.ndims, k - 1)] < y[Axis(h.majorOrder, h.ndims, k - 1)]
    ensures Inner(h, x, k) + h.strides[Axis(h.majorOrder, h.ndims, 0)] <= Inner(h, y, k)
  {
    var a := Axis(h.majorOrder, h.ndims, k - 1);
    var s := h.strides[a];
    assert Covers(h, k - 1);
    if k == 1 {
      assert Inner(h, x, 0) == 0 == Inner(h, y, 0);
    } else {
      InnerFits(h, x, k - 1);
      InnerFits(h, y, k - 1);
      ExtentIsDim(h, x, k - 2);
    }
    MulStep(s, x[a], y[a]);
    assert s * x[a] == x[a] * s && s * y[a] == y[a] * s;
  }

  /**
    Addressing is collision-free: in-range index tuples that differ have offsets at least one
    innermost stride apart, and no element reaches past the outermost stride times its dimension.
    In particular offsets are injective, and when the innermost stride is at least the element size
    the byte ranges of distinct elements are disjoint.
   */
  lemma AddressingIsCollisionFree(h: Header, h': Header, x: seq<int>, y: seq<int>)
    requires h.Shaped() && Validate(h) == (true, h') && h.ndims <= MAX_DIMS && ExactFits(h)
    requires h'.ndims <= MAX_DIMS && InRangeIndex(h', x) && InRangeIndex(h', y)
    ensures 1 <= h.ndims == h'.ndims && h'.majorOrder == h.majorOrder
    ensures var first, outer := Axis(h'.majorOrder, h'.ndims, 0), Axis(h'.majorOrder, h'.ndims, h'.ndims - 1);
      var e := h'.strides[first];
      var a, b := Offset(h', x, h'.ndims), Offset(h', y, h'.ndims);
      && e >= 1
      && (x != y ==> a + e <= b || b + e <= a)
      && 0 <= a && a + e <= Reach(h', outer)
  {
    var n := h'.ndims;
    AcceptedMeans(h);
    RoomyIffExactFits(h);
    assert Covers(h', 0);
    InnerFits(h', x, n);
    InnerIsOffset(h', x, n);
    InnerIsOffset(h', y, n);
    if x != y {
      var i :| 0 <= i < n && x[i] != y[i];
      var j := if h'.majorOrder == ROW then n - 1 - i else i;
      assert Axis(h'.majorOrder, n, j) == i;
      InnerSeparates(h', x, y, n);
    }
  }

  /** When a product wraps, an accepted header can put two elements at the same address. */
  lemma WrappedStridesCollide(h: Header)
    requires h == Header(1, ROW, 3, PROGRESS_NONE, 0, [2, 65536, 65536, 0, 0, 0, 0, 0], [0, 0, 0, 0, 0, 0, 0, 0])
    ensures Validate(h).0 && !Roomy(Validate(h).1) && !ExactFits(h)
    ensures InRangeIndex(Validate(h).1, [0, 0, 0]) && InRangeIndex(Validate(h).1, [1, 0, 0])
    ensures Offset(Validate(h).1, [0, 0, 0], 3) == Offset(Validate(h).1, [1, 0, 0], 3)
  {
    var s1 := [0, 0, 1, 0, 0, 0, 0, 0];
    var s2 := [0, 65536, 1, 0, 0, 0, 0, 0];
    assert h.strides[2 := 1] == s1;
    assert Expected(1, 65536) == 65536;
    assert s1[1 := 65536] == s2;
    assert Expected(65536, 65536) == 0;
    assert s2[0 := 0] == s2;
    assert Fill(ROW, 3, h.dims, s2, 3) == (true, s2);
    assert Fill(ROW, 3, h.dims, s2, 2) == (true, s2);
    assert Fill(ROW, 3, h.dims, s1, 1) == (true, s2);
    var h' := Validate(h).1;
    assert h'.strides == s2;
    assert !Covers(h', 2);
    RoomyIffExactFits(h);
    assert Offset(h', [0, 0, 0], 1) == 0 && Offset(h', [1, 0, 0], 1) == 0;
    assert Offset(h', [0, 0, 0], 2) == 0 && Offset(h', [1, 0, 0], 2) == 0;
  }

  /** A wrapped product can also turn negative: such a header is accepted once and refused when validated again. */
  lemma WrappedStridesAreNotFixed(h: Header)
    requires h == Header(1, COLUMN, 3, PROGRESS_NONE, 0, [65536, 32768, 1, 0, 0, 0, 0, 0], [0, 0, 0, 0, 0, 0, 0, 0])
    ensures Validate(h).0 && !Validate(Validate(h).1).0
  {
    var s1 := [1, 0, 0, 0, 0, 0, 0, 0];
    var s2 := [1, 65536, 0, 0, 0, 0, 0, 0];
    var s3 := [1, 65536, -2147483648, 0, 0, 0, 0, 0];
    assert h.strides[0 := 1] == s1;
    assert Expected(1, 65536) == 65536;
    assert s1[1 := 65536] == s2;
    assert Expected(65536, 32768) == -2147483648;
    assert s2[2 := -2147483648] == s3;
    assert Fill(COLUMN, 3, h.dims, s3, 3) == (true, s3);
    assert Fill(COLUMN, 3, h.dims, s2, 2) == (true, s3);
    assert Fill(COLUMN, 3, h.dims, s1, 1) == (true, s3);
    assert Validate(h).1.strides[2] < 0;
  }
}
