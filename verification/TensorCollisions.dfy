/**
  When the inferred strides address a tensor soundly: no two elements at one address, and none outside the extent of the
  outermost axis. Elements are counted in mixed radix, from the innermost axis outward.
 */
module TensorCollisions {
  import opened Bits
  import opened Tensor
  import opened TensorAddressing

  /**
    At most the innermost stride is given, and it divides 2^32, as every element size does; the others are inferred.
   */
  predicate OuterInferred(h: Header)
    requires h.Shaped()
  {
    && 1 <= h.ndims <= MAX_DIMS && ExactStride(h, 0) >= 1 && U32 % ExactStride(h, 0) == 0
    && forall k :: 1 <= k < h.ndims ==> h.strides[Axis(h.majorOrder, h.ndims, k)] == 0
  }

  /** How many elements one index of position k holds, empty axes counted as one. */
  function Volume(h: Header, k: nat): (v: int)
    requires h.Shaped() && k <= h.ndims <= MAX_DIMS
    ensures v >= 1
  {
    if k == 0 then 1 else
      var inner, extent := Volume(h, k - 1), Extent(h.dims[Axis(h.majorOrder, h.ndims, k - 1)]);
      ProductAtLeast(inner, extent);
      inner * extent
  }

  /**
    Different elements have different addresses, and each lies between the first one and the end of the outermost axis.
   */
  ghost predicate Sound(h: Header)
    requires h.Shaped() && 1 <= h.ndims <= MAX_DIMS
  {
    && (forall x, y :: InRangeIndex(h, x) && InRangeIndex(h, y) && x != y ==>
        Offset(h, x, h.ndims) != Offset(h, y, h.ndims))
    && (forall x :: InRangeIndex(h, x) ==> InBounds(h, Offset(h, x, h.ndims)))
  }

  ghost predicate InBounds(h: Header, offset: int)
    requires h.Shaped() && 1 <= h.ndims <= MAX_DIMS
  {
    var first, outer := Axis(h.majorOrder, h.ndims, 0), Axis(h.majorOrder, h.ndims, h.ndims - 1);
    0 <= offset && offset + h.strides[first] <= Reach(h, outer)
  }

  predicate HasNoElement(h: Header)
    requires h.Shaped() && h.ndims <= MAX_DIMS
  {
    exists i :: 0 <= i < h.ndims && h.dims[i] == 0
  }

  // ---- Mixed radix ----

  lemma {:induction false} ExactIsVolume(h: Header, k: nat)
    requires h.Shaped() && OuterInferred(h) && k < h.ndims
    ensures ExactStride(h, k) == ExactStride(h, 0) * Volume(h, k)
    ensures k > 0 ==> ExactProduct(h, k) == ExactStride(h, 0) * Volume(h, k)
  {
    if k > 0 {
      ExactIsVolume(h, k - 1);
      Regroup(ExactStride(h, 0), Volume(h, k - 1), Extent(h.dims[Axis(h.majorOrder, h.ndims, k - 1)]));
    }
  }

  lemma Regroup(a: int, b: int, c: int)
    ensures (a * b) * c == a * (b * c)
  {
  }

  /** The k innermost strides are the exact ones, in units of e. */
  ghost predicate Dense(h: Header, e: int, k: nat)
    requires h.Shaped()
  {
    && k <= h.ndims <= MAX_DIMS
    && (forall i :: 0 <= i < h.ndims ==> h.dims[i] >= 1)
    && (forall j: nat :: j < k ==> h.strides[Axis(h.majorOrder, h.ndims, j)] == e * Volume(h, j))
  }

  /** The number of an element among those of the k innermost axes. */
  ghost function Rank(h: Header, x: seq<int>, k: nat): int
    requires h.Shaped() && k <= h.ndims == |x| <= MAX_DIMS
  {
    if k == 0 then 0 else Rank(h, x, k - 1) + x[Axis(h.majorOrder, h.ndims, k - 1)] * Volume(h, k - 1)
  }

  lemma {:induction false} RankIsInner(h: Header, e: int, x: seq<int>, k: nat)
    requires h.Shaped() && Dense(h, e, k) && |x| == h.ndims
    ensures Inner(h, x, k) == e * Rank(h, x, k)
  {
    if k > 0 {
      var a := Axis(h.majorOrder, h.ndims, k - 1);
      RankIsInner(h, e, x, k - 1);
      OneMoreDigit(e, Rank(h, x, k - 1), x[a], Volume(h, k - 1), h.strides[a]);
    }
  }

  lemma OneMoreDigit(e: int, rank: int, digit: int, v: int, stride: int)
    requires stride == e * v
    ensures e * rank + digit * stride == e * (rank + digit * v)
  {
    assert digit * (e * v) == e * (digit * v);
  }

  /** Only the positions counted matter. */
  lemma {:induction false} RankSame(h: Header, x: seq<int>, y: seq<int>, k: nat)
    requires h.Shaped() && k <= h.ndims == |x| == |y| <= MAX_DIMS
    requires forall j: nat :: j < k ==> x[Axis(h.majorOrder, h.ndims, j)] == y[Axis(h.majorOrder, h.ndims, j)]
    ensures Rank(h, x, k) == Rank(h, y, k)
  {
    if k > 0 { RankSame(h, x, y, k - 1); }
  }

  lemma {:induction false} InnerTail(h: Header, x: seq<int>, k: nat, n: nat)
    requires h.Shaped() && k <= n <= h.ndims == |x| <= MAX_DIMS
    requires forall j: nat :: k <= j < n ==> x[Axis(h.majorOrder, h.ndims, j)] == 0
    ensures Inner(h, x, n) == Inner(h, x, k)
  {
    if k < n { InnerTail(h, x, k, n - 1); }
  }

  /** Every number below the volume of the k innermost axes is that of an element there. */
  lemma {:induction false} Digits(h: Header, k: nat, w: nat) returns (x: seq<int>)
    requires h.Shaped() && k <= h.ndims <= MAX_DIMS && w < Volume(h, k)
    requires forall i :: 0 <= i < h.ndims ==> h.dims[i] >= 1
    ensures InRangeIndex(h, x) && Rank(h, x, k) == w
    ensures forall j: nat :: k <= j < h.ndims ==> x[Axis(h.majorOrder, h.ndims, j)] == 0
  {
    if k == 0 {
      x := seq(h.ndims, _ => 0);
    } else {
      var a, v := Axis(h.majorOrder, h.ndims, k - 1), Volume(h, k - 1);
      DigitInRange(w, v, h.dims[a]);
      var y := Digits(h, k - 1, w % v);
      x := y[a := w / v];
      RankSame(h, x, y, k - 1);
      assert Rank(h, x, k) == w % v + (w / v) * v;
    }
  }

  /** Every multiple of e below that volume is the offset of an element whose outer indices are zero. */
  lemma Element(h: Header, e: int, k: nat, w: nat) returns (x: seq<int>)
    requires h.Shaped() && Dense(h, e, k) && w < Volume(h, k)
    ensures InRangeIndex(h, x) && Offset(h, x, h.ndims) == e * w
    ensures forall j: nat :: k <= j < h.ndims ==> x[Axis(h.majorOrder, h.ndims, j)] == 0
  {
    x := Digits(h, k, w);
    RankIsInner(h, e, x, k);
    InnerTail(h, x, k, h.ndims);
    InnerIsOffset(h, x, h.ndims);
  }

  lemma DigitInRange(w: nat, v: int, d: int)
    requires v >= 1 && w < v * d
    ensures 0 <= w / v < d && 0 <= w % v < v && w == (w / v) * v + w % v
  {
    assert w == v * (w / v) + w % v;
    if d < w / v { MulStep(v, d, w / v); }
  }

  /** The index tuple with a one at position m alone. */
  function Unit(h: Header, m: nat): (x: seq<int>)
    requires h.Shaped() && m < h.ndims <= MAX_DIMS
    ensures |x| == h.ndims
  {
    seq(h.ndims, i => if i == Axis(h.majorOrder, h.ndims, m) then 1 else 0)
  }

  lemma {:induction false} UnitOffset(h: Header, m: nat, k: nat)
    requires h.Shaped() && m < h.ndims <= MAX_DIMS && k <= h.ndims
    ensures Inner(h, Unit(h, m), k) == if m < k then h.strides[Axis(h.majorOrder, h.ndims, m)] else 0
  {
    if k > 0 { UnitOffset(h, m, k - 1); }
  }

  // ---- The first product that does not fit ----

  lemma FirstTooLarge(h: Header) returns (k: nat)
    requires h.Shaped() && h.ndims <= MAX_DIMS && !ExactFits(h)
    ensures 1 <= k < h.ndims && ExactProduct(h, k) >= U32 / 2
    ensures forall j :: 1 <= j < k ==> ExactProduct(h, j) < U32 / 2
  {
    k := 1;
    while ExactProduct(h, k) < U32 / 2
      invariant 1 <= k < h.ndims && forall j :: 1 <= j < k ==> ExactProduct(h, j) < U32 / 2
      decreases h.ndims - k
    {
      k := k + 1;
    }
  }

  /** A wrapped multiple of a divisor of 2^32 is a multiple of it, and less than what it wrapped from. */
  lemma WrappedMultiple(e: int, v: int) returns (t: int)
    requires e >= 1 && U32 % e == 0 && e * v >= U32 / 2
    ensures Int32(e * v) == e * t && t < v
  {
    var q := U32 / e;
    assert U32 == e * q;
    var c := (e * v) / U32 + if (e * v) % U32 < U32 / 2 then 0 else 1;
    t := v - q * c;
    assert e * (q * c) == U32 * c;
    assert e * t == e * v - e * (q * c);
    if t >= v { ProductOrder(e, v, t); }
  }

  lemma ProductOrder(e: int, v: int, t: int)
    requires e >= 1 && v <= t
    ensures e * v <= e * t
  {
    assert e * t == e * v + e * (t - v);
    assert e * (t - v) >= 0;
  }

  /** Beyond it, axes of extent one pass the wrapped stride on. */
  lemma {:induction false} PassedOn(h: Header, h': Header, k: nat, m: nat)
    requires h.Shaped() && Accepts(h, h') && OuterInferred(h) && 1 <= k <= m < h.ndims
    requires forall j: nat :: k <= j < m ==> h.dims[Axis(h.majorOrder, h.ndims, j)] <= 1
    ensures h'.strides[Axis(h.majorOrder, h.ndims, m)] == h'.strides[Axis(h.majorOrder, h.ndims, k)]
  {
    if k < m {
      PassedOn(h, h', k, m - 1);
      assert Inferred(h, DtypeSize(h.dtype), h'.strides, m);
      Int32Of(h'.strides[Axis(h.majorOrder, h.ndims, m - 1)]);
    }
  }

  /** What there is to say about an accepted header at its first product that does not fit. */
  lemma WrapsAt(h: Header, h': Header, k: nat) returns (t: int)
    requires h.Shaped() && Accepts(h, h') && OuterInferred(h) && !HasNoElement(h) && 1 <= k < h.ndims
    requires ExactProduct(h, k) >= U32 / 2 && forall j :: 1 <= j < k ==> ExactProduct(h, j) < U32 / 2
    ensures var e := ExactStride(h, 0);
            && Dense(h', e, k) && h'.strides[Axis(h.majorOrder, h.ndims, 0)] == e
            && h'.strides[Axis(h.majorOrder, h.ndims, k)] == e * t && t < Volume(h', k) && e * Volume(h', k) >= U32 / 2
  {
    var e := ExactStride(h, 0);
    forall j: nat | j < k ensures h'.strides[Axis(h.majorOrder, h.ndims, j)] == e * Volume(h', j) {
      StridesAreExact(h, h', j);
      ExactIsVolume(h, j);
      SameVolume(h, h', j);
    }
    StridesAreExact(h, h', 0);
    WrappedStrideAt(h, h', k);
    SameVolume(h, h', k);
    ExactIsVolume(h, k);
    t := WrappedMultiple(e, Volume(h, k));
  }

  lemma WrappedStrideAt(h: Header, h': Header, k: nat)
    requires h.Shaped() && Accepts(h, h') && OuterInferred(h) && 1 <= k < h.ndims
    requires forall j :: 1 <= j < k ==> ExactProduct(h, j) < U32 / 2
    ensures h'.strides[Axis(h.majorOrder, h.ndims, k)] == Int32(ExactProduct(h, k))
  {
    StridesAreExact(h, h', k - 1);
    assert Inferred(h, DtypeSize(h.dtype), h'.strides, k);
  }

  lemma {:induction false} SameVolume(h: Header, h': Header, k: nat)
    requires h.Shaped() && h'.Shaped() && h' == h.(strides := h'.strides) && k <= h.ndims <= MAX_DIMS
    ensures Volume(h', k) == Volume(h, k)
  {
    if k > 0 { SameVolume(h, h', k - 1); }
  }

  /** An axis of extent two or more beyond it collides with an inner element, or reaches below the first one. */
  lemma OuterAxisIsUnsound(h: Header, e: int, k: nat, m: nat, t: int)
    requires h.Shaped() && Dense(h, e, k) && e >= 1 && k <= m < h.ndims && t < Volume(h, k)
    requires h.dims[Axis(h.majorOrder, h.ndims, m)] >= 2 && h.strides[Axis(h.majorOrder, h.ndims, m)] == e * t
    ensures !Sound(h)
  {
    var u := Unit(h, m);
    UnitOffset(h, m, h.ndims);
    InnerIsOffset(h, u, h.ndims);
    assert InRangeIndex(h, u) && Offset(h, u, h.ndims) == e * t;
    if t < 0 {
      ProductOrder(e, t, -1);
      assert !InBounds(h, Offset(h, u, h.ndims));
    } else {
      var x := Element(h, e, k, t);
      assert x[Axis(h.majorOrder, h.ndims, m)] == 0 != u[Axis(h.majorOrder, h.ndims, m)];
    }
  }

  /** With nothing but axes of extent one beyond it, the last inner element ends beyond the outermost axis. */
  lemma FlatOuterIsUnsound(h: Header, e: int, k: nat)
    requires h.Shaped() && Dense(h, e, k) && 1 <= k < h.ndims && e * Volume(h, k) >= U32 / 2
    requires h.strides[Axis(h.majorOrder, h.ndims, 0)] == e && h.dims[Axis(h.majorOrder, h.ndims, h.ndims - 1)] == 1
    ensures !Sound(h)
  {
    var last := Volume(h, k) - 1;
    var x := Element(h, e, k, last);
    OneMoreDigit(e, last, 1, 1, e);
    EndsBeyond(h, Offset(h, x, h.ndims), e);
  }

  lemma EndsBeyond(h: Header, offset: int, e: int)
    requires h.Shaped() && 1 <= h.ndims <= MAX_DIMS && h.strides[Axis(h.majorOrder, h.ndims, 0)] == e
    requires offset + e >= U32 / 2 && h.dims[Axis(h.majorOrder, h.ndims, h.ndims - 1)] == 1
    ensures !InBounds(h, offset)
  {
  }

  /** The first position from k on with an extent above one, or the outermost one. */
  lemma {:induction false} FirstWide(h: Header, k: nat) returns (m: nat)
    requires h.Shaped() && k < h.ndims <= MAX_DIMS
    ensures k <= m < h.ndims && (h.dims[Axis(h.majorOrder, h.ndims, m)] <= 1 ==> m == h.ndims - 1)
    ensures forall j: nat :: k <= j < m ==> h.dims[Axis(h.majorOrder, h.ndims, j)] <= 1
    decreases h.ndims - k
  {
    if k == h.ndims - 1 || h.dims[Axis(h.majorOrder, h.ndims, k)] > 1 { m := k; } else { m := FirstWide(h, k + 1); }
  }

  lemma TooLargeIsUnsound(h: Header, h': Header)
    requires h.Shaped() && Accepts(h, h') && OuterInferred(h) && !HasNoElement(h) && !ExactFits(h)
    ensures !Sound(h')
  {
    var k := FirstTooLarge(h);
    var t := WrapsAt(h, h', k);
    var m := FirstWide(h, k);
    PassedOn(h, h', k, m);
    if h.dims[Axis(h.majorOrder, h.ndims, m)] >= 2 {
      OuterAxisIsUnsound(h', ExactStride(h, 0), k, m, t);
    } else {
      FlatOuterIsUnsound(h', ExactStride(h, 0), k);
    }
  }

  /**
    An accepted header whose outer strides are inferred addresses its elements soundly exactly when it has none, or when
    all the products formed from the header given fit 32 bits.
   */
  lemma SoundIffExactFits(h: Header, h': Header)
    requires h.Shaped() && Validate(h) == (true, h') && OuterInferred(h)
    ensures 1 <= h'.ndims == h.ndims
    ensures Sound(h') <==> HasNoElement(h) || ExactFits(h)
  {
    AcceptedMeans(h);
    if HasNoElement(h) {
      var i :| 0 <= i < h.ndims && h.dims[i] == 0;
      forall x: seq<int> ensures !InRangeIndex(h', x) { NoIndex(h', x, i); }
    } else if ExactFits(h) {
      FittingIsSound(h, h');
    } else {
      TooLargeIsUnsound(h, h');
    }
  }

  lemma NoIndex(h: Header, x: seq<int>, i: nat)
    requires h.Shaped() && i < h.ndims <= MAX_DIMS && h.dims[i] == 0
    ensures !InRangeIndex(h, x)
  {
  }

  lemma FittingIsSound(h: Header, h': Header)
    requires h.Shaped() && Validate(h) == (true, h') && 1 <= h.ndims <= MAX_DIMS && h'.ndims == h.ndims && ExactFits(h)
    ensures Sound(h')
  {
    forall x, y | InRangeIndex(h', x) && InRangeIndex(h', y)
      ensures x != y ==> Offset(h', x, h'.ndims) != Offset(h', y, h'.ndims)
      ensures InBounds(h', Offset(h', x, h'.ndims))
    {
      AddressingIsCollisionFree(h, h', x, y);
    }
  }

  /** Products only grow outward: they all fit exactly when the elements under one outermost index do. */
  lemma ExactFitsIffVolumeFits(h: Header)
    requires h.Shaped() && OuterInferred(h)
    ensures ExactFits(h) <==> h.ndims == 1 || ExactStride(h, 0) * Volume(h, h.ndims - 1) < U32 / 2
  {
    forall k: nat | 1 <= k < h.ndims ensures ExactProduct(h, k) <= ExactStride(h, 0) * Volume(h, h.ndims - 1) {
      ExactIsVolume(h, k);
      VolumeGrows(h, k, h.ndims - 1);
      ProductOrder(ExactStride(h, 0), Volume(h, k), Volume(h, h.ndims - 1));
    }
    if h.ndims > 1 { ExactIsVolume(h, h.ndims - 1); }
  }

  lemma {:induction false} VolumeGrows(h: Header, j: nat, k: nat)
    requires h.Shaped() && j <= k <= h.ndims <= MAX_DIMS
    ensures Volume(h, j) <= Volume(h, k)
  {
    if j < k {
      VolumeGrows(h, j, k - 1);
      ProductAtLeast(Volume(h, k - 1), Extent(h.dims[Axis(h.majorOrder, h.ndims, k - 1)]));
    }
  }

  /**
    With outer strides given the products may overflow harmlessly: the one here leaves room for the two elements there
    are.
   */
  lemma GivenStridesMayLeaveRoom(h: Header)
    requires h == RoomyByChance()
    ensures Validate(h) == (true, h) && !ExactFits(h) && !OuterInferred(h) && Sound(h)
  {
    GivenStridesAccepted(h);
    GivenProductTooLarge(h);
    TwoElementsAreSound(h);
  }

  function RoomyByChance(): (h: Header)
    ensures h.Shaped()
  {
    Header(1, ROW, 3, PROGRESS_NONE, 0, [1, 2, 1, 0, 0, 0, 0, 0], [0x4000_0001, 0x4000_0000, 1, 0, 0, 0, 0, 0])
  }

  lemma GivenStridesAccepted(h: Header)
    requires h == RoomyByChance()
    ensures Validate(h) == (true, h)
  {
    assert Expected(1, 1) == 1 && Expected(0x4000_0000, 2) == -0x8000_0000;
    assert Fill(ROW, 3, h.dims, h.strides, 3) == (true, h.strides);
    assert Fill(ROW, 3, h.dims, h.strides, 2) == (true, h.strides);
  }

  lemma GivenProductTooLarge(h: Header)
    requires h == RoomyByChance()
    ensures !ExactFits(h) && !OuterInferred(h)
  {
    assert ExactStride(h, 1) == 0x4000_0000;
    assert ExactProduct(h, 2) == 0x8000_0000;
    assert h.strides[Axis(ROW, 3, 1)] != 0;
  }

  lemma TwoElementsAreSound(h: Header)
    requires h == RoomyByChance()
    ensures Sound(h)
  {
    forall x: seq<int> | InRangeIndex(h, x)
      ensures Offset(h, x, 3) == x[1] * 0x4000_0000 && x[1] in {0, 1} && x == [0, x[1], 0]
    {
      TwoElements(h, x);
    }
    assert Axis(h.majorOrder, h.ndims, 0) == 2 && Reach(h, Axis(h.majorOrder, h.ndims, 2)) == 0x4000_0001;
  }

  lemma TwoElements(h: Header, x: seq<int>)
    requires h == RoomyByChance() && InRangeIndex(h, x)
    ensures Offset(h, x, 3) == x[1] * 0x4000_0000 && x[1] in {0, 1} && x == [0, x[1], 0]
  {
    assert x[0] == 0 == x[2];
    assert Offset(h, x, 0) == 0;
    assert Offset(h, x, 1) == 0;
    assert Offset(h, x, 2) == x[1] * 0x4000_0000;
  }

  /** A header without any stride of its own is of this kind. */
  lemma NoStrideGiven(h: Header)
    requires h.Shaped() && Validate(h).0 && forall i :: 0 <= i < h.ndims ==> h.strides[i] == 0
    ensures OuterInferred(h)
  {
    var e := DtypeSize(h.dtype);
    assert e in {1, 2, 4, 8};
    assert U32 == 8 * 0x2000_0000;
  }
}
