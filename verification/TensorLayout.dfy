/**
  What an accepted header's strides mean in bytes: the element types and their widths, contiguous row-major and
  column-major layouts, and rows and columns as the units of progress.
 */
module TensorLayout {
  import opened Bits
  import opened Tensor
  import opened TensorAddressing
  import opened TensorCollisions

  /** The element types of the wire schema. */
  datatype ElementType =
    | Uint8 | Int8 | Uint16 | Int16 | Uint32 | Int32Type | Uint64 | Int64Type
    | Float32 | Float64 | Boolean | Bytes | Bit

  /** Their codes; 0 is unknown, and 12 is not assigned. */
  function Code(t: ElementType): int {
    match t
    case Uint8 => 1
    case Int8 => 2
    case Uint16 => 3
    case Int16 => 4
    case Uint32 => 5
    case Int32Type => 6
    case Uint64 => 7
    case Int64Type => 8
    case Float32 => 9
    case Float64 => 10
    case Boolean => 11
    case Bytes => 13
    case Bit => 14
  }

  /** Bytes per element: an eighth of the bits in the type's name, and one byte where it names none. */
  function Width(t: ElementType): nat {
    match t
    case Uint8 => 8 / 8
    case Int8 => 8 / 8
    case Uint16 => 16 / 8
    case Int16 => 16 / 8
    case Uint32 => 32 / 8
    case Int32Type => 32 / 8
    case Uint64 => 64 / 8
    case Int64Type => 64 / 8
    case Float32 => 32 / 8
    case Float64 => 64 / 8
    case Boolean => 1
    case Bytes => 1
    case Bit => 1
  }

  /** The element size of a type's code is its width. */
  lemma SizeIsWidth(t: ElementType)
    ensures DtypeSize(Code(t)) == Width(t) >= 1
  {
  }

  /** Exactly the types' codes have a size. */
  lemma OnlyTypesHaveSizes(code: int)
    ensures DtypeSize(code) > 0 <==> exists t :: Code(t) == code
  {
    if DtypeSize(code) > 0 { var t := TypeOf(code); }
    if t :| Code(t) == code { SizeIsWidth(t); }
  }

  lemma TypeOf(code: int) returns (t: ElementType)
    requires DtypeSize(code) > 0
    ensures Code(t) == code
  {
    t := if code == Code(Uint8) then Uint8 else if code == Code(Int8) then Int8
         else if code == Code(Uint16) then Uint16 else if code == Code(Int16) then Int16
         else if code == Code(Uint32) then Uint32 else if code == Code(Int32Type) then Int32Type
         else if code == Code(Uint64) then Uint64 else if code == Code(Int64Type) then Int64Type
         else if code == Code(Float32) then Float32 else if code == Code(Float64) then Float64
         else if code == Code(Boolean) then Boolean else if code == Code(Bytes) then Bytes
         else Bit;
  }

  /** An accepted header has an element type, and where the innermost stride was left open it is that type's width. */
  lemma AcceptedHasType(h: Header) returns (t: ElementType)
    requires h.Shaped() && Validate(h).0
    ensures Code(t) == h.dtype && 1 <= h.ndims <= MAX_DIMS
    ensures var first := Axis(h.majorOrder, h.ndims, 0); h.strides[first] == 0 ==>
          Validate(h).1.strides[first] == Width(t)
  {
    AcceptedMeans(h);
    t := TypeOf(h.dtype);
    SizeIsWidth(t);
    assert Inferred(h, DtypeSize(h.dtype), Validate(h).1.strides, 0);
  }

  /** The bytes of different elements do not overlap, and no element passes the end of the outermost axis. */
  lemma ElementBytesDisjoint(h: Header, h': Header, t: ElementType, x: seq<int>, y: seq<int>)
    requires h.Shaped() && Validate(h) == (true, h') && 1 <= h.ndims == h'.ndims <= MAX_DIMS && Code(t) == h.dtype
    requires ExactFits(h) && h.strides[Axis(h.majorOrder, h.ndims, 0)] == 0
    requires InRangeIndex(h', x) && InRangeIndex(h', y) && x != y
    ensures var (a, b) := (Offset(h', x, h'.ndims), Offset(h', y, h'.ndims));
            && (a + Width(t) <= b || b + Width(t) <= a)
            && 0 <= a && a + Width(t) <= Reach(h', Axis(h'.majorOrder, h'.ndims, h'.ndims - 1))
  {
    AcceptedMeans(h);
    SizeIsWidth(t);
    assert Inferred(h, DtypeSize(h.dtype), h'.strides, 0);
    AddressingIsCollisionFree(h, h', x, y);
  }

  // ---- Contiguous layouts ----

  /** The number of an element when the last index runs fastest. */
  function RowMajor(dims: seq<i32>, x: seq<int>, n: nat): int
    requires n <= |dims| && n <= |x|
  {
    if n == 0 then 0 else RowMajor(dims, x, n - 1) * dims[n - 1] + x[n - 1]
  }

  /** The number of an element when the first index runs fastest, over the axes from i on. */
  function ColumnMajor(dims: seq<i32>, x: seq<int>, i: nat): int
    requires i <= |x| <= |dims|
    decreases |x| - i
  {
    if i == |x| then 0 else ColumnMajor(dims, x, i + 1) * dims[i] + x[i]
  }

  lemma HornerStep(a: int, d: int, x: int, number: int, v: int, w: int, rank: int, next: int)
    requires number == a * d + x && w == v * d && next == rank + x * v
    ensures number * v + rank == a * w + next
  {
    assert (a * d + x) * v == a * (v * d) + x * v;
  }

  lemma {:induction false} RankIsRowMajor(h: Header, x: seq<int>, k: nat)
    requires h.Shaped() && k <= h.ndims == |x| <= MAX_DIMS && h.majorOrder == ROW
    requires forall i :: 0 <= i < h.ndims ==> h.dims[i] >= 1
    ensures RowMajor(h.dims, x, h.ndims) == RowMajor(h.dims, x, h.ndims - k) * Volume(h, k) + Rank(h, x, k)
  {
    if k > 0 {
      var a := h.ndims - k;
      RankIsRowMajor(h, x, k - 1);
      assert Axis(ROW, h.ndims, k - 1) == a;
      HornerStep(RowMajor(h.dims, x, a), h.dims[a], x[a], RowMajor(h.dims, x, a + 1), Volume(h, k - 1), Volume(h, k),
                 Rank(h, x, k - 1), Rank(h, x, k));
    }
  }

  lemma {:induction false} RankIsColumnMajor(h: Header, x: seq<int>, k: nat)
    requires h.Shaped() && k <= h.ndims == |x| <= MAX_DIMS && h.majorOrder == COLUMN
    requires forall i :: 0 <= i < h.ndims ==> h.dims[i] >= 1
    ensures ColumnMajor(h.dims, x, 0) == ColumnMajor(h.dims, x, k) * Volume(h, k) + Rank(h, x, k)
  {
    if k > 0 {
      RankIsColumnMajor(h, x, k - 1);
      assert Axis(COLUMN, h.ndims, k - 1) == k - 1;
      HornerStep(ColumnMajor(h.dims, x, k), h.dims[k - 1], x[k - 1], ColumnMajor(h.dims, x, k - 1), Volume(h, k - 1),
                 Volume(h, k), Rank(h, x, k - 1), Rank(h, x, k));
    }
  }

  /** The number of an element in its header's order. */
  function ElementNumber(h: Header, x: seq<int>): int
    requires h.Shaped() && |x| == h.ndims <= MAX_DIMS
  {
    if h.majorOrder == ROW then RowMajor(h.dims, x, h.ndims) else ColumnMajor(h.dims, x, 0)
  }

  /**
    An accepted header without strides of its own describes the contiguous layout of its order, if its products fit.
   */
  lemma InferredLayoutIsContiguous(h: Header, h': Header, t: ElementType, x: seq<int>)
    requires h.Shaped() && Validate(h) == (true, h') && 1 <= h.ndims == h'.ndims <= MAX_DIMS && Code(t) == h.dtype
    requires ExactFits(h) && forall i :: 0 <= i < h.ndims ==> h.strides[i] == 0
    requires InRangeIndex(h', x)
    ensures Offset(h', x, h'.ndims) == Width(t) * ElementNumber(h, x)
  {
    var n, e := h.ndims, Width(t);
    AcceptedMeans(h);
    SizeIsWidth(t);
    NoStrideGiven(h);
    forall j: nat | j < n ensures h'.strides[Axis(h.majorOrder, n, j)] == e * Volume(h', j) {
      StridesAreExact(h, h', j);
      ExactIsVolume(h, j);
      SameVolume(h, h', j);
    }
    forall i | 0 <= i < n ensures h.dims[i] >= 1 { assert 0 <= x[i] < h'.dims[i] as int; }
    RankIsInner(h', e, x, n);
    InnerIsOffset(h', x, n);
    RanksAreNumbers(h', x);
  }

  lemma RanksAreNumbers(h: Header, x: seq<int>)
    requires h.Shaped() && |x| == h.ndims <= MAX_DIMS && h.majorOrder in {ROW, COLUMN}
    requires forall i :: 0 <= i < h.ndims ==> h.dims[i] >= 1
    ensures Rank(h, x, h.ndims) == ElementNumber(h, x)
  {
    if h.majorOrder == ROW { RankIsRowMajor(h, x, h.ndims); } else { RankIsColumnMajor(h, x, h.ndims); }
  }

  // ---- Rows and columns as units of progress ----

  lemma {:induction false} OffsetStep(h: Header, x: seq<int>, a: nat, n: nat)
    requires h.Shaped() && a < n <= |x| <= MAX_DIMS
    ensures Offset(h, x[a := x[a] + 1], n) == Offset(h, x, n) + h.strides[a]
  {
    if a < n - 1 {
      OffsetStep(h, x, a, n - 1);
    } else {
      OffsetSame(h, x, x[a := x[a] + 1], a);
      assert (x[a] + 1) * h.strides[a] == x[a] * h.strides[a] + h.strides[a];
    }
  }

  lemma {:induction false} OffsetSame(h: Header, x: seq<int>, y: seq<int>, n: nat)
    requires h.Shaped() && n <= |x| == |y| <= MAX_DIMS && forall i :: 0 <= i < n ==> x[i] == y[i]
    ensures Offset(h, x, n) == Offset(h, y, n)
  {
    if n > 0 { OffsetSame(h, x, y, n - 1); }
  }

  /** One step along axis a moves the address by s bytes, in 32 bits. */
  ghost predicate MovesBy(h: Header, x: seq<int>, a: nat, s: nat)
    requires h.Shaped() && a < h.ndims == |x| <= MAX_DIMS
  {
    (Offset(h, x[a := x[a] + 1], h.ndims) - Offset(h, x, h.ndims)) % U32 == s
  }

  /** Neighbours along axis a lie s bytes apart. */
  ghost predicate ApartBy(h: Header, a: nat, s: nat)
    requires h.Shaped() && a < h.ndims <= MAX_DIMS
  {
    forall x: seq<int> :: |x| == h.ndims ==> MovesBy(h, x, a, s)
  }

  lemma ApartByStride(h: Header, a: nat, s: nat)
    requires h.Shaped() && a < h.ndims <= MAX_DIMS
    ensures ApartBy(h, a, s) <==> h.strides[a] % U32 == s
  {
    forall x: seq<int> | |x| == h.ndims ensures MovesBy(h, x, a, s) <==> h.strides[a] % U32 == s {
      OffsetStep(h, x, a, h.ndims);
    }
    var origin: seq<int> := seq(h.ndims, _ => 0);
    assert |origin| == h.ndims && (ApartBy(h, a, s) ==> MovesBy(h, origin, a, s));
  }

  /**
    A declared progress stride is accepted exactly when it is the true distance between adjacent rows, or columns, and
    not zero; without a unit nothing is asked.
   */
  lemma ProgressStrideIsTrue(h: Header)
    requires h.Shaped() && h.ndims <= MAX_DIMS
    ensures ProgressOk(h) <==>
            || h.progressUnit == PROGRESS_NONE
            || (h.progressUnit == PROGRESS_ROWS && h.ndims >= 1 && h.progressStride > 0
                && ApartBy(h, 0, h.progressStride))
            || (h.progressUnit == PROGRESS_COLUMNS && h.ndims >= 2 && h.progressStride > 0
                && ApartBy(h, 1, h.progressStride))
  {
    if h.ndims >= 1 { ApartByStride(h, 0, h.progressStride); }
    if h.ndims >= 2 { ApartByStride(h, 1, h.progressStride); }
  }
}
