/**
  Tensor header validation: stride inference in place, in 32-bit arithmetic, followed by the progress check.
 */
module Tensor {
  import opened Bits

  const MAX_DIMS := 8

  const ROW := 1
  const COLUMN := 2

  const PROGRESS_NONE := 0
  const PROGRESS_ROWS := 1
  const PROGRESS_COLUMNS := 2

  /** The element size of an element type code; zero for codes without one. */
  function DtypeSize(dtype: int): (e: i32)
    ensures 0 <= e <= 8
  {
    if dtype in {1, 2, 11, 13, 14} then 1
    else if dtype in {3, 4} then 2
    else if dtype in {5, 6, 9} then 4
    else if dtype in {7, 8, 10} then 8
    else 0
  }

  datatype Header = Header(
    dtype: int,
    majorOrder: int,
    ndims: nat,
    progressUnit: int,
    progressStride: nat,
    dims: seq<i32>,
    strides: seq<i32>)
  {
    predicate Shaped() { |dims| == MAX_DIMS && |strides| == MAX_DIMS }
  }

  /** The axis at distance k from the innermost one. */
  function Axis(order: int, n: nat, k: nat): (a: nat)
    requires k < n
    ensures a < n
  {
    if order == ROW then n - 1 - k else k
  }

  /** The smallest stride that keeps the next axis out clear of this one; 32-bit, so it may wrap. */
  function Expected(stride: i32, dim: i32): i32 {
    Int32(stride * (if dim > 0 then dim else 1))
  }

  /** Fills zero strides outward from distance k and stops at the first one too small for its inner neighbour. */
  function Fill(order: int, n: nat, dims: seq<i32>, strides: seq<i32>, k: nat): (r: (bool, seq<i32>))
    requires n <= |dims| == |strides|
    requires 1 <= k <= n
    ensures |r.1| == |strides|
    decreases n - k
  {
    if k == n then (true, strides)
    else
      var inner, a := Axis(order, n, k - 1), Axis(order, n, k);
      var expected := Expected(strides[inner], dims[inner]);
      if strides[a] == 0 then Fill(order, n, dims, strides[a := expected], k + 1)
      else if strides[a] < expected then (false, strides)
      else Fill(order, n, dims, strides, k + 1)
  }

  /** Stride inference: the innermost zero becomes the element size, then outward. */
  function FillStrides(h: Header, elemSize: i32): (r: (bool, seq<i32>))
    requires h.Shaped() && h.ndims <= MAX_DIMS
    ensures |r.1| == MAX_DIMS
  {
    if (h.majorOrder != ROW && h.majorOrder != COLUMN) || h.ndims == 0 then (false, h.strides)
    else
      var innermost := Axis(h.majorOrder, h.ndims, 0);
      var s := if h.strides[innermost] == 0 then h.strides[innermost := elemSize] else h.strides;
      Fill(h.majorOrder, h.ndims, h.dims, s, 1)
  }

  predicate ProgressOk(h: Header)
    requires h.Shaped()
  {
    || h.progressUnit == PROGRESS_NONE
    || (h.progressStride != 0 &&
        if h.progressUnit == PROGRESS_ROWS then h.ndims != 0 && h.strides[0] % U32 == h.progressStride
        else h.progressUnit == PROGRESS_COLUMNS && h.ndims >= 2 && h.strides[1] % U32 == h.progressStride)
  }

  /** Validation: whether the header is accepted, and the header it leaves behind. */
  function Validate(h: Header): (r: (bool, Header))
    requires h.Shaped()
    ensures r.1.Shaped()
  {
    if h.ndims == 0 || h.ndims > MAX_DIMS || DtypeSize(h.dtype) == 0 then (false, h)
    else if exists i :: 0 <= i < h.ndims && (h.dims[i] < 0 || h.strides[i] < 0) then (false, h)
    else
      var (ok, s) := FillStrides(h, DtypeSize(h.dtype));
      var filled := h.(strides := s);
      (ok && ProgressOk(filled), filled)
  }

  /** The header structure, with its two fixed arrays updated in place. */
  class TensorHeader {
    var dtype: int
    var majorOrder: int
    var ndims: nat
    var progressUnit: int
    var progressStride: nat
    const dims: array<i32>
    const strides: array<i32>

    ghost predicate Valid()
      reads this, dims, strides
    {
      dims.Length == MAX_DIMS && strides.Length == MAX_DIMS && dims != strides
    }

    ghost function View(): (h: Header)
      reads this, dims, strides
      requires Valid()
      ensures h.Shaped()
    {
      Header(dtype, majorOrder, ndims, progressUnit, progressStride, dims[..], strides[..])
    }

    constructor (h: Header)
      requires h.Shaped()
      ensures Valid() && View() == h && fresh(dims) && fresh(strides)
    {
      dtype, majorOrder, ndims := h.dtype, h.majorOrder, h.ndims;
      progressUnit, progressStride := h.progressUnit, h.progressStride;
      dims := new i32[MAX_DIMS](i requires 0 <= i < MAX_DIMS => h.dims[i]);
      strides := new i32[MAX_DIMS](i requires 0 <= i < MAX_DIMS => h.strides[i]);
      new;
      assert dims[..] == h.dims && strides[..] == h.strides;
    }

    /** Row-major: from the last axis towards the first. */
    method FillRow() returns (ok: bool)
      requires Valid() && 0 < ndims <= MAX_DIMS
      modifies strides
      ensures (ok, strides[..]) == Fill(ROW, ndims, dims[..], old(strides[..]), 1)
    {
      var i: int := ndims as int - 2;
      while i >= 0
        invariant -1 <= i <= ndims - 2
        invariant Fill(ROW, ndims, dims[..], strides[..], ndims - 1 - i) ==
              Fill(ROW, ndims, dims[..], old(strides[..]), 1)
      {
        var dim: int := if dims[i + 1] > 0 then dims[i + 1] else 1;
        var expected := Int32(strides[i + 1] * dim);
        if strides[i] == 0 {
          ghost var before := strides[..];
          strides[i] := expected;
          assert strides[..] == before[i := expected];
        } else if strides[i] < expected {
          return false;
        }
        i := i - 1;
      }
      ok := true;
    }

    /** Column-major: from the first axis towards the last. */
    method FillColumn() returns (ok: bool)
      requires Valid() && 0 < ndims <= MAX_DIMS
      modifies strides
      ensures (ok, strides[..]) == Fill(COLUMN, ndims, dims[..], old(strides[..]), 1)
    {
      var i := 1;
      while i < ndims
        invariant 1 <= i <= ndims
        invariant Fill(COLUMN, ndims, dims[..], strides[..], i) == Fill(COLUMN, ndims, dims[..], old(strides[..]), 1)
      {
        var dim: int := if dims[i - 1] > 0 then dims[i - 1] else 1;
        var expected := Int32(strides[i - 1] * dim);
        if strides[i] == 0 {
          ghost var before := strides[..];
          strides[i] := expected;
          assert strides[..] == before[i := expected];
        } else if strides[i] < expected {
          return false;
        }
        i := i + 1;
      }
      ok := true;
    }

    method FillInPlace(elemSize: i32) returns (ok: bool)
      requires Valid() && ndims <= MAX_DIMS
      modifies strides
      ensures (ok, View().strides) == FillStrides(old(View()), elemSize)
    {
      ghost var was := strides[..];
      if majorOrder == ROW {
        if ndims == 0 { return false; }
        if strides[ndims - 1] == 0 {
          strides[ndims - 1] := elemSize;
          assert strides[..] == was[ndims - 1 := elemSize];
        }
        ok := FillRow();
      } else if majorOrder == COLUMN {
        if ndims == 0 { return false; }
        if strides[0] == 0 {
          strides[0] := elemSize;
          assert strides[..] == was[0 := elemSize];
        }
        ok := FillColumn();
      } else {
        ok := false;
      }
    }

    method ValidateInPlace() returns (ok: bool)
      requires Valid()
      modifies strides
      ensures Valid()
      ensures (ok, View()) == Validate(old(View()))
    {
      if ndims == 0 || ndims > MAX_DIMS { return false; }
      var elemSize := DtypeSize(dtype);
      if elemSize == 0 { return false; }
      for i := 0 to ndims
        invariant forall j :: 0 <= j < i ==> dims[j] >= 0 && strides[j] >= 0
      {
        if dims[i] < 0 || strides[i] < 0 {
          assert View().dims[i] < 0 || View().strides[i] < 0;
          return false;
        }
      }
      ok := FillInPlace(elemSize);
      if !ok { return false; }
      ok := CheckProgress();
    }

    method CheckProgress() returns (ok: bool)
      requires Valid()
      ensures ok == ProgressOk(View())
    {
      if progressUnit == PROGRESS_NONE { return true; }
      if progressStride == 0 { return false; }
      if progressUnit == PROGRESS_ROWS {
        return ndims != 0 && strides[0] % U32 == progressStride;
      }
      if progressUnit == PROGRESS_COLUMNS {
        return ndims >= 2 && strides[1] % U32 == progressStride;
      }
      return false;
    }
  }
}
