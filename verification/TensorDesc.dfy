/** Tensor descriptors of src/core/dx_tensor_api.cpp, in exact 64-bit arithmetic. */
module TensorDescs {
  import opened Index
  import opened TensorLayout

  const MAX_RANK := 16
  const API_VERSION := 1
  const STRUCT_SIZE := 288
  const UINT64_MAX := 0xFFFF_FFFF_FFFF_FFFF
  const INT64_MAX := 0x7FFF_FFFF_FFFF_FFFF

  const F32 := 1
  const F16 := 2
  const BF16 := 3
  const I8 := 4
  const U8 := 5
  const I32 := 6
  const I4_PACKED := 7

  const STRIDED := 0
  const CONTIGUOUS_ROW_MAJOR := 1

  function DtypeBytes(dtype: nat): nat {
    if dtype == F32 || dtype == I32 then 4
    else if dtype == F16 || dtype == BF16 then 2
    else if dtype == I8 || dtype == U8 then 1
    else 0
  }

  /** Bytes stepped per element: packed 4-bit values count as one. */
  function ElementBytes(dtype: nat): nat {
    if dtype == I4_PACKED then 1 else DtypeBytes(dtype)
  }

  /** Sizes and ids of the dtypes: 32-bit, 16-bit and 8-bit ones, packed nibbles, and no others. */
  lemma DtypeSizes(dtype: nat)
    ensures DtypeBytes(dtype) == 4 <==> dtype in {1, 6}
    ensures DtypeBytes(dtype) == 2 <==> dtype in {2, 3}
    ensures DtypeBytes(dtype) == 1 <==> dtype in {4, 5}
    ensures DtypeBytes(dtype) == 0 <==> dtype == 0 || dtype > 6
    ensures ElementBytes(dtype) == if dtype == 7 then 1 else DtypeBytes(dtype)
  {
  }

  /** Bytes of a dense tensor. */
  function Span(shape: seq<nat>, dtype: nat): nat {
    Times(ElementBytes(dtype), Product(shape))
  }

  /** 64-bit multiplication, refused when it would wrap. */
  method MultiplyOverflow(lhs: nat, rhs: nat) returns (overflow: bool, result: nat)
    requires lhs <= UINT64_MAX && rhs <= UINT64_MAX
    ensures overflow <==> Times(lhs, rhs) > UINT64_MAX
    ensures !overflow ==> result == Times(lhs, rhs)
  {
    if lhs != 0 {
      ProductWithinIff(lhs, rhs, UINT64_MAX);
      if rhs > UINT64_MAX / lhs {
        return true, 0;
      }
    } else {
      TimesZero(rhs);
    }
    return false, lhs * rhs;
  }

  /** `static_cast<int64_t>` of a 64-bit unsigned number. */
  function AsInt64(u: nat): int {
    if u <= INT64_MAX then u else u - UINT64_MAX - 1
  }

  class TensorDesc {
    var structSize: nat
    var apiVersion: nat
    var rank: nat
    var dtype: nat
    var layout: nat
    var flags: nat
    const shape: array<nat>
    const strides: array<int>
    var byteOffset: nat

    /** The fields have their C widths. */
    ghost predicate Valid()
      reads this, shape, strides
    {
      && shape.Length == strides.Length == MAX_RANK
      && byteOffset <= UINT64_MAX
      && (forall i :: 0 <= i < MAX_RANK ==> shape[i] <= UINT64_MAX)
      && (forall i :: 0 <= i < MAX_RANK ==> -INT64_MAX - 1 <= strides[i] <= INT64_MAX)
    }

    constructor ()
      ensures Valid() && fresh(shape) && fresh(strides)
      ensures structSize == STRUCT_SIZE && apiVersion == API_VERSION && layout == STRIDED
      ensures rank == dtype == flags == byteOffset == 0
    {
      structSize, apiVersion, layout := STRUCT_SIZE, API_VERSION, STRIDED;
      rank, dtype, flags, byteOffset := 0, 0, 0, 0;
      shape := new nat[MAX_RANK](_ => 0);
      strides := new int[MAX_RANK](_ => 0);
    }

    function Shape(): (s: seq<nat>)
      requires rank <= shape.Length
      reads this, shape
      ensures |s| == rank
    {
      shape[..rank]
    }

    ghost predicate PositiveStrides()
      requires rank <= strides.Length
      reads this, strides
    {
      forall i :: 0 <= i < rank ==> strides[i] > 0
    }

    function Strides(): (s: seq<nat>)
      requires rank <= strides.Length && PositiveStrides()
      reads this, strides
      ensures |s| == rank && forall i :: 0 <= i < rank ==> s[i] == strides[i]
    {
      seq(rank, i requires 0 <= i < rank && rank <= strides.Length && PositiveStrides() reads this, strides =>
        strides[i] as nat)
    }

    method Reset()
      requires Valid()
      modifies this, shape, strides
      ensures Valid()
      ensures structSize == STRUCT_SIZE && apiVersion == API_VERSION && layout == STRIDED
      ensures rank == dtype == flags == byteOffset == 0
    {
      for i := 0 to MAX_RANK
        invariant forall j :: 0 <= j < i ==> shape[j] == 0 && strides[j] == 0
      {
        shape[i] := 0;
        strides[i] := 0;
      }
      rank, dtype, flags, byteOffset := 0, 0, 0, 0;
      structSize, apiVersion, layout := STRUCT_SIZE, API_VERSION, STRIDED;
    }

    /** Describes a contiguous row-major tensor.  It succeeds exactly when rank, dtype and
        shape are sensible and the whole tensor spans at most 2^63 - 1 bytes; the strides
        are then the row-major ones. */
    method InitContiguous(newRank: nat, newShape: seq<nat>, newDtype: nat) returns (code: int)
      requires Valid() && newRank <= |newShape| && forall i :: 0 <= i < |newShape| ==> newShape[i] <= UINT64_MAX
      modifies this, shape, strides
      ensures Valid()
      ensures code == -1 <==> newRank == 0 || newRank > MAX_RANK
      ensures code == -2 <==> code != -1 && ElementBytes(newDtype) == 0
      ensures code == -3 <==> code !in {-1, -2} && !Positive(newShape[..newRank])
      ensures code == 0 <==> code !in {-1, -2, -3} && Span(newShape[..newRank], newDtype) <= INT64_MAX
      ensures code in {0, -1, -2, -3, -4}
      ensures code == 0 ==> rank == newRank && dtype == newDtype && layout == CONTIGUOUS_ROW_MAJOR && byteOffset == 0
      ensures code == 0 ==> structSize == STRUCT_SIZE && apiVersion == API_VERSION && flags == 0
      ensures code == 0 ==> Shape() == newShape[..newRank] && Positive(Shape())
      ensures code == 0 ==> PositiveStrides() && Strides() == RowMajor(Shape(), ElementBytes(dtype))
    {
      if newRank == 0 || newRank > MAX_RANK {
        return -1;
      }
      if DtypeBytes(newDtype) == 0 && newDtype != I4_PACKED {
        return -2;
      }
      Reset();
      rank := newRank;
      dtype := newDtype;
      layout := CONTIGUOUS_ROW_MAJOR;
      for index := 0 to newRank
        invariant Valid() && rank == newRank
        invariant structSize == STRUCT_SIZE && apiVersion == API_VERSION && flags == 0
        invariant dtype == newDtype && layout == CONTIGUOUS_ROW_MAJOR && byteOffset == 0
        invariant shape[..index] == newShape[..index]
        invariant forall i :: 0 <= i < index ==> newShape[i] > 0
      {
        if newShape[index] == 0 {
          return -3;
        }
        shape[index] := newShape[index];
      }
      var ok := FillStrides();
      code := if ok then 0 else -4;
    }

    /** The backward loop over the strides. */
    method FillStrides() returns (ok: bool)
      requires Valid() && 0 < rank <= MAX_RANK && Positive(Shape()) && ElementBytes(dtype) > 0
      modifies strides
      ensures Valid()
      ensures ok <==> Span(Shape(), dtype) <= INT64_MAX
      ensures ok ==> PositiveStrides() && Strides() == RowMajor(Shape(), ElementBytes(dtype))
    {
      hide Times, Product, RowMajor;
      ghost var s, esz := Shape(), ElementBytes(dtype);
      var stride := if dtype == I4_PACKED then 1 else DtypeBytes(dtype);
      var index: nat := rank;
      EmptySpan(s, esz);
      while index > 0
        invariant 0 <= index <= rank && Valid() && Shape() == s
        invariant stride == Times(esz, Product(s[index..])) && 0 < stride <= INT64_MAX
        invariant forall i :: index <= i < rank ==> strides[i] == StrideAt(s, esz, i) > 0
      {
        index := index - 1;
        strides[index] := AsInt64(stride);
        var overflow, next := MultiplyOverflow(stride, shape[index]);
        ProductStep(s, esz, index);
        if overflow || next > INT64_MAX {
          ProductGrows(s, esz, index);
          return false;
        }
        stride := next;
      }
      assert s[0..] == s;
      forall i | 0 <= i < rank
        ensures Strides()[i] == RowMajor(s, esz)[i]
      {
        RowMajorAt(s, esz, i);
      }
      ok := true;
    }

    /** Dimensions below n are non-empty and stepped forward. */
    ghost predicate GoodDims(n: nat)
      requires n <= shape.Length && n <= strides.Length
      reads this, shape, strides
    {
      forall i :: 0 <= i < n ==> shape[i] > 0 && strides[i] > 0
    }

    /** Where the farthest element of a well-formed descriptor ends. */
    ghost function End(): nat
      requires Valid() && rank <= MAX_RANK && GoodDims(rank)
      reads this, shape, strides
    {
      byteOffset + Offset(Corner(Shape()), Strides()) + ElementBytes(dtype)
    }

    /** The bytes a buffer needs.  It succeeds exactly when the dimensions are good, the
        dtype is known and the end of the farthest element fits 64 bits; the result is
        that end. */
    method RequiredBytes() returns (code: int, bytes: nat)
      requires Valid()
      ensures code in {0, -1, -2, -3, -4}
      ensures code == -1 <==> rank == 0 || rank > MAX_RANK
      ensures code == -2 ==> !GoodDims(rank)
      ensures code == -3 && GoodDims(rank) ==> End() > UINT64_MAX
      ensures code == -4 ==> GoodDims(rank) && (ElementBytes(dtype) == 0 || End() > UINT64_MAX)
      ensures code == 0 <==> 0 < rank <= MAX_RANK && GoodDims(rank) && ElementBytes(dtype) > 0 && End() <= UINT64_MAX
      ensures code == 0 ==> bytes == End()
    {
      if rank == 0 || rank > MAX_RANK {
        return -1, 0;
      }
      var maximumOffset;
      code, maximumOffset := FarthestOffset();
      if GoodDims(rank) {
        EndIsReach();
      }
      if code != 0 {
        return code, 0;
      }
      var elementBytes := ElementBytes(dtype);
      if elementBytes == 0 || maximumOffset > UINT64_MAX - elementBytes {
        return -4, 0;
      }
      return 0, maximumOffset + elementBytes;
    }

    /** The loop over the dimensions. */
    method FarthestOffset() returns (code: int, maximumOffset: nat)
      requires Valid() && rank <= MAX_RANK
      ensures code in {0, -2, -3}
      ensures code == -2 ==> !GoodDims(rank)
      ensures code == -3 && GoodDims(rank) ==> byteOffset + Reach(shape[..rank], strides[..rank]) > UINT64_MAX
      ensures code == 0 ==> GoodDims(rank)
      ensures code == 0 ==> maximumOffset == byteOffset + Reach(shape[..rank], strides[..rank]) <= UINT64_MAX
    {
      hide Times, Reach;
      maximumOffset := byteOffset;
      assert Reach(shape[..0], strides[..0]) == 0 by {
        NoReach();
      }
      for index := 0 to rank
        invariant GoodDims(index)
        invariant maximumOffset == byteOffset + Reach(shape[..index], strides[..index]) <= UINT64_MAX
      {
        if shape[index] == 0 || strides[index] <= 0 {
          return -2, 0;
        }
        var overflow, contribution := MultiplyOverflow(shape[index] - 1, strides[index]);
        ReachStep(shape[..index + 1], strides[..index + 1]);
        assert shape[..index + 1][..index] == shape[..index] && strides[..index + 1][..index] == strides[..index];
        if overflow || maximumOffset > UINT64_MAX - contribution {
          if GoodDims(rank) {
            ReachGrows(shape[..rank], strides[..rank], index + 1);
            assert shape[..rank][..index + 1] == shape[..index + 1];
            assert strides[..rank][..index + 1] == strides[..index + 1];
          }
          return -3, 0;
        }
        maximumOffset := maximumOffset + contribution;
      }
      code := 0;
    }

    lemma EndIsReach()
      requires Valid() && rank <= MAX_RANK && GoodDims(rank)
      ensures End() == byteOffset + Reach(shape[..rank], strides[..rank]) + ElementBytes(dtype)
    {
      ReachIsOffset(shape[..rank], strides[..rank], Strides());
    }

    method Validate() returns (code: int)
      requires Valid()
      ensures code == 0 <==>
        && structSize >= STRUCT_SIZE && apiVersion == API_VERSION && 0 < rank <= MAX_RANK
        && ElementBytes(dtype) > 0 && GoodDims(rank) && End() <= UINT64_MAX
      ensures code == -1 <==> structSize < STRUCT_SIZE || apiVersion != API_VERSION || rank == 0 || rank > MAX_RANK
      ensures code == -2 <==> code != -1 && ElementBytes(dtype) == 0
    {
      if structSize < STRUCT_SIZE || apiVersion != API_VERSION || rank == 0 || rank > MAX_RANK {
        return -1;
      }
      if DtypeBytes(dtype) == 0 && dtype != I4_PACKED {
        return -2;
      }
      for index := 0 to rank
        invariant GoodDims(index)
      {
        if shape[index] == 0 || strides[index] <= 0 {
          return -3;
        }
      }
      var ignored;
      code, ignored := RequiredBytes();
    }

    /** 1 exactly for the valid descriptors whose strides are the row-major ones. */
    method IsContiguous() returns (result: int)
      requires Valid()
      ensures result in {0, 1}
      ensures result == 1 <==>
        && structSize >= STRUCT_SIZE && apiVersion == API_VERSION && 0 < rank <= MAX_RANK
        && ElementBytes(dtype) > 0 && GoodDims(rank) && End() <= UINT64_MAX
        && Strides() == RowMajor(Shape(), ElementBytes(dtype))
    {
      var code := Validate();
      if code != 0 {
        return 0;
      }
      var same := HasRowMajorStrides();
      result := if same then 1 else 0;
    }

    /** The backward loop that compares the strides; in a valid descriptor no product overflows
        before a stride differs. */
    method HasRowMajorStrides() returns (same: bool)
      requires Valid() && 0 < rank <= MAX_RANK && ElementBytes(dtype) > 0 && GoodDims(rank) && End() <= UINT64_MAX
      ensures same <==> Strides() == RowMajor(Shape(), ElementBytes(dtype))
    {
      hide Times, RowMajor, Product, Offset, Corner;
      ghost var s, esz := Shape(), ElementBytes(dtype);
      var stride := if dtype == I4_PACKED then 1 else DtypeBytes(dtype);
      EmptySpan(s, esz);
      var index: nat := rank;
      while index > 0
        invariant 0 <= index <= rank
        invariant stride == Times(esz, Product(s[index..])) && 0 < stride <= UINT64_MAX
        invariant forall i :: index <= i < rank ==> strides[i] == StrideAt(s, esz, i)
      {
        index := index - 1;
        if strides[index] != AsInt64(stride) {
          RowMajorAt(s, esz, index);
          return false;
        }
        var overflow, next := MultiplyOverflow(stride, shape[index]);
        ProductStep(s, esz, index);
        if overflow {
          SpanFits();
          ProductGrows(s, esz, index);
          return false;
        }
        stride := next;
      }
      forall i | 0 <= i < rank
        ensures Strides()[i] == RowMajor(s, esz)[i]
      {
        RowMajorAt(s, esz, i);
      }
      same := true;
    }

    /** A valid descriptor with row-major strides spans less than 2^64 bytes. */
    lemma SpanFits()
      requires Valid() && rank <= MAX_RANK && GoodDims(rank) && End() <= UINT64_MAX
      ensures Strides() == RowMajor(Shape(), ElementBytes(dtype)) ==>
        Times(ElementBytes(dtype), Product(Shape())) <= UINT64_MAX
    {
      hide Times, RowMajor, Product, Offset, Corner;
      RowMajorEnd(Shape(), ElementBytes(dtype));
    }
  }

  // ---------------------------------------------------------------- farthest offsets

  /** Sum of (shape - 1) * stride, dimension by dimension. */
  function Reach(shape: seq<nat>, strides: seq<int>): nat
    requires |shape| == |strides| && forall i :: 0 <= i < |shape| ==> shape[i] > 0 && strides[i] > 0
  {
    if shape == [] then 0
    else
      var n := |shape| - 1;
      Reach(shape[..n], strides[..n]) + Times(shape[n] - 1, strides[n])
  }

  lemma NoReach()
    ensures Reach([], []) == 0
  {
  }

  lemma ReachStep(shape: seq<nat>, strides: seq<int>)
    requires |shape| == |strides| > 0 && forall i :: 0 <= i < |shape| ==> shape[i] > 0 && strides[i] > 0
    ensures var n := |shape| - 1;
      Reach(shape, strides) == Reach(shape[..n], strides[..n]) + Times(shape[n] - 1, strides[n])
  {
  }

  lemma {:induction false} ReachGrows(shape: seq<nat>, strides: seq<int>, n: nat)
    requires |shape| == |strides| && forall i :: 0 <= i < |shape| ==> shape[i] > 0 && strides[i] > 0
    requires n <= |shape|
    ensures Reach(shape[..n], strides[..n]) <= Reach(shape, strides)
  {
    if n < |shape| {
      var m := |shape| - 1;
      ReachGrows(shape[..m], strides[..m], n);
      assert shape[..m][..n] == shape[..n] && strides[..m][..n] == strides[..n];
    } else {
      assert shape[..n] == shape && strides[..n] == strides;
    }
  }

  lemma {:induction false} ReachIsOffset(shape: seq<nat>, strides: seq<int>, steps: seq<nat>)
    requires |shape| == |strides| == |steps|
    requires forall i :: 0 <= i < |shape| ==> shape[i] > 0 && strides[i] == steps[i] > 0
    ensures Positive(shape) && Reach(shape, strides) == Offset(Corner(shape), steps)
  {
    hide Times;
    if shape != [] {
      var n := |shape| - 1;
      ReachIsOffset(shape[..n], strides[..n], steps[..n]);
      assert Corner(shape)[..n] == Corner(shape[..n]);
      OffsetLast(Corner(shape), steps);
    }
  }

  lemma {:induction false} OffsetLast(idx: seq<nat>, strides: seq<nat>)
    requires |idx| == |strides| > 0
    ensures var n := |idx| - 1;
      Offset(idx, strides) == Offset(idx[..n], strides[..n]) + Times(idx[n], strides[n])
  {
    hide Times;
    var n := |idx| - 1;
    if n > 0 {
      OffsetLast(idx[1..], strides[1..]);
      assert idx[1..][..n - 1] == idx[..n][1..] && strides[1..][..n - 1] == strides[..n][1..];
    } else {
      assert idx[1..] == [] && idx[..n] == [];
    }
  }

  /** Every addressable element ends within the required bytes, and the corner ends there. */
  lemma RequiredBytesIsTight(d: TensorDesc, idx: seq<nat>)
    requires d.Valid() && d.rank <= MAX_RANK && d.GoodDims(d.rank) && InShape(idx, d.Shape())
    ensures d.byteOffset + Offset(idx, d.Strides()) + ElementBytes(d.dtype) <= d.End()
    ensures InShape(Corner(d.Shape()), d.Shape())
    ensures d.byteOffset + Offset(Corner(d.Shape()), d.Strides()) + ElementBytes(d.dtype) == d.End()
  {
    CornerIsFarthest(idx, d.Shape(), d.Strides());
  }

  /** A dense tensor ends where its span does. */
  lemma DenseEnd(d: TensorDesc)
    requires d.Valid() && d.rank <= MAX_RANK && d.byteOffset == 0 && Positive(d.Shape()) && d.PositiveStrides()
    requires d.Strides() == RowMajor(d.Shape(), ElementBytes(d.dtype))
    ensures d.GoodDims(d.rank) && d.End() == Span(d.Shape(), d.dtype)
  {
    RowMajorEnd(d.Shape(), ElementBytes(d.dtype));
    hide Times, Product, RowMajor, Offset, Corner;
    assert forall i :: 0 <= i < d.rank ==> d.Shape()[i] == d.shape[i];
  }

  /** A freshly initialised contiguous descriptor needs exactly its span and is recognised
      as contiguous. */
  method ContiguousDescribed(rank: nat, shape: seq<nat>, dtype: nat)
    returns (code: int, bytes: nat, contiguous: int)
    requires rank <= |shape| && forall i :: 0 <= i < |shape| ==> shape[i] <= UINT64_MAX
    ensures code == 0 ==> bytes == Span(shape[..rank], dtype) && contiguous == 1
  {
    hide RowMajor, TensorDesc.End, TensorDesc.GoodDims;
    var d := new TensorDesc();
    code := d.InitContiguous(rank, shape, dtype);
    bytes, contiguous := 0, 0;
    if code == 0 {
      DenseEnd(d);
      var c;
      c, bytes := d.RequiredBytes();
      contiguous := d.IsContiguous();
    }
  }

  function StrideAt(s: seq<nat>, esz: nat, i: nat): nat
    requires i < |s|
  {
    Times(esz, Product(s[i + 1..]))
  }

  lemma {:induction false} RowMajorAt(s: seq<nat>, esz: nat, i: nat)
    requires i < |s|
    ensures RowMajor(s, esz)[i] == StrideAt(s, esz, i)
  {
    if i > 0 {
      RowMajorAt(s[1..], esz, i - 1);
      assert s[1..][i..] == s[i + 1..];
    }
  }

  lemma EmptySpan(s: seq<nat>, esz: nat)
    ensures Times(esz, Product(s[|s|..])) == esz
  {
    TimesZero(esz);
  }

  /** One more dimension multiplies the span. */
  lemma ProductStep(s: seq<nat>, esz: nat, i: nat)
    requires i < |s| && Positive(s) && esz > 0
    ensures Times(StrideAt(s, esz, i), s[i]) == Times(esz, Product(s[i..]))
    ensures Times(esz, Product(s[i..])) > 0
  {
    hide Times;
    var p := Product(s[i + 1..]);
    assert s[i..][1..] == s[i + 1..] && s[i..][0] == s[i];
    TimesLaws(esz, s[i], p);
    TimesLaws(s[i], Times(esz, p), 0);
    ProductPositive(s[i..]);
    TimesPositive(esz, Product(s[i..]));
  }

  /** The span of the trailing dimensions is no more than the whole. */
  lemma {:induction false} ProductGrows(s: seq<nat>, esz: nat, i: nat)
    requires i <= |s| && Positive(s) && esz > 0
    ensures Times(esz, Product(s[i..])) <= Times(esz, Product(s))
    decreases i
  {
    hide Times;
    if i == 0 {
      assert s[0..] == s;
    } else {
      ProductGrows(s, esz, i - 1);
      ProductStep(s, esz, i - 1);
      ProductPositive(s[i..]);
      TimesPositive(esz, Product(s[i..]));
      TimesPositive(StrideAt(s, esz, i - 1), s[i - 1]);
    }
  }
}
