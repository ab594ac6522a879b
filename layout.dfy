/**
 * Layout descriptor checks of arrayobject.cpp: the element-stride alignment test,
 * the per-axis stride reach test and the argument validation of the array
 * constructor (array_new).
 *
 * Integers are the source's npy_intp values taken as unbounded; products that
 * would overflow 64 bits are not modelled.
 */
module Layout {
  import opened Wrappers

  /** Product of the dimensions (PyArray_MultiplyList); 1 for no dimensions. */
  function Product(dims: seq<int>): int
  {
    if |dims| == 0 then 1 else dims[0] * Product(dims[1..])
  }

  /** The product of non-negative extents is non-negative. */
  lemma {:induction false} ProductNonNegative(dims: seq<int>)
    requires forall i :: 0 <= i < |dims| ==> dims[i] >= 0
    ensures Product(dims) >= 0
  {
    if |dims| > 0 {
      ProductNonNegative(dims[1..]);
    }
  }

  /** The product splits at any axis: leading extents times trailing extents. */
  lemma {:induction false} ProductSplit(dims: seq<int>, r: nat)
    requires r <= |dims|
    ensures Product(dims) == Product(dims[..r]) * Product(dims[r..])
  {
    if r > 0 {
      ProductSplit(dims[1..], r - 1);
      assert dims[1..][..r - 1] == dims[..r][1..];
      assert dims[1..][r - 1..] == dims[r..];
    } else {
      assert dims[..0] == [] && dims[0..] == dims;
    }
  }

  /** C's `%`: truncates toward zero, so the remainder takes the sign of `a`. */
  function CRem(a: int, b: int): (r: int)
    requires b != 0
  {
    var m := (if a < 0 then -a else a) % (if b < 0 then -b else b);
    if a < 0 then -m else m
  }

  /** C's `/` on integers: truncates toward zero. */
  function CDiv(a: int, b: int): (r: int)
    requires b != 0
  {
    var q := (if a < 0 then -a else a) / (if b < 0 then -b else b);
    if (a < 0) != (b < 0) then -q else q
  }

  /** `m` divides `x` exactly. */
  ghost predicate Divides(m: int, x: int)
  {
    exists q: int :: x == m * q
  }

  /** a*x <= a*y when a >= 0 and x <= y. */
  lemma MulLeftMonotone(a: int, x: int, y: int)
    requires a >= 0 && x <= y
    ensures a * x <= a * y
  {
    var d := y - x;
    assert a * y == a * x + a * d;
    assert a * d >= 0;
  }

  /** A multiple of a positive b leaves Euclidean remainder 0. */
  lemma ModOfMultiple(b: int, q: int)
    requires b > 0
    ensures (b * q) % b == 0
  {
    var r := (b * q) % b;
    var d := (b * q) / b;
    assert b * q == b * d + r && 0 <= r < b;
    assert b * (q - d) == r;
    if q - d >= 1 {
      MulLeftMonotone(b, 1, q - d);
      assert false;
    } else if q - d <= -1 {
      MulLeftMonotone(b, q - d, -1);
      assert false;
    }
  }

  lemma CRemZeroIffDivides(a: int, b: int)
    requires b > 0
    ensures CRem(a, b) == 0 <==> Divides(b, a)
  {
    var aa := if a < 0 then -a else a;
    assert CRem(a, b) == 0 <==> aa % b == 0;
    if aa % b == 0 {
      var q := aa / b;
      assert aa == b * q + aa % b;
      if a < 0 {
        assert a == b * (-q);
      } else {
        assert a == b * q;
      }
    } else if Divides(b, a) {
      var q :| a == b * q;
      var qq := if q < 0 then -q else q;
      assert aa == b * qq;
      ModOfMultiple(b, qq);
      assert false;
    }
  }

  /** The layout of an existing array object as PyArray_ElementStrides sees it. */
  datatype ArrayLayout = ArrayLayout(itemsize: nat, strides: seq<int>)

  /**
   * PyArray_ElementStrides: false for an object that is not an array; otherwise
   * true iff every stride is an exact multiple of the element size.
   */
  method ElementStrides(obj: Option<ArrayLayout>) returns (aligned: bool)
    requires obj.Some? ==> obj.value.itemsize > 0
    ensures aligned <==> obj.Some? && forall i :: 0 <= i < |obj.value.strides| ==> Divides(obj.value.itemsize, obj.value.strides[i])
  {
    if obj.None? {
      return false;
    }
    var itemsize := obj.value.itemsize;
    var strides := obj.value.strides;
    var i := 0;
    while i < |strides|
      invariant 0 <= i <= |strides|
      invariant forall j :: 0 <= j < i ==> Divides(itemsize, strides[j])
    {
      CRemZeroIffDivides(strides[i], itemsize);
      if CRem(strides[i], itemsize) != 0 {
        return false;
      }
      i := i + 1;
    }
    return true;
  }

  /** The byte count PyArray_CheckStrides works against: 0 stands for "the whole array". */
  function EffectiveBytes(elsize: int, numbytes: int, dims: seq<int>): int
  {
    if numbytes == 0 then Product(dims) * elsize else numbytes
  }

  /**
   * Axis `i` passes the reach test: the element at index dims[i]-1 along that axis
   * starts at or after the buffer start and ends at or before the buffer end, the
   * buffer spanning bytes [0, nbytes) and element zero sitting at byte `offset`.
   */
  predicate AxisFits(elsize: int, nbytes: int, offset: int, dim: int, stride: int)
  {
    0 <= offset + stride * (dim - 1) && offset + stride * (dim - 1) + elsize <= nbytes
  }

  predicate StridesFit(elsize: int, nbytes: int, offset: int, dims: seq<int>, strides: seq<int>)
    requires |dims| == |strides|
  {
    forall i :: 0 <= i < |dims| ==> AxisFits(elsize, nbytes, offset, dims[i], strides[i])
  }

  /**
   * PyArray_CheckStrides: true iff, on every axis, the farthest element reached by
   * that axis's stride alone lies inside the buffer; a `numbytes` of 0 is replaced
   * by the size of the whole array.
   */
  method CheckStrides(elsize: int, numbytes: int, offset: int, dims: seq<int>, strides: seq<int>)
    returns (ok: bool)
    requires |dims| == |strides|
    ensures ok <==> StridesFit(elsize, EffectiveBytes(elsize, numbytes, dims), offset, dims, strides)
  {
    var nb := numbytes;
    if nb == 0 {
      nb := Product(dims) * elsize;
    }
    var begin := -offset;
    var end := nb - offset - elsize;
    var i := 0;
    while i < |dims|
      invariant 0 <= i <= |dims|
      invariant forall j :: 0 <= j < i ==> AxisFits(elsize, nb, offset, dims[j], strides[j])
    {
      var byteBegin := strides[i] * (dims[i] - 1);
      if byteBegin < begin || byteBegin > end {
        return false;
      }
      i := i + 1;
    }
    return true;
  }

  /**
   * Why the far-end test suffices along one axis: when element zero itself lies in
   * the buffer, every element between it and the far end does too, whatever the
   * sign of the stride.
   */
  lemma {:induction false} AxisElementsInside(elsize: int, nbytes: int, offset: int, dim: int, stride: int, j: int)
    requires AxisFits(elsize, nbytes, offset, dim, stride)
    requires 0 <= offset && offset + elsize <= nbytes
    requires 0 <= j < dim
    ensures 0 <= offset + stride * j && offset + stride * j + elsize <= nbytes
  {
    if stride >= 0 {
      MulLeftMonotone(stride, j, dim - 1);
      MulLeftMonotone(stride, 0, j);
    } else {
      MulLeftMonotone(-stride, j, dim - 1);
      MulLeftMonotone(-stride, 0, j);
    }
  }

  /** The arguments array_new works with once parsing succeeded; `buffer` is the buffer's length in bytes. */
  datatype NewArgs = NewArgs(dims: seq<int>, itemsize: nat, buffer: Option<nat>, offset: int, strides: Option<seq<int>>)

  datatype NewError =
    | UnspecifiedItemsize    // "data-type with unspecified variable length"
    | StridesLengthMismatch  // "strides, if given, must be the same length as shape"
    | StridesIncompatible    // "strides is incompatible with shape of requested array and size of buffer"
    | BufferTooSmall         // "buffer is too small for requested array"
    | InvalidOffset          // raised only by the corrected constructor, ArrayNewChecked

  /** What array_new goes on to build once the arguments pass validation. */
  datatype NewPlan =
    | Allocate(dims: seq<int>, strides: Option<seq<int>>)
    | WrapBuffer(dims: seq<int>, strides: Option<seq<int>>, offset: int)

  /** A shape of exactly [-1] asks for the length to be inferred from the buffer. */
  predicate InfersLength(dims: seq<int>)
  {
    |dims| == 1 && dims[0] == -1
  }

  /** The byte count and origin the stride check sees: (0, 0) when no buffer is given. */
  function StrideCheckBytes(a: NewArgs): int
  {
    if a.buffer.None? then 0 else a.buffer.value
  }

  function StrideCheckOffset(a: NewArgs): int
  {
    if a.buffer.None? then 0 else a.offset
  }

  /**
   * array_new's validation, as written: element size, strides length, the per-axis
   * stride reach (run on the shape as given, before any [-1] is inferred), the
   * length inference and the "buffer too small" test, in that order.
   */
  function ArrayNew(a: NewArgs): (r: Result<NewPlan, NewError>)
    ensures a.itemsize == 0 ==> r == Failure(UnspecifiedItemsize)
    ensures a.itemsize > 0 && a.strides.Some? && |a.strides.value| != |a.dims| ==> r == Failure(StridesLengthMismatch)
    ensures r.Success? ==> a.itemsize > 0 && (r.value.WrapBuffer? <==> a.buffer.Some?)
    ensures r.Success? && a.strides.Some? ==>
              |a.strides.value| == |a.dims| &&
              StridesFit(a.itemsize, EffectiveBytes(a.itemsize, StrideCheckBytes(a), a.dims), StrideCheckOffset(a), a.dims, a.strides.value)
    ensures a.buffer.Some? && a.strides.None? && !InfersLength(a.dims) ==>
              (r.Success? <==> a.itemsize > 0 && a.offset + a.itemsize * Product(a.dims) <= a.buffer.value)
    ensures r.Success? && a.buffer.Some? && InfersLength(a.dims) && a.offset <= a.buffer.value ==>
              |r.value.dims| == 1 &&
              a.itemsize * r.value.dims[0] <= a.buffer.value - a.offset < a.itemsize * (r.value.dims[0] + 1)
    ensures r.Success? && !(a.buffer.Some? && InfersLength(a.dims)) ==> r.value.dims == a.dims
    ensures r.Success? ==> r.value.strides == a.strides && (r.value.WrapBuffer? ==> r.value.offset == a.offset)
    // a failed reach check and a short unstrided buffer are reported as such
    ensures a.itemsize > 0 && a.strides.Some? && |a.strides.value| == |a.dims| &&
            !StridesFit(a.itemsize, EffectiveBytes(a.itemsize, StrideCheckBytes(a), a.dims), StrideCheckOffset(a), a.dims, a.strides.value)
            ==> r == Failure(StridesIncompatible)
    ensures a.itemsize > 0 && a.buffer.Some? && a.strides.None? && !InfersLength(a.dims) &&
            a.offset + a.itemsize * Product(a.dims) > a.buffer.value
            ==> r == Failure(BufferTooSmall)
    // an input that passes every check is accepted
    ensures (a.itemsize > 0 &&
             (a.strides.Some? ==>
                |a.strides.value| == |a.dims| &&
                StridesFit(a.itemsize, EffectiveBytes(a.itemsize, StrideCheckBytes(a), a.dims), StrideCheckOffset(a), a.dims, a.strides.value)) &&
             (a.buffer.Some? && a.strides.None? && !InfersLength(a.dims) ==>
                a.offset + a.itemsize * Product(a.dims) <= a.buffer.value))
            ==> r.Success?
  {
    if a.itemsize == 0 then Failure(UnspecifiedItemsize)
    else if a.strides.Some? && |a.strides.value| != |a.dims| then Failure(StridesLengthMismatch)
    else if a.strides.Some? &&
            !StridesFit(a.itemsize, EffectiveBytes(a.itemsize, StrideCheckBytes(a), a.dims), StrideCheckOffset(a), a.dims, a.strides.value)
    then Failure(StridesIncompatible)
    else if a.buffer.None? then Success(Allocate(a.dims, a.strides))
    else if InfersLength(a.dims) then
      var n := a.buffer.value - a.offset;
      assert 0 <= n ==> a.itemsize * CDiv(n, a.itemsize) <= n < a.itemsize * (CDiv(n, a.itemsize) + 1) by {
        if 0 <= n {
          CDivFloor(n, a.itemsize);
        }
      }
      Success(WrapBuffer([CDiv(n, a.itemsize)], a.strides, a.offset))
    else if a.strides.None? && a.buffer.value < a.offset + a.itemsize * Product(a.dims) then
      Failure(BufferTooSmall)
    else Success(WrapBuffer(a.dims, a.strides, a.offset))
  }

  /** How far the last index of one axis moves from element zero: never positive. */
  function AxisLow(dim: int, stride: int): int
  {
    if stride * (dim - 1) < 0 then stride * (dim - 1) else 0
  }

  /** How far the last index of one axis moves from element zero: never negative. */
  function AxisHigh(dim: int, stride: int): int
  {
    if stride * (dim - 1) > 0 then stride * (dim - 1) else 0
  }

  /** The lowest byte offset, relative to element zero, that any index tuple reaches. */
  function MinReach(dims: seq<int>, strides: seq<int>): int
    requires |dims| == |strides|
  {
    if |dims| == 0 then 0 else AxisLow(dims[0], strides[0]) + MinReach(dims[1..], strides[1..])
  }

  /** The highest byte offset, relative to element zero, that any index tuple reaches. */
  function MaxReach(dims: seq<int>, strides: seq<int>): int
    requires |dims| == |strides|
  {
    if |dims| == 0 then 0 else AxisHigh(dims[0], strides[0]) + MaxReach(dims[1..], strides[1..])
  }

  /** Index tuple `idx` addresses an element of an array of shape `dims`. */
  predicate InBounds(idx: seq<int>, dims: seq<int>)
  {
    |idx| == |dims| && forall i :: 0 <= i < |idx| ==> 0 <= idx[i] < dims[i]
  }

  /** The byte offset of element `idx` from element zero: the sum of index times stride. */
  function ByteOffset(idx: seq<int>, strides: seq<int>): int
    requires |idx| == |strides|
  {
    if |idx| == 0 then 0 else idx[0] * strides[0] + ByteOffset(idx[1..], strides[1..])
  }

  /** One axis's contribution to an element's offset lies between that axis's low and high reach. */
  lemma TermWithinReach(dim: int, stride: int, k: int)
    requires 0 <= k < dim
    ensures AxisLow(dim, stride) <= k * stride <= AxisHigh(dim, stride)
  {
    if stride >= 0 {
      MulLeftMonotone(stride, k, dim - 1);
      MulLeftMonotone(stride, 0, k);
    } else {
      MulLeftMonotone(-stride, k, dim - 1);
      MulLeftMonotone(-stride, 0, k);
    }
  }

  /** Every element of the array lies between the lowest and highest reach. */
  lemma {:induction false} OffsetWithinReach(idx: seq<int>, dims: seq<int>, strides: seq<int>)
    requires |dims| == |strides| && InBounds(idx, dims)
    ensures MinReach(dims, strides) <= ByteOffset(idx, strides) <= MaxReach(dims, strides)
  {
    if |idx| > 0 {
      assert InBounds(idx[1..], dims[1..]) by {
        forall i | 0 <= i < |idx| - 1
          ensures 0 <= idx[1..][i] < dims[1..][i]
        {
          assert idx[1..][i] == idx[i + 1] && dims[1..][i] == dims[i + 1];
        }
      }
      OffsetWithinReach(idx[1..], dims[1..], strides[1..]);
      TermWithinReach(dims[0], strides[0], idx[0]);
    }
  }

  /**
   * The memory extent test: an array with an empty axis holds no element; otherwise
   * the lowest and the highest byte any index tuple reaches both lie in the buffer
   * [0, nbytes), element zero sitting at byte `offset`.
   */
  predicate ElementsFit(itemsize: int, nbytes: int, offset: int, dims: seq<int>, strides: seq<int>)
    requires |dims| == |strides|
  {
    (exists i :: 0 <= i < |dims| && dims[i] <= 0) ||
    (0 <= offset + MinReach(dims, strides) && offset + MaxReach(dims, strides) + itemsize <= nbytes)
  }

  /** What ElementsFit promises: every element of the array lies in the buffer. */
  lemma ElementsFitInside(itemsize: int, nbytes: int, offset: int, dims: seq<int>, strides: seq<int>, idx: seq<int>)
    requires |dims| == |strides| && ElementsFit(itemsize, nbytes, offset, dims, strides)
    requires InBounds(idx, dims)
    ensures 0 <= offset + ByteOffset(idx, strides)
    ensures offset + ByteOffset(idx, strides) + itemsize <= nbytes
  {
    forall i | 0 <= i < |dims|
      ensures dims[i] > 0
    {
      assert 0 <= idx[i] < dims[i];
    }
    OffsetWithinReach(idx, dims, strides);
  }

  /** With 0 <= n and d > 0, C's truncating division is the floor: q*d <= n < (q+1)*d. */
  lemma CDivFloor(n: int, d: int)
    requires n >= 0 && d > 0
    ensures CDiv(n, d) == n / d
    ensures d * CDiv(n, d) <= n < d * (CDiv(n, d) + 1)
  {
  }

  /**
   * array_new's validation as its stride check is evidently meant to work: the offset
   * must lie within the buffer, a [-1] length is inferred before anything is checked
   * against it, and explicit strides are checked by the memory extent test against
   * the buffer's real length (an empty buffer is not taken for "no buffer").
   */
  function ArrayNewChecked(a: NewArgs): (r: Result<NewPlan, NewError>)
    ensures a.itemsize == 0 ==> r == Failure(UnspecifiedItemsize)
    ensures a.itemsize > 0 && a.strides.Some? && |a.strides.value| != |a.dims| ==> r == Failure(StridesLengthMismatch)
    ensures r.Success? ==> a.itemsize > 0 && (r.value.WrapBuffer? <==> a.buffer.Some?)
    ensures r.Success? ==> r.value.strides == a.strides
    ensures r.Success? && a.strides.Some? ==> |a.strides.value| == |r.value.dims|
    ensures r.Success? && r.value.WrapBuffer? ==> 0 <= a.offset <= a.buffer.value && r.value.offset == a.offset
    ensures r.Success? && r.value.WrapBuffer? && a.strides.None? ==>
              a.offset + a.itemsize * Product(r.value.dims) <= a.buffer.value
    ensures r.Success? && a.buffer.Some? && InfersLength(a.dims) ==>
              |r.value.dims| == 1 &&
              a.itemsize * r.value.dims[0] <= a.buffer.value - a.offset < a.itemsize * (r.value.dims[0] + 1)
    ensures r.Success? && !(a.buffer.Some? && InfersLength(a.dims)) ==> r.value.dims == a.dims
    // explicit strides are accepted exactly when they pass the memory extent test
    ensures a.itemsize > 0 && a.buffer.None? && a.strides.Some? && |a.strides.value| == |a.dims| ==>
              (r.Success? <==> ElementsFit(a.itemsize, Product(a.dims) * a.itemsize, 0, a.dims, a.strides.value))
    ensures a.itemsize > 0 && a.buffer.Some? && 0 <= a.offset <= a.buffer.value && !InfersLength(a.dims) &&
            a.strides.Some? && |a.strides.value| == |a.dims| ==>
              (r.Success? <==> ElementsFit(a.itemsize, a.buffer.value, a.offset, a.dims, a.strides.value))
    ensures a.itemsize > 0 && a.buffer.Some? && 0 <= a.offset <= a.buffer.value && InfersLength(a.dims) &&
            a.strides.Some? && |a.strides.value| == 1 ==>
              (r.Success? <==>
                 ElementsFit(a.itemsize, a.buffer.value, a.offset, [(a.buffer.value - a.offset) / a.itemsize], a.strides.value))
  {
    if a.itemsize == 0 then Failure(UnspecifiedItemsize)
    else if a.strides.Some? && |a.strides.value| != |a.dims| then Failure(StridesLengthMismatch)
    else if a.buffer.None? then
      if a.strides.Some? && !ElementsFit(a.itemsize, Product(a.dims) * a.itemsize, 0, a.dims, a.strides.value)
      then Failure(StridesIncompatible)
      else Success(Allocate(a.dims, a.strides))
    else
      var len := a.buffer.value;
      if a.offset < 0 || a.offset > len then Failure(InvalidOffset)
      else
        var dims := if InfersLength(a.dims) then [(len - a.offset) / a.itemsize] else a.dims;
        if a.strides.Some? then
          if |a.strides.value| != |dims| || !ElementsFit(a.itemsize, len, a.offset, dims, a.strides.value)
          then Failure(StridesIncompatible)
          else Success(WrapBuffer(dims, a.strides, a.offset))
        else if len < a.offset + a.itemsize * Product(dims) then Failure(BufferTooSmall)
        else
          assert InfersLength(a.dims) ==> a.offset + a.itemsize * Product(dims) <= len by {
            if InfersLength(a.dims) {
              var n := (len - a.offset) / a.itemsize;
              assert Product(dims) == n;
              assert a.itemsize * n <= len - a.offset;
            }
          }
          Success(WrapBuffer(dims, a.strides, a.offset))
  }

  /**
   * With the corrected validation, every element of an accepted strided array lies
   * inside its memory: the wrapped buffer, or the allocation of product(dims)
   * elements.
   */
  lemma ArrayNewCheckedStaysInBuffer(a: NewArgs, idx: seq<int>)
    requires ArrayNewChecked(a).Success? && a.strides.Some?
    requires InBounds(idx, ArrayNewChecked(a).value.dims)
    ensures ArrayNewChecked(a).value.WrapBuffer? ==>
              0 <= a.offset + ByteOffset(idx, a.strides.value) &&
              a.offset + ByteOffset(idx, a.strides.value) + a.itemsize <= a.buffer.value
    ensures ArrayNewChecked(a).value.Allocate? ==>
              0 <= ByteOffset(idx, a.strides.value) &&
              ByteOffset(idx, a.strides.value) + a.itemsize <= Product(a.dims) * a.itemsize
  {
    var plan := ArrayNewChecked(a).value;
    if plan.WrapBuffer? {
      assert ElementsFit(a.itemsize, a.buffer.value, a.offset, plan.dims, a.strides.value);
      ElementsFitInside(a.itemsize, a.buffer.value, a.offset, plan.dims, a.strides.value, idx);
    } else {
      assert ElementsFit(a.itemsize, Product(a.dims) * a.itemsize, 0, a.dims, a.strides.value);
      ElementsFitInside(a.itemsize, Product(a.dims) * a.itemsize, 0, a.dims, a.strides.value, idx);
    }
  }

  /** Finding: a negative offset passes, so element zero starts before the buffer. */
  lemma NegativeOffsetAccepted()
    ensures ArrayNew(NewArgs([2], 8, Some(16), -8, Some([8]))) == Success(WrapBuffer([2], Some([8]), -8))
    ensures ArrayNewChecked(NewArgs([2], 8, Some(16), -8, Some([8]))) == Failure(InvalidOffset)
  {
  }

  /**
   * Finding: an empty buffer reaches the stride check as numbytes 0, which stands
   * for "the size of the whole array", so a two-element view of zero bytes passes.
   */
  lemma EmptyBufferAccepted()
    ensures ArrayNew(NewArgs([2], 8, Some(0), 0, Some([8]))) == Success(WrapBuffer([2], Some([8]), 0))
    ensures ArrayNewChecked(NewArgs([2], 8, Some(0), 0, Some([8]))) == Failure(StridesIncompatible)
  {
  }

  /**
   * Finding: each axis is checked on its own, so two axes that each stay inside a
   * 16-byte buffer together reach element (1, 1) at bytes [16, 24).
   */
  lemma CombinedReachUnchecked()
    ensures ArrayNew(NewArgs([2, 2], 8, Some(16), 0, Some([8, 8]))) == Success(WrapBuffer([2, 2], Some([8, 8]), 0))
    ensures InBounds([1, 1], [2, 2]) && 0 + ByteOffset([1, 1], [8, 8]) + 8 > 16
    ensures ArrayNewChecked(NewArgs([2, 2], 8, Some(16), 0, Some([8, 8]))) == Failure(StridesIncompatible)
  {
  }

  /**
   * Finding: an axis of length 0 puts its "last element" at index -1, so a positive
   * stride reaches before the buffer and an empty view is refused, though it
   * addresses no memory at all.
   */
  lemma EmptyViewRejected()
    ensures ArrayNew(NewArgs([0], 8, Some(16), 0, Some([8]))) == Failure(StridesIncompatible)
    ensures forall idx :: !InBounds(idx, [0])
    ensures ArrayNewChecked(NewArgs([0], 8, Some(16), 0, Some([8]))) == Success(WrapBuffer([0], Some([8]), 0))
  {
    assert ElementsFit(8, 16, 0, [0], [8]) by {
      assert [0][0] <= 0;
    }
  }

  /**
   * Finding: with shape [-1] the strides are checked against the placeholder -1, and
   * the inferred length of 4 then walks a stride of -8 bytes to byte -24.
   */
  lemma InferredLengthUnchecked()
    ensures ArrayNew(NewArgs([-1], 8, Some(32), 0, Some([-8]))) == Success(WrapBuffer([4], Some([-8]), 0))
    ensures ArrayNewChecked(NewArgs([-1], 8, Some(32), 0, Some([-8]))) == Failure(StridesIncompatible)
  {
  }
}
