/**
 * `abs_index` and `do_slices`: restricting each axis of a view to a range
 * `start .. end` taken every `step` elements (negative positions count from
 * the end, a negative step walks the range backwards). The extents and
 * strides are rewritten in place and the displacement of the first element
 * is returned.
 */
module Slicing {
  import opened Wrappers
  import opened Machine
  import opened Offsets

  /** A slice of one axis: `start`, optional `end` (the extent when absent), and `step`. */
  datatype Si = Si(start: int, end: Option<int>, step: int)

  /**
   * `abs_index`: a negative position counts back from `len`; the `as usize`
   * cast wraps a position before the start to a value above `isize::MAX`.
   */
  function AbsIndex(len: int, index: int): (r: nat)
    requires 0 <= len <= ISIZE_MAX && InIsize(index)
    ensures index >= 0 ==> r == index
    ensures -len <= index < 0 ==> r == len + index
    ensures index < -len ==> r > ISIZE_MAX
  {
    if index < 0 then AsUsize(len + index) else AsUsize(index)
  }

  /** The slice's positions fit `isize`, as `Si` stores them. */
  predicate SiInRange(si: Si)
  {
    InIsize(si.start) && (si.end.Some? ==> InIsize(si.end.value)) && InIsize(si.step)
  }

  /** The resolved range `b .. e` of a slice on an axis of extent `m`; an end before the start is raised to it. */
  function Range(m: nat, si: Si): (r: (nat, nat))
    requires m <= ISIZE_MAX && SiInRange(si)
    ensures r.0 <= r.1
  {
    var b := AbsIndex(m, si.start);
    var e := AbsIndex(m, if si.end.Some? then si.end.value else m);
    (b, if e < b then b else e)
  }

  /**
   * What `do_slices` asserts of a slice, and what it needs to stay in
   * unsigned range: the range lies inside the axis, the step is not 0, and
   * a negative step has a non-empty range to start from.
   */
  predicate SliceValid(m: nat, si: Si)
  {
    && m <= ISIZE_MAX && SiInRange(si)
    && Range(m, si).1 <= m
    && si.step != 0
    && (si.step < 0 ==> Range(m, si).0 < Range(m, si).1)
  }

  /** The magnitude of a step. */
  function Abs(x: int): nat
  {
    if x < 0 then -x else x
  }

  /** Division rounded up, as `d + if r > 0 { 1 } else { 0 }`. */
  function CeilDiv(a: nat, d: nat): (r: nat)
    requires d > 0
    ensures r * d >= a
    ensures r > 0 ==> (r - 1) * d < a
  {
    a / d + if a % d > 0 then 1 else 0
  }

  /** The new extent: how many positions the step reaches in the range. */
  function SlicedExtent(m: nat, si: Si): nat
    requires SliceValid(m, si)
  {
    CeilDiv(Range(m, si).1 - Range(m, si).0, Abs(si.step))
  }

  /** The old position of the new first element: the start, or the last of the range for a negative step. */
  function Base(m: nat, si: Si): nat
    requires SliceValid(m, si)
  {
    if si.step < 0 then Range(m, si).1 - 1 else Range(m, si).0
  }

  /** The old position of element `i` of the sliced axis. */
  function Position(m: nat, si: Si, i: nat): int
    requires SliceValid(m, si)
  {
    Base(m, si) + i * si.step
  }

  /** Every slice is valid on its axis. */
  predicate AllValid(dim: seq<nat>, slices: seq<Si>)
  {
    |slices| == |dim| && forall k :: 0 <= k < |dim| ==> SliceValid(dim[k], slices[k])
  }

  /** The extents after slicing. */
  function SlicedDims(dim: seq<nat>, slices: seq<Si>): (r: seq<nat>)
    requires AllValid(dim, slices)
    ensures |r| == |dim|
  {
    seq(|dim|, k requires 0 <= k < |dim| => SlicedExtent(dim[k], slices[k]))
  }

  /** The strides after slicing: each multiplied by its step. */
  function SlicedStrides(strides: seq<int>, slices: seq<Si>): (r: seq<int>)
    requires |slices| == |strides|
    ensures |r| == |strides|
  {
    seq(|strides|, k requires 0 <= k < |strides| => strides[k] * slices[k].step)
  }

  /** The old index of the new first element. */
  function Bases(dim: seq<nat>, slices: seq<Si>): (r: seq<nat>)
    requires AllValid(dim, slices)
    ensures |r| == |dim|
  {
    seq(|dim|, k requires 0 <= k < |dim| => Base(dim[k], slices[k]))
  }

  /** The old index of the new index `index`. */
  function Positions(dim: seq<nat>, slices: seq<Si>, index: seq<nat>): (r: seq<int>)
    requires AllValid(dim, slices) && |index| == |dim|
    ensures |r| == |dim|
  {
    seq(|dim|, k requires 0 <= k < |dim| => Position(dim[k], slices[k], index[k]))
  }

  /**
   * One axis of `do_slices`: the new extent and stride, and the axis's share
   * of the displacement (`b * stride`, plus `(e - b - 1) * stride` for a
   * negative step).
   */
  method SliceAxis(m: nat, stride: int, slc: Si) returns (mPrim: nat, sPrim: int, displacement: int)
    requires SliceValid(m, slc)
    ensures mPrim == SlicedExtent(m, slc)
    ensures sPrim == stride * slc.step
    ensures displacement == Base(m, slc) * stride
  {
    var b1 := AbsIndex(m, slc.start);
    var e1 := AbsIndex(m, if slc.end.Some? then slc.end.value else m);
    if e1 < b1 {
      e1 := b1;
    }
    assert (b1, e1) == Range(m, slc);
    var len := e1 - b1;
    displacement := StrideOffset(b1, stride);
    if slc.step < 0 {
      displacement := displacement + StrideOffset(len - 1, stride);
      Distrib(b1, len - 1, stride);
      assert displacement == (e1 - 1) * stride;
    }
    sPrim := stride * slc.step;
    mPrim := CeilDiv(len, Abs(slc.step));
  }

  /**
   * `Dimension::do_slices`: rewrite each extent and stride in place and
   * return the displacement of the first element of the sliced view.
   */
  method DoSlices(dim: array<nat>, strides: array<int>, slices: seq<Si>) returns (offset: int)
    requires dim.Length == strides.Length
    requires AllValid(dim[..], slices)
    modifies dim, strides
    ensures dim[..] == SlicedDims(old(dim[..]), slices)
    ensures strides[..] == SlicedStrides(old(strides[..]), slices)
    ensures offset == StrideSum(Bases(old(dim[..]), slices), old(strides[..]))
  {
    ghost var dim0, strides0 := dim[..], strides[..];
    ghost var bases := Bases(dim0, slices);
    ghost var newDims, newStrides := SlicedDims(dim0, slices), SlicedStrides(strides0, slices);
    offset := 0;
    for k := 0 to dim.Length
      invariant forall j :: 0 <= j < k ==> dim[j] == newDims[j] && strides[j] == newStrides[j]
      invariant forall j :: k <= j < dim.Length ==> dim[j] == dim0[j] && strides[j] == strides0[j]
      invariant offset == StrideSum(bases[..k], strides0[..k])
    {
      var m, stride := dim[k], strides[k];
      assert SliceValid(m, slices[k]);
      StrideSumPrefix(bases, strides0, k);
      var mPrim, sPrim, displacement := SliceAxis(m, stride, slices[k]);
      assert displacement == bases[k] * strides0[k];
      assert mPrim == newDims[k] && sPrim == newStrides[k];
      offset := offset + displacement;
      dim[k] := mPrim;
      strides[k] := sPrim;
    }
    assert bases[..dim.Length] == bases && strides0[..dim.Length] == strides0;
    assert dim[..] == newDims;
    assert strides[..] == newStrides;
  }

  /**
   * The sliced axis holds exactly the positions of the range the step
   * reaches: element `i` lies in `b .. e` for `i` below the new extent, and
   * the next one falls outside.
   */
  lemma SliceAxisPositions(m: nat, si: Si, i: nat)
    requires SliceValid(m, si)
    ensures i < SlicedExtent(m, si) ==> Range(m, si).0 <= Position(m, si, i) < Range(m, si).1
    ensures i == SlicedExtent(m, si) ==>
              Position(m, si, i) < Range(m, si).0 || Position(m, si, i) >= Range(m, si).1
  {
    var (b, e) := Range(m, si);
    var a := Abs(si.step);
    var n := SlicedExtent(m, si);
    assert n == CeilDiv(e - b, a);
    StepMagnitude(i, si.step);
    if i < n {
      WithinCeil(i, n, e - b, a);
    } else if i == n {
      assert n * a >= e - b;
    }
  }

  /** A multiple of a step is plus or minus the same multiple of its magnitude. */
  lemma StepMagnitude(i: nat, step: int)
    ensures step >= 0 ==> i * step == i * Abs(step)
    ensures step < 0 ==> i * step == -(i * Abs(step))
  {
  }

  /** Below the rounded-up quotient, a multiple of `a` stays below `len`. */
  lemma WithinCeil(i: nat, n: nat, len: nat, a: nat)
    requires a > 0 && i < n && n == CeilDiv(len, a)
    ensures i * a < len
  {
    MulMonotone(i, n - 1, a);
  }

  /** One axis of the addressing identity. */
  lemma AxisTerm(m: nat, si: Si, stride: int, i: nat)
    requires SliceValid(m, si) && i < SlicedExtent(m, si)
    ensures 0 <= Position(m, si, i) < m
    ensures Base(m, si) * stride + i * (stride * si.step) == Position(m, si, i) * stride
  {
    SliceAxisPositions(m, si, i);
    Assoc(i, stride, si.step);
    Distrib(Base(m, si), i * si.step, stride);
  }

  /** Regrouping a product of three factors. */
  lemma Assoc(i: int, s: int, t: int)
    ensures i * (s * t) == (i * t) * s
  {
  }

  /** Multiplication distributes over addition. */
  lemma Distrib(a: int, b: int, s: int)
    ensures a * s + b * s == (a + b) * s
  {
  }

  /** Offsets add up axis by axis when each axis's terms do. */
  lemma {:induction false} StrideSumCombine(base: seq<int>, strides: seq<int>, index: seq<int>,
                                            newStrides: seq<int>, pos: seq<int>)
    requires |base| == |strides| == |index| == |newStrides| == |pos|
    requires forall k :: 0 <= k < |base| ==>
               base[k] * strides[k] + index[k] * newStrides[k] == pos[k] * strides[k]
    ensures StrideSum(base, strides) + StrideSum(index, newStrides) == StrideSum(pos, strides)
  {
    var n := |base|;
    if n > 0 {
      StrideSumCombine(base[..n - 1], strides[..n - 1], index[..n - 1], newStrides[..n - 1], pos[..n - 1]);
    }
  }

  /**
   * Slicing preserves addressing: every in-bounds index of the sliced view
   * names an in-bounds element of the original view, and the displacement
   * plus its new offset is that element's old offset.
   */
  lemma SlicedViewAddressing(dim: seq<nat>, strides: seq<int>, slices: seq<Si>, index: seq<nat>)
    requires |strides| == |dim| && AllValid(dim, slices)
    requires InBounds(SlicedDims(dim, slices), index)
    ensures InBounds(dim, Positions(dim, slices, index))
    ensures StrideSum(Bases(dim, slices), strides) + StrideSum(index, SlicedStrides(strides, slices))
            == StrideSum(Positions(dim, slices, index), strides)
  {
    var pos := Positions(dim, slices, index);
    var base := Bases(dim, slices);
    var ns := SlicedStrides(strides, slices);
    forall k | 0 <= k < |dim|
      ensures 0 <= pos[k] < dim[k]
      ensures base[k] * strides[k] + index[k] * ns[k] == pos[k] * strides[k]
    {
      assert index[k] < SlicedDims(dim, slices)[k];
      AxisTerm(dim[k], slices[k], strides[k], index[k]);
    }
    StrideSumCombine(base, strides, index, ns, pos);
  }

  /** The whole-axis slice `..` with step 1. */
  const Full: Si := Si(0, None, 1)

  /** `..` on every one of `n` axes. */
  function FullSlices(n: nat): (r: seq<Si>)
    ensures |r| == n && forall k :: 0 <= k < n ==> r[k] == Full
  {
    seq(n, _ => Full)
  }

  /** Slicing every axis with `..` leaves extents and strides as they were and displaces by 0. */
  lemma FullSliceIsIdentity(dim: seq<nat>, strides: seq<int>)
    requires |strides| == |dim| && forall k :: 0 <= k < |dim| ==> dim[k] <= ISIZE_MAX
    ensures AllValid(dim, FullSlices(|dim|))
    ensures SlicedDims(dim, FullSlices(|dim|)) == dim
    ensures SlicedStrides(strides, FullSlices(|dim|)) == strides
    ensures StrideSum(Bases(dim, FullSlices(|dim|)), strides) == 0
  {
    FullSlicesValid(dim);
    FullSliceKeepsDims(dim);
    FullSliceDisplacesNothing(dim, strides);
  }

  /** `..` is valid on every axis that fits `isize`. */
  lemma FullSlicesValid(dim: seq<nat>)
    requires forall k :: 0 <= k < |dim| ==> dim[k] <= ISIZE_MAX
    ensures AllValid(dim, FullSlices(|dim|))
  {
    var slices := FullSlices(|dim|);
    forall k | 0 <= k < |dim|
      ensures SliceValid(dim[k], slices[k])
    {
      FullAxis(dim[k]);
    }
  }

  /** `..` keeps every extent. */
  lemma FullSliceKeepsDims(dim: seq<nat>)
    requires AllValid(dim, FullSlices(|dim|))
    ensures SlicedDims(dim, FullSlices(|dim|)) == dim
  {
    var slices := FullSlices(|dim|);
    forall k | 0 <= k < |dim|
      ensures SlicedExtent(dim[k], slices[k]) == dim[k]
    {
      FullAxis(dim[k]);
    }
  }

  /** `..` starts every axis at position 0. */
  lemma FullSliceDisplacesNothing(dim: seq<nat>, strides: seq<int>)
    requires |strides| == |dim| && AllValid(dim, FullSlices(|dim|))
    ensures StrideSum(Bases(dim, FullSlices(|dim|)), strides) == 0
  {
    var slices := FullSlices(|dim|);
    forall k | 0 <= k < |dim|
      ensures Base(dim[k], slices[k]) == 0
    {
      FullAxis(dim[k]);
    }
    StrideSumZero(Bases(dim, slices), strides);
  }

  /** `..` on one axis resolves to the whole axis, keeps its extent and starts at 0. */
  lemma FullAxis(m: nat)
    requires m <= ISIZE_MAX
    ensures SliceValid(m, Full) && Range(m, Full) == (0, m)
    ensures SlicedExtent(m, Full) == m && Base(m, Full) == 0
  {
    assert Range(m, Full) == (0, m);
  }
}
