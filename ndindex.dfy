/**
 * Index lookup: the fixed-rank `stride_offset` / `stride_offset_checked`
 * overrides and the `NdIndex` impls for `()`, `Ix`, tuples, fixed arrays and
 * dynamic slices. Each one is shown to compute what the generic
 * `StrideSum` / `CheckedOffset` compute.
 */
module Indexing {
  import opened Wrappers
  import opened Offsets

  /** The rank-1 `stride_offset` override: one term. */
  function Ix1StrideOffset(index: seq<nat>, strides: seq<int>): (r: int)
    requires |index| == 1 && |strides| == 1
    ensures r == StrideSum(index, strides)
  {
    StrideOffset(index[0], strides[0])
  }

  /** The rank-1 `stride_offset_checked` override: a single bounds test. */
  function Ix1StrideOffsetChecked(dim: seq<nat>, strides: seq<int>, index: seq<nat>): (r: Option<int>)
    requires |dim| == 1 && |strides| == 1 && |index| == 1
    ensures r.None? <==> index[0] >= dim[0]
    ensures r == CheckedOffset(dim, strides, index)
  {
    if index[0] < dim[0] then Some(Ix1StrideOffset(index, strides)) else None
  }

  /** The rank-2 `stride_offset` override: two terms. */
  function Ix2StrideOffset(index: seq<nat>, strides: seq<int>): (r: int)
    requires |index| == 2 && |strides| == 2
    ensures r == StrideSum(index, strides)
  {
    StrideSumPrefix(index, strides, 0);
    StrideOffset(index[0], strides[0]) + StrideOffset(index[1], strides[1])
  }

  /** The rank-2 `stride_offset_checked` override: both bounds compared together. */
  function Ix2StrideOffsetChecked(dim: seq<nat>, strides: seq<int>, index: seq<nat>): (r: Option<int>)
    requires |dim| == 2 && |strides| == 2 && |index| == 2
    ensures r.None? <==> index[0] >= dim[0] || index[1] >= dim[1]
    ensures r == CheckedOffset(dim, strides, index)
  {
    if index[0] < dim[0] && index[1] < dim[1] then Some(Ix2StrideOffset(index, strides)) else None
  }

  /** The rank-3 `stride_offset` override: three terms. */
  function Ix3StrideOffset(index: seq<nat>, strides: seq<int>): (r: int)
    requires |index| == 3 && |strides| == 3
    ensures r == StrideSum(index, strides)
  {
    StrideSumPrefix(index, strides, 0);
    StrideSumPrefix(index, strides, 1);
    StrideOffset(index[0], strides[0]) + StrideOffset(index[1], strides[1]) + StrideOffset(index[2], strides[2])
  }

  /** `()` as an index of a rank-0 array, checked: the generic check on no axes, which always succeeds. */
  function UnitIndexChecked(dim: seq<nat>, strides: seq<int>): (r: Option<int>)
    requires |dim| == 0 && |strides| == 0
    ensures r == Some(0)
    ensures r == CheckedOffset(dim, strides, [])
  {
    Some(0)
  }

  /** `()` as an index, unchecked: the constant 0, the empty sum. */
  function UnitIndexUnchecked(strides: seq<int>): (r: int)
    requires |strides| == 0
    ensures r == StrideSum([], strides)
  {
    0
  }

  /** A bare `Ix` indexing a rank-1 array, checked: the rank-1 override on `[i]`. */
  function ScalarIndexChecked(dim: seq<nat>, strides: seq<int>, i: nat): (r: Option<int>)
    requires |dim| == 1 && |strides| == 1
    ensures r.None? <==> i >= dim[0]
    ensures r.Some? ==> r.value == i * strides[0]
    ensures r == CheckedOffset(dim, strides, [i])
  {
    Ix1StrideOffsetChecked(dim, strides, [i])
  }

  /** A bare `Ix` indexing a rank-1 array, unchecked. */
  function ScalarIndexUnchecked(strides: seq<int>, i: nat): (r: int)
    requires |strides| == 1
    ensures r == StrideSum([i], strides)
  {
    StrideOffset(i, strides[0])
  }

  /** A pair (or `[Ix; 2]`) indexing a rank-2 array, checked: the rank-2 override. */
  function PairIndexChecked(dim: seq<nat>, strides: seq<int>, i: nat, j: nat): (r: Option<int>)
    requires |dim| == 2 && |strides| == 2
    ensures r.None? <==> i >= dim[0] || j >= dim[1]
    ensures r == CheckedOffset(dim, strides, [i, j])
  {
    Ix2StrideOffsetChecked(dim, strides, [i, j])
  }

  /** A pair (or `[Ix; 2]`) indexing a rank-2 array, unchecked. */
  function PairIndexUnchecked(strides: seq<int>, i: nat, j: nat): (r: int)
    requires |strides| == 2
    ensures r == StrideSum([i, j], strides)
  {
    StrideSumPrefix([i, j], strides, 0);
    StrideOffset(i, strides[0]) + StrideOffset(j, strides[1])
  }

  /**
   * A triple (or `[Ix; 3]`) indexing a rank-3 array, checked: there is no
   * rank-3 override, so this is the generic loop.
   */
  method TripleIndexChecked(dim: seq<nat>, strides: seq<int>, i: nat, j: nat, k: nat) returns (r: Option<int>)
    requires |dim| == 3 && |strides| == 3
    ensures r.None? <==> i >= dim[0] || j >= dim[1] || k >= dim[2]
    ensures r.Some? ==> r.value == i * strides[0] + j * strides[1] + k * strides[2]
  {
    r := StrideOffsetChecked(dim, strides, [i, j, k]);
    if r.None? {
      var w :| 0 <= w < 3 && [i, j, k][w] >= dim[w];
    } else {
      assert Ix3StrideOffset([i, j, k], strides) == r.value;
    }
  }

  /** A triple (or `[Ix; 3]`) indexing a rank-3 array, unchecked. */
  function TripleIndexUnchecked(strides: seq<int>, i: nat, j: nat, k: nat): (r: int)
    requires |strides| == 3
    ensures r == StrideSum([i, j, k], strides)
  {
    StrideSumPrefix([i, j, k], strides, 0);
    StrideSumPrefix([i, j, k], strides, 1);
    StrideOffset(i, strides[0]) + StrideOffset(j, strides[1]) + StrideOffset(k, strides[2])
  }

  /**
   * The iterator sum `zip(strides, index).map(stride_offset).sum()`, folded
   * first axis first: it is the same offset as the last-axis-first `StrideSum`.
   */
  function ZipStrideSum(strides: seq<int>, index: seq<nat>): (r: int)
    requires |strides| == |index|
    ensures r == StrideSum(index, strides)
  {
    if |index| == 0 then 0
    else
      StrideSumFront(index, strides);
      StrideOffset(index[0], strides[0]) + ZipStrideSum(strides[1..], index[1..])
  }

  /**
   * A dynamic index (`&[Ix]` or `Vec<Ix>`) into a dynamic-rank array, checked:
   * `None` as soon as one component reaches its extent, otherwise the sum of
   * the terms.
   */
  method DynIndexChecked(dim: seq<nat>, strides: seq<int>, index: seq<nat>) returns (r: Option<int>)
    requires |dim| == |index| && |strides| == |dim|
    ensures r.None? <==> !InBounds(dim, index)
    ensures r.Some? ==> r.value == ZipStrideSum(strides, index)
  {
    var offset := 0;
    var k := 0;
    while k < |dim|
      invariant 0 <= k <= |dim|
      invariant forall j :: 0 <= j < k ==> index[j] < dim[j]
      invariant offset + ZipStrideSum(strides[k..], index[k..]) == ZipStrideSum(strides, index)
    {
      if index[k] >= dim[k] {
        return None;
      }
      assert strides[k..][1..] == strides[k + 1..] && index[k..][1..] == index[k + 1..];
      offset := offset + StrideOffset(index[k], strides[k]);
      k := k + 1;
    }
    return Some(offset);
  }
}
