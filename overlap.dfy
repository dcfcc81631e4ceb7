/**
 * `dim_stride_overlap`: walking the axes fastest first, report an overlap
 * at the first axis of extent other than 1 whose stride is below the
 * `prev_offset` left by the axis before it (`extent * stride` of that axis
 * alone, starting from 1).
 */
module Overlap {
  import opened Order
  import opened Offsets

  /** The axes of `order` are axes of a rank-`n` shape. */
  predicate AxesBelow(order: seq<nat>, n: nat)
  {
    forall j :: 0 <= j < |order| ==> order[j] < n
  }

  /** `prev_offset` on reaching position `j` of the walk. */
  function PrevOffset(dim: seq<nat>, strides: seq<int>, order: seq<nat>, j: nat): (r: int)
    requires |strides| == |dim| && AxesBelow(order, |dim|) && j <= |order|
    ensures j > 0 ==> r == dim[order[j - 1]] * strides[order[j - 1]]
  {
    if j == 0 then 1 else StrideOffset(dim[order[j - 1]], strides[order[j - 1]])
  }

  /** The test of the walk at position `j`. */
  predicate OverlapAt(dim: seq<nat>, strides: seq<int>, order: seq<nat>, j: nat)
    requires |strides| == |dim| && AxesBelow(order, |dim|) && j < |order|
  {
    dim[order[j]] != 1 && strides[order[j]] < PrevOffset(dim, strides, order, j)
  }

  /** The verdict of `dim_stride_overlap`: some position of the fastest-first walk fails its test. */
  ghost predicate Overlaps(dim: seq<nat>, strides: seq<int>)
    requires |strides| == |dim|
  {
    var order := FastestVaryingStrideOrder(strides);
    exists j :: 0 <= j < |order| && OverlapAt(dim, strides, order, j)
  }

  /** `dim_stride_overlap`. */
  method DimStrideOverlap(dim: seq<nat>, strides: seq<int>) returns (r: bool)
    requires |strides| == |dim|
    ensures r <==> Overlaps(dim, strides)
  {
    var order := FastestVaryingStrideOrder(strides);
    var prevOffset := 1;
    for j := 0 to |order|
      invariant prevOffset == PrevOffset(dim, strides, order, j)
      invariant forall l :: 0 <= l < j ==> !OverlapAt(dim, strides, order, l)
    {
      var index := order[j];
      var d, s := dim[index], strides[index];
      if d != 1 && s < prevOffset {
        assert OverlapAt(dim, strides, order, j);
        return true;
      }
      prevOffset := StrideOffset(d, s);
    }
    return false;
  }

  /** The fastest-first order of the three strides (5, 2, 1), (6, 2, 1) and (6, 0, 1). */
  lemma ExampleOrders()
    ensures FastestVaryingStrideOrder([5, 2, 1]) == [2, 1, 0]
    ensures FastestVaryingStrideOrder([6, 2, 1]) == [2, 1, 0]
    ensures FastestVaryingStrideOrder([6, 0, 1]) == [1, 2, 0]
  {
    KnownOrder([5, 2, 1], [2, 1, 0]);
    KnownOrder([6, 2, 1], [2, 1, 0]);
    KnownOrder([6, 0, 1], [1, 2, 0]);
  }

  /** A stable order found by hand for three strides is the one the sort computes. */
  lemma KnownOrder(strides: seq<int>, order: seq<nat>)
    requires |strides| == 3 && |order| == 3
    requires order[0] < 3 && order[1] < 3 && order[2] < 3
    requires order[0] != order[1] && order[1] != order[2] && order[0] != order[2]
    requires Before(strides, order[0], order[1]) && Before(strides, order[1], order[2])
    ensures FastestVaryingStrideOrder(strides) == order
  {
    StableOrderOfThree(strides, order);
    StableOrderUnique(strides, order);
  }

  /**
   * On shape (2, 3, 2): strides (5, 2, 1) overlap, (6, 2, 1) do not, and
   * (6, 0, 1) overlap through the zero stride.
   */
  lemma OverlapExamples()
    ensures Overlaps([2, 3, 2], [5, 2, 1])
    ensures !Overlaps([2, 3, 2], [6, 2, 1])
    ensures Overlaps([2, 3, 2], [6, 0, 1])
  {
    ExampleOrders();
    assert OverlapAt([2, 3, 2], [5, 2, 1], [2, 1, 0], 2);
    assert OverlapAt([2, 3, 2], [6, 0, 1], [1, 2, 0], 0);
    NoOverlapAlong([2, 3, 2], [6, 2, 1], [2, 1, 0]);
  }

  /** The test passes at all three positions of a given walk. */
  lemma NoOverlapAlong(dim: seq<nat>, strides: seq<int>, order: seq<nat>)
    requires |dim| == |strides| == |order| == 3 && AxesBelow(order, 3)
    requires FastestVaryingStrideOrder(strides) == order
    requires !OverlapAt(dim, strides, order, 0)
    requires !OverlapAt(dim, strides, order, 1)
    requires !OverlapAt(dim, strides, order, 2)
    ensures !Overlaps(dim, strides)
  {
  }

  /** Shape (2, 3, 2) with the column-major strides (1, 2, 6) does not overlap. */
  lemma NoOverlapExample()
    ensures !Overlaps([2, 3, 2], [1, 2, 6])
  {
    KnownOrder([1, 2, 6], [0, 1, 2]);
    NoOverlapAlong([2, 3, 2], [1, 2, 6], [0, 1, 2]);
  }

  /**
   * Because `prev_offset` only remembers the axis just before, an axis of
   * extent 1 resets it: shape (3, 1, 2) with strides (1, 1, 2) passes the
   * test, yet the distinct in-bounds indices (2, 0, 0) and (0, 0, 1) both
   * land on offset 2.
   */
  lemma OverlapMissesAliasing()
    ensures !Overlaps([3, 1, 2], [1, 1, 2])
    ensures InBounds([3, 1, 2], [2, 0, 0]) && InBounds([3, 1, 2], [0, 0, 1])
    ensures StrideSum([2, 0, 0], [1, 1, 2]) == StrideSum([0, 0, 1], [1, 1, 2]) == 2
  {
    KnownOrder([1, 1, 2], [0, 1, 2]);
    NoOverlapAlong([3, 1, 2], [1, 1, 2], [0, 1, 2]);
    RankThreeOffset([2, 0, 0], [1, 1, 2]);
    RankThreeOffset([0, 0, 1], [1, 1, 2]);
  }

  /** The offset of a rank-3 index, written out. */
  lemma RankThreeOffset(index: seq<int>, strides: seq<int>)
    requires |index| == 3 && |strides| == 3
    ensures StrideSum(index, strides) == index[0] * strides[0] + index[1] * strides[1] + index[2] * strides[2]
  {
    StrideSumPrefix(index, strides, 0);
    StrideSumPrefix(index, strides, 1);
    StrideSumPrefix(index, strides, 2);
    assert index[..0] == [] && strides[..0] == [];
    assert index[..3] == index && strides[..3] == strides;
  }
}
