/**
 * `can_index_slice`: the memory-safety gate for a view over a slice of
 * `dataLen` elements. The size must fit `usize`; every stride must be at
 * least 1 (0 is allowed only for an empty view, a negative stride never);
 * the offset of the last index must be computable in `isize` and below
 * `dataLen`; and the strides must pass `dim_stride_overlap`.
 */
module Bounds {
  import opened Wrappers
  import opened Machine
  import opened Sizes
  import opened Offsets
  import opened Order
  import opened Overlap

  /** The index of the last element: every component one below its extent. */
  function LastIndex(dim: seq<nat>): (r: seq<nat>)
    requires forall k :: 0 <= k < |dim| ==> dim[k] >= 1
    ensures |r| == |dim| && forall k :: 0 <= k < |dim| ==> r[k] + 1 == dim[k]
  {
    seq(|dim|, k requires 0 <= k < |dim| => dim[k] - 1)
  }

  /** The stride test: a stride below 1 is refused unless the view is empty and it is 0. */
  predicate StrideRefused(s: int, len: nat)
  {
    s < 1 && (len != 0 || s < 0)
  }

  /** With no empty axis every extent is at most the size. */
  lemma ExtentAtMostSize(dim: seq<nat>, k: nat)
    requires k < |dim| && forall j :: 0 <= j < |dim| ==> dim[j] >= 1
    ensures dim[k] <= Size(dim)
  {
    SizeSplit(dim, k);
    SizeFront(dim[k..]);
    var rest := dim[k..][1..];
    assert forall x :: x in dim[..k] ==> x in dim;
    assert forall x :: x in rest ==> x in dim;
    SizePositive(dim[..k]);
    SizePositive(rest);
    AtLeastFactor(Size(dim[..k]), dim[k], Size(rest));
  }

  /** A shape with no empty axis has a positive size. */
  lemma SizePositive(dim: seq<nat>)
    requires forall x :: x in dim ==> x >= 1
    ensures Size(dim) >= 1
  {
    forall j | 0 <= j < |dim|
      ensures dim[j] != 0
    {
      assert dim[j] in dim;
    }
  }

  /** A factor of a product of naturals, the others positive, is at most the product. */
  lemma AtLeastFactor(a: nat, x: nat, b: nat)
    requires a >= 1 && b >= 1
    ensures x <= a * (x * b)
  {
    assert x * b >= x;
    assert a * (x * b) >= x * b;
  }

  /** The verdict of `can_index_slice`, condition by condition. */
  ghost function Verdict(dataLen: nat, dim: seq<nat>, strides: seq<int>): Outcome
    requires |strides| == |dim|
  {
    match SizeChecked(dim)
    case None => Err(OutOfBounds)
    case Some(len) =>
      if exists k :: 0 <= k < |strides| && StrideRefused(strides[k], len) then Err(Unsupported)
      else if len == 0 then Ok
      else
        assert forall k :: 0 <= k < |dim| ==> dim[k] >= 1;
        assert forall k :: 0 <= k < |dim| ==> InUsize(LastIndex(dim)[k]) by {
          forall k | 0 <= k < |dim| { ExtentAtMostSize(dim, k); }
        }
        match ArithmeticOffset(dim, strides, LastIndex(dim))
        case None => Err(OutOfBounds)
        case Some(offset) =>
          if AsUsize(offset) >= dataLen then Err(OutOfBounds)
          else if Overlaps(dim, strides) then Err(Unsupported)
          else Ok
  }

  /** `can_index_slice`. */
  method CanIndexSlice(dataLen: nat, dim: seq<nat>, strides: seq<int>) returns (r: Outcome)
    requires |strides| == |dim|
    ensures r == Verdict(dataLen, dim, strides)
    ensures SizeChecked(dim).None? ==> r == Err(OutOfBounds)
    ensures SizeChecked(dim).Some? && (exists k :: 0 <= k < |strides| && strides[k] < 0) ==> r == Err(Unsupported)
    ensures SizeChecked(dim).Some? && Size(dim) != 0 && (exists k :: 0 <= k < |strides| && strides[k] == 0)
            ==> r == Err(Unsupported)
    ensures SizeChecked(dim).Some? && Size(dim) == 0 && (forall k :: 0 <= k < |strides| ==> strides[k] >= 0)
            ==> r == Ok
    ensures r == Ok && Size(dim) != 0 ==>
              && (forall k :: 0 <= k < |strides| ==> strides[k] >= 1)
              && (forall k :: 0 <= k < |dim| ==> InUsize(dim[k]))
              && InIsize(StrideSum(SignedIndex(LastIndex(dim)), strides))
              && AsUsize(StrideSum(SignedIndex(LastIndex(dim)), strides)) < dataLen
              && !Overlaps(dim, strides)
  {
    var len := SizeChecked(dim);
    if len.None? {
      return Err(OutOfBounds);
    }
    for k := 0 to |strides|
      invariant forall j :: 0 <= j < k ==> !StrideRefused(strides[j], len.value)
    {
      var s := strides[k];
      if s < 1 && (len.value != 0 || s < 0) {
        assert StrideRefused(strides[k], len.value);
        return Err(Unsupported);
      }
    }
    if len.value == 0 {
      return Ok;
    }
    assert forall k :: 0 <= k < |dim| ==> dim[k] >= 1;
    var lastIndex := dim;
    for k := 0 to |lastIndex|
      invariant |lastIndex| == |dim|
      invariant forall j :: 0 <= j < k ==> lastIndex[j] + 1 == dim[j]
      invariant forall j :: k <= j < |dim| ==> lastIndex[j] == dim[j]
    {
      lastIndex := lastIndex[k := lastIndex[k] - 1];
    }
    assert lastIndex == LastIndex(dim);
    forall k | 0 <= k < |dim|
      ensures InUsize(dim[k])
    {
      ExtentAtMostSize(dim, k);
    }
    var offset := StrideOffsetCheckedArithmetic(dim, strides, lastIndex);
    if offset.None? {
      return Err(OutOfBounds);
    }
    if AsUsize(offset.value) >= dataLen {
      return Err(OutOfBounds);
    }
    var overlap := DimStrideOverlap(dim, strides);
    if overlap {
      return Err(Unsupported);
    }
    return Ok;
  }

  /** With non-negative strides the offset grows with every component. */
  lemma {:induction false} StrideSumMonotone(index: seq<nat>, bound: seq<nat>, strides: seq<int>)
    requires |index| == |bound| == |strides|
    requires forall k :: 0 <= k < |index| ==> index[k] <= bound[k] && strides[k] >= 0
    ensures 0 <= StrideSum(index, strides) <= StrideSum(bound, strides)
  {
    var n := |index|;
    if n > 0 {
      StrideSumMonotone(index[..n - 1], bound[..n - 1], strides[..n - 1]);
      assert index[n - 1] * strides[n - 1] <= bound[n - 1] * strides[n - 1];
    }
  }

  /** Two different axes of a shape with no empty axis multiply to at most its size. */
  lemma {:induction false} TwoExtentsAtMostSize(dim: seq<nat>, i: nat, j: nat)
    requires i < |dim| && j < |dim| && i != j
    requires forall k :: 0 <= k < |dim| ==> dim[k] >= 1
    ensures dim[i] * dim[j] <= Size(dim)
  {
    var n := |dim| - 1;
    var front := dim[..n];
    assert Size(dim) == Size(front) * dim[n];
    if i < n && j < n {
      TwoExtentsAtMostSize(front, i, j);
      MulMonotone(1, dim[n], Size(front));
    } else if i == n {
      ExtentAtMostSize(front, j);
      MulMonotone(dim[j], Size(front), dim[n]);
    } else {
      ExtentAtMostSize(front, i);
      MulMonotone(dim[i], Size(front), dim[n]);
    }
  }

  /** A factor above `isize::MAX + 1` of a product that fits `usize` leaves room only for factors 1. */
  lemma LoneLargeFactor(a: nat, b: nat)
    requires a > ISIZE_MAX + 1 && b >= 1 && a * b <= USIZE_MAX
    ensures b == 1
  {
    assert a * b == a + a * (b - 1);
    if b > 1 {
      MulMonotone(1, b - 1, a);
    }
  }

  /**
   * Once the size fits `usize` and every stride is positive, a last index
   * with a non-negative signed offset has every extent at most
   * `isize::MAX + 1`: a larger extent forces the others to 1, and its last
   * component reads as a negative `isize`.
   */
  lemma NonNegativeLastOffsetBoundsExtents(dim: seq<nat>, strides: seq<int>)
    requires |strides| == |dim|
    requires forall k :: 0 <= k < |dim| ==> dim[k] >= 1
    requires Size(dim) <= USIZE_MAX
    requires forall k :: 0 <= k < |strides| ==> strides[k] >= 1
    requires forall k :: 0 <= k < |dim| ==> InUsize(LastIndex(dim)[k])
    requires StrideSum(SignedIndex(LastIndex(dim)), strides) >= 0
    ensures forall k :: 0 <= k < |dim| ==> dim[k] <= ISIZE_MAX + 1
  {
    forall k | 0 <= k < |dim| && dim[k] > ISIZE_MAX + 1
      ensures false
    {
      LargeExtentNegativeOffset(dim, strides, k);
    }
  }

  /** An extent above `isize::MAX + 1` makes the signed offset of the last index negative. */
  lemma LargeExtentNegativeOffset(dim: seq<nat>, strides: seq<int>, k: nat)
    requires |strides| == |dim| && k < |dim|
    requires forall j :: 0 <= j < |dim| ==> dim[j] >= 1
    requires Size(dim) <= USIZE_MAX
    requires forall j :: 0 <= j < |strides| ==> strides[j] >= 1
    requires forall j :: 0 <= j < |dim| ==> InUsize(LastIndex(dim)[j])
    requires dim[k] > ISIZE_MAX + 1
    ensures StrideSum(SignedIndex(LastIndex(dim)), strides) < 0
  {
    var signed := SignedIndex(LastIndex(dim));
    forall j | 0 <= j < |dim| && j != k
      ensures signed[j] == 0
    {
      TwoExtentsAtMostSize(dim, k, j);
      LoneLargeFactor(dim[k], dim[j]);
    }
    var zeros := signed[k := 0];
    StrideSumZero(zeros, strides);
    StrideSumUpdate(zeros, strides, k, signed[k]);
    assert zeros[k := signed[k]] == signed;
    assert signed[k] < 0;
    NegativeTimesPositive(signed[k], strides[k]);
  }

  /** A negative number times a positive one is negative. */
  lemma NegativeTimesPositive(a: int, b: int)
    requires a < 0 && b >= 1
    ensures a * b < 0
  {
    assert a * b == a + a * (b - 1);
    assert a * (b - 1) <= 0;
  }

  /** With extents that fit `isize::MAX + 1`, an accepted layout keeps every in-bounds index inside the slice. */
  lemma InsideWhenExtentsFit(dataLen: nat, dim: seq<nat>, strides: seq<int>, index: seq<nat>)
    requires |strides| == |dim|
    requires Verdict(dataLen, dim, strides) == Ok
    requires InBounds(dim, index)
    requires forall k :: 0 <= k < |dim| ==> dim[k] <= ISIZE_MAX + 1
    ensures 0 <= StrideSum(index, strides) < dataLen
  {
    SizePositive(dim);
    var len := Size(dim);
    forall k | 0 <= k < |strides|
      ensures strides[k] >= 1
    {
      assert !StrideRefused(strides[k], len);
    }
    var last := LastIndex(dim);
    forall k | 0 <= k < |dim|
      ensures InUsize(last[k]) && last[k] <= ISIZE_MAX
    {
      ExtentAtMostSize(dim, k);
    }
    assert SignedIndex(last) == last;
    StrideSumMonotone(index, last, strides);
  }

  /**
   * An accepted non-empty layout has positive strides, a size that fits
   * `usize`, and a last offset whose `usize` reading is below the length.
   */
  lemma AcceptedLastOffset(dataLen: nat, dim: seq<nat>, strides: seq<int>)
    requires |strides| == |dim|
    requires Verdict(dataLen, dim, strides) == Ok && Size(dim) != 0
    ensures forall k :: 0 <= k < |dim| ==> dim[k] >= 1
    ensures Size(dim) <= USIZE_MAX
    ensures forall k :: 0 <= k < |strides| ==> strides[k] >= 1
    ensures forall k :: 0 <= k < |dim| ==> InUsize(LastIndex(dim)[k])
    ensures InIsize(StrideSum(SignedIndex(LastIndex(dim)), strides))
    ensures AsUsize(StrideSum(SignedIndex(LastIndex(dim)), strides)) < dataLen
  {
    var len := Size(dim);
    assert dim[..|dim|] == dim;
    forall k | 0 <= k < |strides|
      ensures strides[k] >= 1
    {
      assert !StrideRefused(strides[k], len);
    }
    forall k | 0 <= k < |dim|
      ensures InUsize(LastIndex(dim)[k])
    {
      ExtentAtMostSize(dim, k);
    }
  }

  /**
   * What the gate guarantees: once it accepts, every in-bounds index has an
   * offset inside the slice. This holds for slices of at most
   * `isize::MAX + 1` elements, the bound every slice of sized elements
   * meets: a wrapped last offset then reads back too large and is refused.
   */
  lemma AcceptedIndicesInside(dataLen: nat, dim: seq<nat>, strides: seq<int>, index: seq<nat>)
    requires |strides| == |dim|
    requires dataLen <= ISIZE_MAX + 1
    requires Verdict(dataLen, dim, strides) == Ok
    requires InBounds(dim, index)
    ensures 0 <= StrideSum(index, strides) < dataLen
  {
    SizePositive(dim);
    AcceptedLastOffset(dataLen, dim, strides);
    NonNegativeLastOffsetBoundsExtents(dim, strides);
    InsideWhenExtentsFit(dataLen, dim, strides, index);
  }

  /** The last offset of a non-empty layout whose size fits `usize` reads as a negative `isize`. */
  ghost predicate LastOffsetNegative(dim: seq<nat>, strides: seq<int>)
    requires |strides| == |dim|
  {
    && SizeChecked(dim).Some?
    && Size(dim) != 0
    && assert dim[..|dim|] == dim;
       assert forall k :: 0 <= k < |dim| ==> InUsize(LastIndex(dim)[k]) by {
         forall k | 0 <= k < |dim| { ExtentAtMostSize(dim, k); }
       }
       StrideSum(SignedIndex(LastIndex(dim)), strides) < 0
  }

  /**
   * The gate with the sign test its own comment takes for granted: an
   * accepted layout whose last offset reads as a negative `isize` is
   * refused as out of bounds instead.
   */
  ghost function SignCheckedVerdict(dataLen: nat, dim: seq<nat>, strides: seq<int>): Outcome
    requires |strides| == |dim|
  {
    var v := Verdict(dataLen, dim, strides);
    if v == Ok && LastOffsetNegative(dim, strides) then Err(OutOfBounds) else v
  }

  /** The sign-checked gate keeps every in-bounds index of an accepted layout inside the slice, for any slice length. */
  lemma SignCheckedIndicesInside(dataLen: nat, dim: seq<nat>, strides: seq<int>, index: seq<nat>)
    requires |strides| == |dim|
    requires SignCheckedVerdict(dataLen, dim, strides) == Ok
    requires InBounds(dim, index)
    ensures 0 <= StrideSum(index, strides) < dataLen
  {
    SizePositive(dim);
    AcceptedLastOffset(dataLen, dim, strides);
    NonNegativeLastOffsetBoundsExtents(dim, strides);
    InsideWhenExtentsFit(dataLen, dim, strides, index);
  }

  /** For slices of at most `isize::MAX + 1` elements the sign test never changes the verdict. */
  lemma SignCheckAgreesOnSizedSlices(dataLen: nat, dim: seq<nat>, strides: seq<int>)
    requires |strides| == |dim|
    requires dataLen <= ISIZE_MAX + 1
    ensures SignCheckedVerdict(dataLen, dim, strides) == Verdict(dataLen, dim, strides)
  {
    if Verdict(dataLen, dim, strides) == Ok && Size(dim) != 0 {
      AcceptedLastOffset(dataLen, dim, strides);
    }
  }

  /**
   * Over a slice of `usize::MAX` zero-sized elements the gate accepts one
   * axis of extent 2^64 - 2^62 + 1 with stride 2: the last index reads as
   * -2^62 in `isize`, the offset -2^63 reads back as 2^63, below the length,
   * yet the last element sits at 3 * 2^63. The sign-checked gate refuses it.
   */
  lemma GateAcceptsWrappedOffset()
    ensures Verdict(USIZE_MAX, [0xC000_0000_0000_0001], [2]) == Ok
    ensures InBounds([0xC000_0000_0000_0001], [0xC000_0000_0000_0000])
    ensures StrideSum([0xC000_0000_0000_0000], [2]) == 3 * 0x8000_0000_0000_0000 >= USIZE_MAX
    ensures SignCheckedVerdict(USIZE_MAX, [0xC000_0000_0000_0001], [2]) == Err(OutOfBounds)
  {
    WrappedLayoutParts();
    assert [0xC000_0000_0000_0000][..0] == [];
  }

  /** The size, the checked last offset and the overlap verdict of that one-axis layout. */
  lemma WrappedLayoutParts()
    ensures SizeChecked([0xC000_0000_0000_0001]) == Some(0xC000_0000_0000_0001)
    ensures LastIndex([0xC000_0000_0000_0001]) == [0xC000_0000_0000_0000]
    ensures SignedIndex([0xC000_0000_0000_0000]) == [-0x4000_0000_0000_0000]
    ensures StrideSum([-0x4000_0000_0000_0000], [2]) == -0x8000_0000_0000_0000
    ensures ArithmeticOffset([0xC000_0000_0000_0001], [2], [0xC000_0000_0000_0000]) == Some(-0x8000_0000_0000_0000)
    ensures !Overlaps([0xC000_0000_0000_0001], [2])
  {
    var dim, strides := [0xC000_0000_0000_0001], [2];
    var last := LastIndex(dim);
    assert last == [0xC000_0000_0000_0000];
    assert dim[..0] == [] && dim[..1] == dim;
    assert SignedIndex(last) == [-0x4000_0000_0000_0000];
    assert SignedIndex(last)[..1] == SignedIndex(last) && strides[..1] == strides;
    assert StrideSum(SignedIndex(last), strides) == -0x8000_0000_0000_0000;
    assert !ArithmeticFailsAt(dim, strides, last, 0);
    var order := Ix1StrideOrder(strides);
    assert !OverlapAt(dim, strides, order, 0);
  }

  /** The size of shape (2, 3, 2), and the extents of its last index. */
  lemma ExampleShape()
    ensures Size([2, 3, 2]) == 12 && SizeChecked([2, 3, 2]) == Some(12)
    ensures LastIndex([2, 3, 2]) == [1, 2, 1] && SignedIndex([1, 2, 1]) == [1, 2, 1]
  {
    var dim := [2, 3, 2];
    assert dim[..0] == [] && dim[..1] == [2] && dim[..2] == [2, 3] && dim[..3] == dim;
    assert [2, 3][..1] == [2] && [2][..0] == [];
    assert Size(dim[..1]) == 2 && Size(dim[..2]) == 6 && Size(dim) == 12;
    assert forall k :: 0 <= k <= 3 ==> Size(dim[..k]) <= 12;
  }

  /** The checked offset of the last index of shape (2, 3, 2) under positive strides below 100. */
  lemma ExampleLastOffset(strides: seq<int>)
    requires |strides| == 3 && forall k :: 0 <= k < 3 ==> 0 < strides[k] < 100
    ensures ArithmeticOffset([2, 3, 2], strides, [1, 2, 1])
            == Some(strides[0] + 2 * strides[1] + strides[2])
  {
    var dim, last := [2, 3, 2], [1, 2, 1];
    ExampleShape();
    assert last[..0] == [] && strides[..0] == [];
    assert last[..3] == last && strides[..3] == strides;
    StrideSumPrefix(last, strides, 0);
    StrideSumPrefix(last, strides, 1);
    StrideSumPrefix(last, strides, 2);
    assert StrideSum(last[..1], strides[..1]) == strides[0];
    assert StrideSum(last[..2], strides[..2]) == strides[0] + 2 * strides[1];
    assert StrideSum(last, strides) == strides[0] + 2 * strides[1] + strides[2];
    assert !ArithmeticFailsAt(dim, strides, last, 0);
    assert !ArithmeticFailsAt(dim, strides, last, 1);
    assert !ArithmeticFailsAt(dim, strides, last, 2);
  }

  /** Over 12 elements, shape (2, 3, 2) with strides (1, 2, 6) is accepted. */
  lemma AcceptsExample()
    ensures Verdict(12, [2, 3, 2], [1, 2, 6]) == Ok
  {
    ExampleShape();
    ExampleLastOffset([1, 2, 6]);
    NoOverlapExample();
  }

  /** Over 12 elements, strides (2, 4, 12) reach offset 22 and are refused as out of bounds. */
  lemma RefusesExample()
    ensures Verdict(12, [2, 3, 2], [2, 4, 12]) == Err(OutOfBounds)
  {
    ExampleShape();
    ExampleLastOffset([2, 4, 12]);
  }
}
