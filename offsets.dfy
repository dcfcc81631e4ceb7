/**
 * Offset primitives: the signed offset of one axis (`stride_offset`), the
 * unchecked and the bounds-checked offset of a whole index, and the variant
 * that also rejects `isize` overflow (`stride_offset_checked_arithmetic`).
 */
module Offsets {
  import opened Wrappers
  import opened Machine

  /** `stride_offset(n, stride)`: `n` steps of a signed stride; the sign follows the stride. */
  function StrideOffset(n: nat, stride: int): (r: int)
    ensures r < 0 <==> n > 0 && stride < 0
    ensures r == 0 <==> n == 0 || stride == 0
  {
    n * stride
  }

  /** Every component of `index` lies strictly below the matching extent. */
  predicate InBounds(dim: seq<nat>, index: seq<int>)
  {
    |index| == |dim| && forall k :: 0 <= k < |dim| ==> 0 <= index[k] < dim[k]
  }

  /** The linear offset of `index` under `strides`: the sum of `index[k] * strides[k]`. */
  function StrideSum(index: seq<int>, strides: seq<int>): int
    requires |index| == |strides|
  {
    if |index| == 0 then 0
    else StrideSum(index[..|index| - 1], strides[..|index| - 1]) + index[|index| - 1] * strides[|index| - 1]
  }

  /** Summing one more axis adds that axis's term. */
  lemma StrideSumPrefix(index: seq<int>, strides: seq<int>, k: nat)
    requires |index| == |strides| && k < |index|
    ensures StrideSum(index[..k + 1], strides[..k + 1])
            == StrideSum(index[..k], strides[..k]) + index[k] * strides[k]
  {
    assert index[..k + 1][..k] == index[..k];
    assert strides[..k + 1][..k] == strides[..k];
  }

  /** The sum can also be taken first axis first, as the iterator-based sums do. */
  lemma {:induction false} StrideSumFront(index: seq<int>, strides: seq<int>)
    requires |index| == |strides| && |index| > 0
    ensures StrideSum(index, strides) == index[0] * strides[0] + StrideSum(index[1..], strides[1..])
  {
    var n := |index|;
    if n > 1 {
      StrideSumFront(index[..n - 1], strides[..n - 1]);
      assert index[..n - 1][1..] == index[1..][..n - 2];
      assert strides[..n - 1][1..] == strides[1..][..n - 2];
    } else {
      assert index[1..] == [] && strides[1..] == [];
    }
  }

  /** Replacing one component moves the offset by the change times that axis's stride. */
  lemma {:induction false} StrideSumUpdate(index: seq<int>, strides: seq<int>, axis: nat, v: int)
    requires |index| == |strides| && axis < |index|
    ensures StrideSum(index[axis := v], strides) == StrideSum(index, strides) + (v - index[axis]) * strides[axis]
  {
    var n := |index|;
    var u := index[axis := v];
    assert u[..n - 1] == if axis < n - 1 then index[..n - 1][axis := v] else index[..n - 1];
    if axis < n - 1 {
      StrideSumUpdate(index[..n - 1], strides[..n - 1], axis, v);
    }
  }

  /** The all-zero index has offset 0. */
  lemma {:induction false} StrideSumZero(index: seq<int>, strides: seq<int>)
    requires |index| == |strides|
    requires forall k :: 0 <= k < |index| ==> index[k] == 0
    ensures StrideSum(index, strides) == 0
  {
    if |index| > 0 {
      StrideSumZero(index[..|index| - 1], strides[..|index| - 1]);
    }
  }

  /** Multiplication by a natural number is monotone. */
  lemma MulMonotone(a: nat, b: nat, d: nat)
    requires a <= b
    ensures a * d <= b * d
  {
  }

  /** `Dimension::stride_offset`: the unchecked offset of `index`, one axis at a time. */
  method IndexStrideOffset(index: seq<nat>, strides: seq<int>) returns (offset: int)
    requires |index| == |strides|
    ensures offset == StrideSum(index, strides)
  {
    offset := 0;
    var k := 0;
    while k < |index|
      invariant 0 <= k <= |index|
      invariant offset == StrideSum(index[..k], strides[..k])
    {
      StrideSumPrefix(index, strides, k);
      offset := offset + StrideOffset(index[k], strides[k]);
      k := k + 1;
    }
    assert index[..k] == index && strides[..k] == strides;
  }

  /** The value `stride_offset_checked` computes: the offset when `index` is in bounds. */
  function CheckedOffset(dim: seq<nat>, strides: seq<int>, index: seq<nat>): Option<int>
    requires |dim| == |strides| && |index| == |dim|
  {
    if InBounds(dim, index) then Some(StrideSum(index, strides)) else None
  }

  /** `Dimension::stride_offset_checked`: `None` exactly when some component is out of bounds. */
  method StrideOffsetChecked(dim: seq<nat>, strides: seq<int>, index: seq<nat>) returns (r: Option<int>)
    requires |dim| == |strides| && |index| == |dim|
    ensures r.None? <==> exists k :: 0 <= k < |dim| && index[k] >= dim[k]
    ensures r.Some? ==> r.value == StrideSum(index, strides)
    ensures r == CheckedOffset(dim, strides, index)
  {
    var offset := 0;
    var k := 0;
    while k < |dim|
      invariant 0 <= k <= |dim|
      invariant forall j :: 0 <= j < k ==> index[j] < dim[j]
      invariant offset == StrideSum(index[..k], strides[..k])
    {
      if index[k] >= dim[k] {
        return None;
      }
      StrideSumPrefix(index, strides, k);
      offset := offset + StrideOffset(index[k], strides[k]);
      k := k + 1;
    }
    assert index[..k] == index && strides[..k] == strides;
    return Some(offset);
  }

  /** The components of an index reinterpreted as `isize` (`i as isize`). */
  function SignedIndex(index: seq<nat>): seq<int>
    requires forall k :: 0 <= k < |index| ==> InUsize(index[k])
  {
    seq(|index|, k requires 0 <= k < |index| => AsIsize(index[k]))
  }

  /**
   * Why `stride_offset_checked_arithmetic` gives up at axis `k`: the component is
   * out of bounds, its product with the stride leaves `isize`, or the running
   * sum does.
   */
  ghost predicate ArithmeticFailsAt(dim: seq<nat>, strides: seq<int>, index: seq<nat>, k: nat)
    requires |dim| == |strides| && |index| == |dim| && k < |dim|
    requires forall j :: 0 <= j < |index| ==> InUsize(index[j])
  {
    || index[k] >= dim[k]
    || !InIsize(AsIsize(index[k]) * strides[k])
    || !InIsize(StrideSum(SignedIndex(index)[..k + 1], strides[..k + 1]))
  }

  /** The value `stride_offset_checked_arithmetic` computes: the signed offset unless some axis gives up. */
  ghost function ArithmeticOffset(dim: seq<nat>, strides: seq<int>, index: seq<nat>): (r: Option<int>)
    requires |dim| == |strides| && |index| == |dim|
    requires forall k :: 0 <= k < |index| ==> InUsize(index[k])
    ensures r.Some? ==> InIsize(r.value)
  {
    if exists k :: 0 <= k < |dim| && ArithmeticFailsAt(dim, strides, index, k) then None
    else
      var n := |dim|;
      assert n > 0 ==> !ArithmeticFailsAt(dim, strides, index, n - 1);
      assert SignedIndex(index)[..n] == SignedIndex(index) && strides[..n] == strides;
      Some(StrideSum(SignedIndex(index), strides))
  }

  /**
   * `stride_offset_checked_arithmetic`: the bounds-checked offset computed with
   * overflow-checked `isize` multiplication and addition.
   */
  method StrideOffsetCheckedArithmetic(dim: seq<nat>, strides: seq<int>, index: seq<nat>) returns (r: Option<int>)
    requires |dim| == |strides| && |index| == |dim|
    requires forall k :: 0 <= k < |index| ==> InUsize(index[k])
    ensures r.None? <==> exists k :: 0 <= k < |dim| && ArithmeticFailsAt(dim, strides, index, k)
    ensures r.Some? ==> InBounds(dim, index) && InIsize(r.value)
    ensures r.Some? ==> r.value == StrideSum(SignedIndex(index), strides)
    ensures r.Some? && (forall k :: 0 <= k < |index| ==> index[k] <= ISIZE_MAX) ==> r == CheckedOffset(dim, strides, index)
    ensures r == ArithmeticOffset(dim, strides, index)
  {
    ghost var signed := SignedIndex(index);
    var offset := 0;
    var k := 0;
    while k < |dim|
      invariant 0 <= k <= |dim|
      invariant forall j :: 0 <= j < k ==> !ArithmeticFailsAt(dim, strides, index, j)
      invariant forall j :: 0 <= j < k ==> index[j] < dim[j]
      invariant offset == StrideSum(signed[..k], strides[..k]) && InIsize(offset)
    {
      StrideSumPrefix(signed, strides, k);
      if index[k] >= dim[k] {
        assert ArithmeticFailsAt(dim, strides, index, k);
        return None;
      }
      var term := AsIsize(index[k]) * strides[k];
      assert term == signed[k] * strides[k];
      if !InIsize(term) || !InIsize(term + offset) {
        assert ArithmeticFailsAt(dim, strides, index, k);
        return None;
      }
      offset := term + offset;
      k := k + 1;
    }
    assert signed[..k] == signed && strides[..k] == strides;
    if forall j :: 0 <= j < |index| ==> index[j] <= ISIZE_MAX {
      assert signed == index;
    }
    return Some(offset);
  }
}
