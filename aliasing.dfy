/**
 * A corrected overlap test, the exact-span rule: walking the axes fastest
 * first, an axis of extent at least 2 must have a stride beyond the span
 * `sum of (extent - 1) * stride` of every axis walked before it, and an empty
 * axis means there is nothing to overlap. With non-negative strides that
 * passes, distinct in-bounds indices have distinct offsets.
 *
 * The rule accepts more than the one in the doc comment of
 * `dim_stride_overlap`, which calls a stride below `sum of extent * stride`
 * of the faster axes an overlap: shape (2, 2) with strides (2, 3) fails that
 * rule and the code's test (3 < 2 * 2), yet passes the exact-span rule, for
 * its four offsets 0, 2, 3, 5 are distinct.
 */
module Aliasing {
  import opened Order
  import opened Offsets
  import opened Overlap

  /** The largest offset reachable with the axes at positions `0 .. j-1` of `order`. */
  function Span(dim: seq<nat>, strides: seq<int>, order: seq<nat>, j: nat): int
    requires |strides| == |dim| && AxesBelow(order, |dim|) && j <= |order|
  {
    if j == 0 then 0
    else Span(dim, strides, order, j - 1) + (dim[order[j - 1]] - 1) * strides[order[j - 1]]
  }

  /** The exact-span test at position `j`. */
  predicate SpanOverlapAt(dim: seq<nat>, strides: seq<int>, order: seq<nat>, j: nat)
    requires |strides| == |dim| && AxesBelow(order, |dim|) && j < |order|
  {
    dim[order[j]] >= 2 && strides[order[j]] <= Span(dim, strides, order, j)
  }

  /** Some position fails the exact-span test before the walk meets an empty axis. */
  ghost predicate SpanOverlaps(dim: seq<nat>, strides: seq<int>)
    requires |strides| == |dim|
  {
    var order := FastestVaryingStrideOrder(strides);
    exists j :: 0 <= j < |order| && SpanOverlapAt(dim, strides, order, j)
                && forall l :: 0 <= l < j ==> dim[order[l]] != 0
  }

  /** The overlap test with a running span in place of `prev_offset`. */
  method DimStrideOverlapSpan(dim: seq<nat>, strides: seq<int>) returns (r: bool)
    requires |strides| == |dim|
    ensures r <==> SpanOverlaps(dim, strides)
  {
    var order := FastestVaryingStrideOrder(strides);
    var span := 0;
    for j := 0 to |order|
      invariant span == Span(dim, strides, order, j)
      invariant forall l :: 0 <= l < j ==> dim[order[l]] != 0 && !SpanOverlapAt(dim, strides, order, l)
    {
      var index := order[j];
      var d, s := dim[index], strides[index];
      if d == 0 {
        NoSpanOverlapBefore(dim, strides, j);
        return false;
      }
      if d != 1 {
        if s <= span {
          assert SpanOverlapAt(dim, strides, order, j);
          return true;
        }
      }
      assert !SpanOverlapAt(dim, strides, order, j);
      span := span + (d - 1) * s;
    }
    NoSpanOverlapBefore(dim, strides, |order|);
    return false;
  }

  /**
   * The walk ends without an overlap at position `j` when every earlier
   * position passed and position `j` is an empty axis or the end.
   */
  lemma NoSpanOverlapBefore(dim: seq<nat>, strides: seq<int>, j: nat)
    requires |strides| == |dim|
    requires var order := FastestVaryingStrideOrder(strides);
             && j <= |order|
             && (forall l :: 0 <= l < j ==> !SpanOverlapAt(dim, strides, order, l))
             && (j < |order| ==> dim[order[j]] == 0)
    ensures !SpanOverlaps(dim, strides)
  {
  }

  /** The offset summed along `order`, positions `0 .. j-1`. */
  function OrderedSum(index: seq<nat>, strides: seq<int>, order: seq<nat>, j: nat): int
    requires |strides| == |index| && AxesBelow(order, |index|) && j <= |order|
  {
    if j == 0 then 0
    else OrderedSum(index, strides, order, j - 1) + index[order[j - 1]] * strides[order[j - 1]]
  }

  /** `index` with the components of the axes outside `order[..j]` set to 0. */
  function Restrict(index: seq<nat>, order: seq<nat>, j: nat): (r: seq<nat>)
    requires j <= |order|
    ensures |r| == |index|
  {
    seq(|index|, k requires 0 <= k < |index| => if k in order[..j] then index[k] else 0)
  }

  /** No axis appears twice in `order`. */
  predicate Distinct(order: seq<nat>)
  {
    forall i, j :: 0 <= i < j < |order| ==> order[i] != order[j]
  }

  /** Summing along a repetition-free `order` is summing over the axes it lists. */
  lemma {:induction false} OrderedSumRestrict(index: seq<nat>, strides: seq<int>, order: seq<nat>, j: nat)
    requires |strides| == |index| && AxesBelow(order, |index|) && j <= |order| && Distinct(order)
    ensures StrideSum(Restrict(index, order, j), strides) == OrderedSum(index, strides, order, j)
  {
    if j == 0 {
      StrideSumZero(Restrict(index, order, 0), strides);
    } else {
      OrderedSumRestrict(index, strides, order, j - 1);
      var a := order[j - 1];
      var before := Restrict(index, order, j - 1);
      assert a !in order[..j - 1];
      assert before[a] == 0;
      assert Restrict(index, order, j) == before[a := index[a]];
      StrideSumUpdate(before, strides, a, index[a]);
    }
  }

  /** On a permutation of all axes the ordered sum is the offset. */
  lemma OrderedSumIsOffset(index: seq<nat>, strides: seq<int>, order: seq<nat>)
    requires |strides| == |index| && AxesBelow(order, |index|) && Distinct(order)
    requires forall k :: 0 <= k < |index| ==> k in order
    ensures StrideSum(index, strides) == OrderedSum(index, strides, order, |order|)
  {
    OrderedSumRestrict(index, strides, order, |order|);
    assert order[..|order|] == order;
    assert Restrict(index, order, |order|) == index;
  }

  /** An in-bounds index reaches at most the span, with non-negative strides. */
  lemma {:induction false} OrderedSumBound(dim: seq<nat>, strides: seq<int>, order: seq<nat>, index: seq<nat>, j: nat)
    requires |strides| == |dim| && AxesBelow(order, |dim|) && j <= |order|
    requires InBounds(dim, index) && forall k :: 0 <= k < |strides| ==> strides[k] >= 0
    ensures 0 <= OrderedSum(index, strides, order, j) <= Span(dim, strides, order, j)
  {
    if j > 0 {
      OrderedSumBound(dim, strides, order, index, j - 1);
      var a := order[j - 1];
      assert index[a] * strides[a] <= (dim[a] - 1) * strides[a];
    }
  }

  /**
   * Two in-bounds indices that differ on an axis among the first `m` of
   * the walk have different ordered sums when no position fails the test.
   */
  lemma {:induction false} OrderedSumsDiffer(dim: seq<nat>, strides: seq<int>, order: seq<nat>,
                                             a: seq<nat>, b: seq<nat>, m: nat)
    requires |strides| == |dim| && AxesBelow(order, |dim|) && m <= |order|
    requires forall k :: 0 <= k < |strides| ==> strides[k] >= 0
    requires InBounds(dim, a) && InBounds(dim, b)
    requires forall l :: 0 <= l < |order| ==> !SpanOverlapAt(dim, strides, order, l)
    requires exists l :: 0 <= l < m && a[order[l]] != b[order[l]]
    ensures OrderedSum(a, strides, order, m) != OrderedSum(b, strides, order, m)
  {
    var l := m - 1;
    var x := order[l];
    if a[x] == b[x] {
      OrderedSumsDiffer(dim, strides, order, a, b, l);
    } else {
      OrderedSumBound(dim, strides, order, a, l);
      OrderedSumBound(dim, strides, order, b, l);
      assert !SpanOverlapAt(dim, strides, order, l);
      assert dim[x] >= 2;
      Separated(OrderedSum(a, strides, order, l), OrderedSum(b, strides, order, l),
                Span(dim, strides, order, l), a[x], b[x], strides[x]);
    }
  }

  /** Two partial sums within a span, plus different multiples of a stride beyond it, differ. */
  lemma Separated(p: int, q: int, span: int, i: nat, j: nat, s: int)
    requires 0 <= p <= span && 0 <= q <= span && span < s && i != j
    ensures p + i * s != q + j * s
  {
    if i > j {
      StepBeyond(j, i - j, s);
    } else {
      StepBeyond(i, j - i, s);
    }
  }

  /** Going `c >= 1` further multiples of a non-negative stride moves at least one stride. */
  lemma StepBeyond(j: nat, c: nat, s: int)
    requires c >= 1 && s >= 0
    ensures (j + c) * s == j * s + c * s && c * s >= s
  {
    assert (j + c) * s == j * s + c * s;
    assert c * s == s + (c - 1) * s;
  }

  /**
   * With non-negative strides that pass the exact-span test, distinct
   * in-bounds indices have distinct offsets: no element is reachable twice.
   */
  lemma NoSpanOverlapInjective(dim: seq<nat>, strides: seq<int>, a: seq<nat>, b: seq<nat>)
    requires |strides| == |dim| && forall k :: 0 <= k < |strides| ==> strides[k] >= 0
    requires !SpanOverlaps(dim, strides)
    requires InBounds(dim, a) && InBounds(dim, b) && a != b
    ensures StrideSum(a, strides) != StrideSum(b, strides)
  {
    var order := FastestVaryingStrideOrder(strides);
    assert Distinct(order) by {
      forall i, j | 0 <= i < j < |order|
        ensures order[i] != order[j]
      {
        assert Before(strides, order[i], order[j]);
      }
    }
    forall l | 0 <= l < |order|
      ensures !SpanOverlapAt(dim, strides, order, l)
    {
      assert forall t :: 0 <= t < l ==> dim[order[t]] != 0;
    }
    var k :| 0 <= k < |a| && a[k] != b[k];
    assert k in order;
    var l :| 0 <= l < |order| && order[l] == k;
    OrderedSumsDiffer(dim, strides, order, a, b, |order|);
    OrderedSumIsOffset(a, strides, order);
    OrderedSumIsOffset(b, strides, order);
  }

  /** The exact-span test rejects the aliasing layout that the published test lets through. */
  lemma SpanOverlapCatchesAliasing()
    ensures SpanOverlaps([3, 1, 2], [1, 1, 2])
  {
    StableOrderOfThree([1, 1, 2], [0, 1, 2]);
    StableOrderUnique([1, 1, 2], [0, 1, 2]);
    assert SpanOverlapAt([3, 1, 2], [1, 1, 2], [0, 1, 2], 2);
  }

  /** On the documented examples the exact-span test gives the published verdicts. */
  lemma SpanOverlapExamples()
    ensures SpanOverlaps([2, 3, 2], [5, 2, 1])
    ensures !SpanOverlaps([2, 3, 2], [6, 2, 1])
    ensures SpanOverlaps([2, 3, 2], [6, 0, 1])
  {
    ExampleOrders();
    SpanExampleOverlap();
    SpanExampleSeparate();
    assert SpanOverlapAt([2, 3, 2], [6, 0, 1], [1, 2, 0], 0);
  }

  /** Strides (5, 2, 1): the outer axis's stride 5 does not clear the span 5 below it. */
  lemma SpanExampleOverlap()
    requires FastestVaryingStrideOrder([5, 2, 1]) == [2, 1, 0]
    ensures SpanOverlaps([2, 3, 2], [5, 2, 1])
  {
    var dim, strides, order := [2, 3, 2], [5, 2, 1], [2, 1, 0];
    assert Span(dim, strides, order, 1) == 1;
    assert Span(dim, strides, order, 2) == 5;
    assert SpanOverlapAt(dim, strides, order, 2);
  }

  /** Strides (6, 2, 1): every axis clears the span of the axes inside it. */
  lemma SpanExampleSeparate()
    requires FastestVaryingStrideOrder([6, 2, 1]) == [2, 1, 0]
    ensures !SpanOverlaps([2, 3, 2], [6, 2, 1])
  {
    var dim, strides, order := [2, 3, 2], [6, 2, 1], [2, 1, 0];
    assert Span(dim, strides, order, 1) == 1;
    assert Span(dim, strides, order, 2) == 5;
    assert !SpanOverlapAt(dim, strides, order, 0);
    assert !SpanOverlapAt(dim, strides, order, 1);
    assert !SpanOverlapAt(dim, strides, order, 2);
    NoSpanOverlapBefore(dim, strides, 3);
  }

  /**
   * Shape (2, 2) with strides (2, 3): the published test reports an overlap,
   * as the documented rule does, but the exact-span rule accepts the layout,
   * and it is right to, since its offsets are distinct.
   */
  lemma SpanRuleLooserThanDocumented()
    ensures Overlaps([2, 2], [2, 3])
    ensures !SpanOverlaps([2, 2], [2, 3])
    ensures forall a: seq<nat>, b: seq<nat> :: InBounds([2, 2], a) && InBounds([2, 2], b) && a != b
              ==> StrideSum(a, [2, 3]) != StrideSum(b, [2, 3])
  {
    var strides, order := [2, 3], [0, 1];
    assert IsStableOrder(strides, order) by {
      assert 0 in order && 1 in order;
    }
    StableOrderUnique(strides, order);
    LooserVerdicts();
    forall a: seq<nat>, b: seq<nat> | InBounds([2, 2], a) && InBounds([2, 2], b) && a != b
      ensures StrideSum(a, strides) != StrideSum(b, strides)
    {
      NoSpanOverlapInjective([2, 2], strides, a, b);
    }
  }

  /** The two verdicts on shape (2, 2) with strides (2, 3), walked in the order (0, 1). */
  lemma LooserVerdicts()
    requires FastestVaryingStrideOrder([2, 3]) == [0, 1]
    ensures Overlaps([2, 2], [2, 3])
    ensures !SpanOverlaps([2, 2], [2, 3])
  {
    var dim, strides, order := [2, 2], [2, 3], [0, 1];
    assert PrevOffset(dim, strides, order, 1) == 4;
    assert OverlapAt(dim, strides, order, 1);
    assert Span(dim, strides, order, 1) == 2;
    assert !SpanOverlapAt(dim, strides, order, 0);
    assert !SpanOverlapAt(dim, strides, order, 1);
    NoSpanOverlapBefore(dim, strides, 2);
  }
}
