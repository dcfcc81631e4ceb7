/**
 * `first_index` and `next_for`: the iteration protocol that walks every
 * in-bounds index of a shape in row-major (last axis fastest) order.
 * An index is identified with its position `Rank` in that order; `Unrank`
 * is the inverse, so the protocol visits `Unrank(0)`, `Unrank(1)`, … in turn.
 */
module Enumeration {
  import opened Wrappers
  import opened Sizes
  import opened Strides
  import opened Offsets

  /** The index with every component 0. */
  function Zeros(n: nat): (r: seq<nat>)
    ensures |r| == n && forall k :: 0 <= k < n ==> r[k] == 0
  {
    seq(n, _ => 0)
  }

  /** The position of `index` in the row-major order: its digits in the mixed radix `dim`. */
  function Rank(dim: seq<nat>, index: seq<nat>): nat
    requires |index| == |dim|
  {
    if |dim| == 0 then 0
    else
      var n := |dim| - 1;
      Rank(dim[..n], index[..n]) * dim[n] + index[n]
  }

  /** The index at position `r` of the row-major order. */
  function Unrank(dim: seq<nat>, r: nat): (index: seq<nat>)
    requires r < Size(dim)
    ensures |index| == |dim|
  {
    if |dim| == 0 then []
    else
      var n := |dim| - 1;
      assert dim[n] > 0;
      UnrankQuotientBound(dim, r);
      Unrank(dim[..n], r / dim[n]) + [r % dim[n]]
  }

  /** Dividing a position by the last extent gives a position of the shape without it. */
  lemma UnrankQuotientBound(dim: seq<nat>, r: nat)
    requires |dim| > 0 && r < Size(dim)
    ensures dim[|dim| - 1] > 0 && r / dim[|dim| - 1] < Size(dim[..|dim| - 1])
  {
    var n := |dim| - 1;
    var d, s := dim[n], Size(dim[..n]);
    assert Size(dim) == s * d;
    assert d > 0;
    var q := r / d;
    assert q * d <= r;
    if q >= s {
      MulMonotone(s, q, d);
      assert false;
    }
  }

  /** The last digit and the rest of a mixed-radix number are recovered by division. */
  lemma DigitSplit(q: nat, d: nat, i: nat)
    requires i < d
    ensures (q * d + i) / d == q && (q * d + i) % d == i
  {
    var x := q * d + i;
    var q', i' := x / d, x % d;
    assert x == q' * d + i';
    if q' < q {
      MulMonotone(q' + 1, q, d);
    } else if q' > q {
      MulMonotone(q + 1, q', d);
    }
  }

  /** An in-bounds index has a position below the size. */
  lemma {:induction false} RankBound(dim: seq<nat>, index: seq<nat>)
    requires InBounds(dim, index)
    ensures Rank(dim, index) < Size(dim)
  {
    if |dim| > 0 {
      var n := |dim| - 1;
      RankBound(dim[..n], index[..n]);
      var p := Rank(dim[..n], index[..n]);
      assert p * dim[n] + index[n] < (p + 1) * dim[n] <= Size(dim[..n]) * dim[n];
    }
  }

  /** `Unrank` produces an in-bounds index with the requested position. */
  lemma {:induction false} RankUnrank(dim: seq<nat>, r: nat)
    requires r < Size(dim)
    ensures InBounds(dim, Unrank(dim, r)) && Rank(dim, Unrank(dim, r)) == r
  {
    if |dim| > 0 {
      var n := |dim| - 1;
      var d := dim[n];
      UnrankQuotientBound(dim, r);
      RankUnrank(dim[..n], r / d);
      var u := Unrank(dim, r);
      assert u[..n] == Unrank(dim[..n], r / d);
      assert r == (r / d) * d + r % d;
    }
  }

  /** Every in-bounds index is `Unrank` of its position: distinct indices have distinct positions. */
  lemma {:induction false} UnrankRank(dim: seq<nat>, index: seq<nat>)
    requires InBounds(dim, index)
    ensures Rank(dim, index) < Size(dim) && Unrank(dim, Rank(dim, index)) == index
  {
    RankBound(dim, index);
    if |dim| > 0 {
      var n := |dim| - 1;
      var d := dim[n];
      var p := Rank(dim[..n], index[..n]);
      DigitSplit(p, d, index[n]);
      UnrankRank(dim[..n], index[..n]);
      assert index == index[..n] + [index[n]];
    }
  }

  /** Two in-bounds indices at the same position are equal. */
  lemma RankInjective(dim: seq<nat>, a: seq<nat>, b: seq<nat>)
    requires InBounds(dim, a) && InBounds(dim, b)
    requires Rank(dim, a) == Rank(dim, b)
    ensures a == b
  {
    UnrankRank(dim, a);
    UnrankRank(dim, b);
  }

  /** Multiplying every stride by `c` multiplies the offset by `c`. */
  lemma {:induction false} StrideSumScale(index: seq<int>, strides: seq<int>, c: int, scaled: seq<int>)
    requires |index| == |strides| == |scaled|
    requires forall k :: 0 <= k < |strides| ==> scaled[k] == c * strides[k]
    ensures StrideSum(index, scaled) == c * StrideSum(index, strides)
  {
    var n := |index|;
    if n > 0 {
      StrideSumScale(index[..n - 1], strides[..n - 1], c, scaled[..n - 1]);
      assert index[n - 1] * scaled[n - 1] == c * (index[n - 1] * strides[n - 1]);
    }
  }

  /**
   * Under the default (row-major) strides the memory offset of an index is its
   * position in the iteration order: the traversal reads memory sequentially.
   */
  lemma {:induction false} RowMajorOffsetIsRank(dim: seq<nat>, index: seq<nat>)
    requires |index| == |dim|
    ensures StrideSum(index, RowMajor(dim)) == Rank(dim, index)
  {
    var n := |dim|;
    if n > 0 {
      var front := dim[..n - 1];
      var rm := RowMajor(dim);
      forall k | 0 <= k < n - 1
        ensures rm[..n - 1][k] == dim[n - 1] * RowMajor(front)[k]
      {
        SizeSplit(dim[k + 1..], n - 1 - (k + 1));
        assert dim[k + 1..][..n - 1 - (k + 1)] == front[k + 1..];
        assert dim[k + 1..][n - 1 - (k + 1)..] == [dim[n - 1]];
        assert Size([dim[n - 1]]) == dim[n - 1] by {
          assert [dim[n - 1]][..0] == [];
        }
      }
      StrideSumScale(index[..n - 1], RowMajor(front), dim[n - 1], rm[..n - 1]);
      RowMajorOffsetIsRank(front, index[..n - 1]);
      assert rm[n - 1] == 1 by {
        assert dim[n..] == [];
      }
    }
  }

  /** The start of the walk: no index when some axis is empty, the zero index otherwise. */
  method FirstIndex(dim: seq<nat>) returns (r: Option<seq<nat>>)
    ensures r.None? <==> exists k :: 0 <= k < |dim| && dim[k] == 0
    ensures r.Some? ==> Size(dim) > 0 && r.value == Unrank(dim, 0)
  {
    for k := 0 to |dim|
      invariant forall j :: 0 <= j < k ==> dim[j] != 0
    {
      if dim[k] == 0 {
        return None;
      }
    }
    var index := dim;
    for k := 0 to |index|
      invariant |index| == |dim|
      invariant forall j :: 0 <= j < k ==> index[j] == 0
    {
      index := index[k := 0];
    }
    assert Size(dim) > 0;
    UnrankZero(dim);
    return Some(index);
  }

  /** The first position is the zero index. */
  lemma {:induction false} UnrankZero(dim: seq<nat>)
    requires Size(dim) > 0
    ensures Unrank(dim, 0) == Zeros(|dim|)
  {
    if |dim| > 0 {
      var n := |dim| - 1;
      UnrankZero(dim[..n]);
    }
  }

  /** Padding by `m` and then by `l` pads by `m + l`. */
  lemma PadPad(o: Option<seq<nat>>, m: nat, l: nat)
    ensures Pad(Pad(o, m), l) == Pad(o, m + l)
  {
    if o.Some? {
      assert Zeros(m) + Zeros(l) == Zeros(m + l);
      assert o.value + Zeros(m) + Zeros(l) == o.value + Zeros(m + l);
    }
  }

  /** Appends `m` zero components to an optional index. */
  function Pad(o: Option<seq<nat>>, m: nat): (r: Option<seq<nat>>)
    ensures r.Some? <==> o.Some?
    ensures r.Some? ==> r.value == o.value + Zeros(m)
  {
    match o
    case None => None
    case Some(p) => Some(p + Zeros(m))
  }

  /**
   * The successor rule of the generic `next_for`: increment the last component;
   * if it reaches its extent, reset it and carry into the axes before it; a
   * carry out of the first axis ends the walk.
   */
  function Successor(dim: seq<nat>, index: seq<nat>): Option<seq<nat>>
    requires |index| == |dim|
  {
    if |dim| == 0 then None
    else
      var n := |dim| - 1;
      if index[n] + 1 == dim[n] then Pad(Successor(dim[..n], index[..n]), 1)
      else Some(index[..n] + [index[n] + 1])
  }

  /**
   * On an in-bounds index the successor is the index at the next position,
   * and there is none exactly when the index is the last one.
   */
  lemma {:induction false} SuccessorStep(dim: seq<nat>, index: seq<nat>)
    requires InBounds(dim, index)
    ensures Successor(dim, index).None? <==> Rank(dim, index) + 1 == Size(dim)
    ensures Successor(dim, index).Some? ==>
              InBounds(dim, Successor(dim, index).value)
              && Rank(dim, Successor(dim, index).value) == Rank(dim, index) + 1
  {
    if |dim| > 0 {
      var n := |dim| - 1;
      if index[n] + 1 == dim[n] {
        SuccessorStep(dim[..n], index[..n]);
        SuccessorCarry(dim, index);
      } else {
        SuccessorNoCarry(dim, index);
      }
    }
  }

  /** The step without a carry: the last component grows by one. */
  lemma SuccessorNoCarry(dim: seq<nat>, index: seq<nat>)
    requires InBounds(dim, index) && |dim| > 0
    requires index[|dim| - 1] + 1 != dim[|dim| - 1]
    ensures Successor(dim, index).Some?
    ensures Rank(dim, index) + 1 != Size(dim)
    ensures InBounds(dim, Successor(dim, index).value)
            && Rank(dim, Successor(dim, index).value) == Rank(dim, index) + 1
  {
    var n := |dim| - 1;
    var front, p, i, d := dim[..n], index[..n], index[n], dim[n];
    RankBound(front, p);
    var rp := Rank(front, p);
    var q := p + [i + 1];
    assert q[..n] == p;
    assert Rank(dim, q) == rp * d + i + 1 == Rank(dim, index) + 1;
    MulMonotone(rp + 1, Size(front), d);
    assert Size(dim) == Size(front) * d;
  }

  /** The step with a carry, given the step for the axes before the last. */
  lemma SuccessorCarry(dim: seq<nat>, index: seq<nat>)
    requires InBounds(dim, index) && |dim| > 0
    requires index[|dim| - 1] + 1 == dim[|dim| - 1]
    requires var n := |dim| - 1;
             && (Successor(dim[..n], index[..n]).None? <==> Rank(dim[..n], index[..n]) + 1 == Size(dim[..n]))
             && (Successor(dim[..n], index[..n]).Some? ==>
                  InBounds(dim[..n], Successor(dim[..n], index[..n]).value)
                  && Rank(dim[..n], Successor(dim[..n], index[..n]).value) == Rank(dim[..n], index[..n]) + 1)
    ensures Successor(dim, index).None? <==> Rank(dim, index) + 1 == Size(dim)
    ensures Successor(dim, index).Some? ==>
              InBounds(dim, Successor(dim, index).value)
              && Rank(dim, Successor(dim, index).value) == Rank(dim, index) + 1
  {
    var n := |dim| - 1;
    var front, p, d := dim[..n], index[..n], dim[n];
    var rp := Rank(front, p);
    assert Size(dim) == Size(front) * d;
    assert Rank(dim, index) == rp * d + (d - 1);
    CarryArith(rp, d);
    MulCancel(rp + 1, Size(front), d);
    match Successor(front, p)
    case None =>
    case Some(q) =>
      var q' := q + [0];
      assert q'[..n] == q;
      assert Rank(dim, q') == Rank(front, q) * d;
  }

  /** A carry out of the last digit: position `rp * d + (d - 1)` is followed by `(rp + 1) * d`. */
  lemma CarryArith(rp: nat, d: nat)
    requires d > 0
    ensures rp * d + (d - 1) + 1 == (rp + 1) * d
  {
  }

  /** Multiplication by a positive number is injective. */
  lemma MulCancel(a: nat, b: nat, d: nat)
    requires d > 0
    ensures a * d == b * d <==> a == b
  {
    if a < b {
      MulMonotone(a + 1, b, d);
    } else if a > b {
      MulMonotone(b + 1, a, d);
    }
  }

  /**
   * The walk in terms of positions: from the index at position `r` the
   * successor is the index at `r + 1`, or none after the last position.
   */
  lemma SuccessorOfUnrank(dim: seq<nat>, r: nat)
    requires r < Size(dim)
    ensures Successor(dim, Unrank(dim, r))
            == if r + 1 < Size(dim) then Some(Unrank(dim, r + 1)) else None
  {
    RankUnrank(dim, r);
    SuccessorStep(dim, Unrank(dim, r));
    if r + 1 < Size(dim) {
      UnrankRank(dim, Successor(dim, Unrank(dim, r)).value);
    }
  }

  /** `a` comes before `b` in lexicographic order. */
  predicate LexLess(a: seq<nat>, b: seq<nat>)
    requires |a| == |b|
  {
    exists k :: 0 <= k < |a| && a[..k] == b[..k] && a[k] < b[k]
  }

  /** A lower position means a lexicographically smaller index. */
  lemma {:induction false} RankOrderIsLexOrder(dim: seq<nat>, a: seq<nat>, b: seq<nat>)
    requires InBounds(dim, a) && InBounds(dim, b)
    requires Rank(dim, a) < Rank(dim, b)
    ensures LexLess(a, b)
  {
    var n := |dim| - 1;
    var front, d := dim[..n], dim[n];
    var ra, rb := Rank(front, a[..n]), Rank(front, b[..n]);
    if ra < rb {
      RankOrderIsLexOrder(front, a[..n], b[..n]);
      var k :| 0 <= k < n && a[..n][..k] == b[..n][..k] && a[..n][k] < b[..n][k];
      assert a[..k] == a[..n][..k] && b[..k] == b[..n][..k];
    } else if ra == rb {
      RankInjective(front, a[..n], b[..n]);
      assert a[n] < b[n];
    } else {
      MulMonotone(rb + 1, ra, d);
      assert false;
    }
  }

  /** The positions `0 .. Size - 1` in order: the indices the walk visits. */
  function Traversal(dim: seq<nat>): (t: seq<seq<nat>>)
    ensures |t| == Size(dim)
  {
    seq(Size(dim), r requires 0 <= r < Size(dim) => Unrank(dim, r))
  }

  /** The walk starts at the zero index, the one `first_index` returns. */
  lemma TraversalStart(dim: seq<nat>)
    requires Size(dim) > 0
    ensures Traversal(dim)[0] == Zeros(|dim|)
  {
    UnrankZero(dim);
  }

  /**
   * Each visited index is in bounds, and the successor rule leads from each
   * one to the next, and from the last one to the end of the walk.
   */
  lemma TraversalSteps(dim: seq<nat>, r: nat)
    requires r < Size(dim)
    ensures InBounds(dim, Traversal(dim)[r])
    ensures Successor(dim, Traversal(dim)[r])
            == if r + 1 < Size(dim) then Some(Traversal(dim)[r + 1]) else None
  {
    RankUnrank(dim, r);
    SuccessorOfUnrank(dim, r);
  }

  /** The walk is strictly increasing in lexicographic order, so it visits no index twice. */
  lemma TraversalIncreasing(dim: seq<nat>, i: nat, j: nat)
    requires i < j < Size(dim)
    ensures LexLess(Traversal(dim)[i], Traversal(dim)[j])
  {
    var t := Traversal(dim);
    RankUnrank(dim, i);
    RankUnrank(dim, j);
    RankOrderIsLexOrder(dim, t[i], t[j]);
  }

  /** Every in-bounds index is visited, at its position. */
  lemma TraversalComplete(dim: seq<nat>, index: seq<nat>)
    requires InBounds(dim, index)
    ensures Rank(dim, index) < Size(dim) && Traversal(dim)[Rank(dim, index)] == index
  {
    UnrankRank(dim, index);
  }

  /** `Dimension::next_for` (generic): the carry loop from the last axis. */
  method NextFor(dim: seq<nat>, index: seq<nat>) returns (r: Option<seq<nat>>)
    requires |index| == |dim|
    ensures r == Successor(dim, index)
  {
    var n := |dim|;
    var ix := index;
    var done := false;
    var k := n;
    assert dim[..n] == dim && index[..n] == index;
    assert Pad(Successor(dim, index), 0) == Successor(dim, index) by {
      if Successor(dim, index).Some? {
        assert Successor(dim, index).value + Zeros(0) == Successor(dim, index).value;
      }
    }
    while k > 0 && !done
      invariant 0 <= k <= n && |ix| == n
      invariant !done ==> ix == index[..k] + Zeros(n - k)
                          && Successor(dim, index) == Pad(Successor(dim[..k], index[..k]), n - k)
      invariant done ==> Successor(dim, index) == Some(ix)
    {
      k := k - 1;
      assert dim[..k + 1][..k] == dim[..k] && index[..k + 1][..k] == index[..k];
      ix := ix[k := ix[k] + 1];
      if ix[k] == dim[k] {
        ix := ix[k := 0];
        assert ix == index[..k] + Zeros(n - k);
        PadPad(Successor(dim[..k], index[..k]), 1, n - k - 1);
      } else {
        done := true;
        assert ix == index[..k] + [index[k] + 1] + Zeros(n - k - 1);
      }
    }
    if done {
      r := Some(ix);
    } else {
      assert dim[..k] == [];
      r := None;
    }
  }

  /** The successor rule on a rank-1 shape. */
  lemma SuccessorRank1(d: nat, i: nat)
    ensures Successor([d], [i]) == if i + 1 == d then None else Some([i + 1])
  {
    assert [d][..0] == [] && [i][..0] == [];
    assert [i][..0] + [i + 1] == [i + 1];
  }

  /** The successor rule on a rank-2 shape. */
  lemma SuccessorRank2(d0: nat, d1: nat, i0: nat, i1: nat)
    ensures Successor([d0, d1], [i0, i1])
            == if i1 + 1 != d1 then Some([i0, i1 + 1])
               else if i0 + 1 != d0 then Some([i0 + 1, 0])
               else None
  {
    assert [d0, d1][..1] == [d0] && [i0, i1][..1] == [i0];
    assert [i0, i1][..1] + [i1 + 1] == [i0, i1 + 1];
    assert [i0 + 1] + Zeros(1) == [i0 + 1, 0];
    SuccessorRank1(d0, i0);
  }

  /** The successor rule on a rank-3 shape. */
  lemma SuccessorRank3(d0: nat, d1: nat, d2: nat, i0: nat, i1: nat, i2: nat)
    ensures Successor([d0, d1, d2], [i0, i1, i2])
            == if i2 + 1 != d2 then Some([i0, i1, i2 + 1])
               else if i1 + 1 != d1 then Some([i0, i1 + 1, 0])
               else if i0 + 1 != d0 then Some([i0 + 1, 0, 0])
               else None
  {
    assert [d0, d1, d2][..2] == [d0, d1] && [i0, i1, i2][..2] == [i0, i1];
    assert [i0, i1, i2][..2] + [i2 + 1] == [i0, i1, i2 + 1];
    assert [i0, i1 + 1] + Zeros(1) == [i0, i1 + 1, 0];
    assert [i0 + 1, 0] + Zeros(1) == [i0 + 1, 0, 0];
    SuccessorRank2(d0, d1, i0, i1);
  }

  /** `Ix0::next_for`: a rank-0 shape has a single index, so there is never a next one. */
  function Ix0NextFor(dim: seq<nat>, index: seq<nat>): (r: Option<seq<nat>>)
    requires |dim| == 0 && |index| == 0
    ensures r == Successor(dim, index)
  {
    None
  }

  /** `Ix1::next_for`: increments and stops once the component is no longer below the extent. */
  function Ix1NextFor(dim: seq<nat>, index: seq<nat>): (r: Option<seq<nat>>)
    requires |dim| == 1 && |index| == 1
    ensures InBounds(dim, index) ==> r == Successor(dim, index)
  {
    SuccessorRank1(dim[0], index[0]);
    assert dim == [dim[0]] && index == [index[0]];
    if index[0] + 1 < dim[0] then Some([index[0] + 1]) else None
  }

  /** Out of bounds the rank-1 override and the generic rule part: (5) on shape (2). */
  lemma Ix1NextForOutOfBounds()
    ensures Successor([2], [5]) == Some([6])
    ensures Ix1NextFor([2], [5]) == None
  {
    SuccessorRank1(2, 5);
  }

  /** `Ix2::next_for`: the carry tests use `>=`, so it agrees with the generic rule on in-bounds indices. */
  function Ix2NextFor(dim: seq<nat>, index: seq<nat>): (r: Option<seq<nat>>)
    requires |dim| == 2 && |index| == 2
    ensures InBounds(dim, index) ==> r == Successor(dim, index)
  {
    SuccessorRank2(dim[0], dim[1], index[0], index[1]);
    assert dim == [dim[0], dim[1]] && index == [index[0], index[1]];
    var j := index[1] + 1;
    if j >= dim[1] then
      var i := index[0] + 1;
      if i >= dim[0] then None else Some([i, 0])
    else Some([index[0], j])
  }

  /**
   * Off the in-bounds indices the two rules part: on shape (2, 2) from
   * (0, 5) the generic rule increments to (0, 6), the rank-2 rule carries.
   */
  lemma Ix2NextForOutOfBounds()
    ensures Successor([2, 2], [0, 5]) == Some([0, 6])
    ensures Ix2NextFor([2, 2], [0, 5]) == Some([1, 0])
  {
    SuccessorRank2(2, 2, 0, 5);
  }

  /** `Ix3::next_for`: the carry tests use `==`, so it agrees with the generic rule on every index. */
  function Ix3NextFor(dim: seq<nat>, index: seq<nat>): (r: Option<seq<nat>>)
    requires |dim| == 3 && |index| == 3
    ensures r == Successor(dim, index)
  {
    SuccessorRank3(dim[0], dim[1], dim[2], index[0], index[1], index[2]);
    assert dim == [dim[0], dim[1], dim[2]] && index == [index[0], index[1], index[2]];
    var k := index[2] + 1;
    if k == dim[2] then
      var j := index[1] + 1;
      if j == dim[1] then
        var i := index[0] + 1;
        if i == dim[0] then None else Some([i, 0, 0])
      else Some([index[0], j, 0])
    else Some([index[0], index[1], k])
  }

  /** `Ix1::first_index`. */
  function Ix1FirstIndex(dim: seq<nat>): (r: Option<seq<nat>>)
    requires |dim| == 1
    ensures r.None? <==> exists k :: 0 <= k < |dim| && dim[k] == 0
    ensures r.Some? ==> Size(dim) > 0 && r.value == Unrank(dim, 0)
  {
    if dim[0] != 0 then
      assert Size(dim) > 0;
      UnrankZero(dim);
      Some([0])
    else None
  }

  /** `Ix2::first_index`. */
  function Ix2FirstIndex(dim: seq<nat>): (r: Option<seq<nat>>)
    requires |dim| == 2
    ensures r.None? <==> exists k :: 0 <= k < |dim| && dim[k] == 0
    ensures r.Some? ==> Size(dim) > 0 && r.value == Unrank(dim, 0)
  {
    if dim[0] != 0 && dim[1] != 0 then
      assert Size(dim) > 0;
      UnrankZero(dim);
      Some([0, 0])
    else None
  }
}
