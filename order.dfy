/**
 * `_fastest_varying_stride_order`: the axes sorted by stride, fastest first,
 * by a stable sort; and the per-rank versions (a comparison for rank 2, a
 * three-element sorting network for rank 3).
 */
module Order {
  import opened Machine

  /** The `usize` bit pattern of a stride: the key the generic sort compares. */
  function StrideKey(stride: int): (r: nat)
    ensures r < WORD && (r - stride) % WORD == 0
    ensures 0 <= stride < WORD ==> r == stride
  {
    stride % WORD
  }

  /** Axis `a` comes before axis `b`: a smaller key, or the same key and a smaller axis number. */
  predicate Before(strides: seq<int>, a: nat, b: nat)
    requires a < |strides| && b < |strides|
  {
    || StrideKey(strides[a]) < StrideKey(strides[b])
    || (StrideKey(strides[a]) == StrideKey(strides[b]) && a < b)
  }

  /** Every element of `s` names an axis of `strides`. */
  predicate AxesOf(strides: seq<int>, s: seq<nat>)
  {
    forall i :: 0 <= i < |s| ==> s[i] < |strides|
  }

  /** `s` is strictly increasing in the `Before` order. */
  ghost predicate SortedBefore(strides: seq<int>, s: seq<nat>)
    requires AxesOf(strides, s)
  {
    forall i, j :: 0 <= i < j < |s| ==> Before(strides, s[i], s[j])
  }

  /** `order` lists each of the axes `0 .. m-1` once, in stable ascending key order. */
  ghost predicate StableOrderOf(strides: seq<int>, m: nat, order: seq<nat>)
    requires m <= |strides|
  {
    && |order| == m
    && (forall i :: 0 <= i < m ==> order[i] < m)
    && (forall v :: 0 <= v < m ==> v in order)
    && SortedBefore(strides, order)
  }

  /** `order` is a stable sort of all axes of `strides` by key. */
  ghost predicate IsStableOrder(strides: seq<int>, order: seq<nat>)
  {
    StableOrderOf(strides, |strides|, order)
  }

  /** Insert axis `a` after every axis whose key is not larger. */
  function Insert(strides: seq<int>, sorted: seq<nat>, a: nat): (r: seq<nat>)
    requires a < |strides| && AxesOf(strides, sorted)
    ensures |r| == |sorted| + 1 && AxesOf(strides, r)
    ensures forall x :: x in r <==> x == a || x in sorted
  {
    if |sorted| == 0 then [a]
    else if StrideKey(strides[sorted[0]]) <= StrideKey(strides[a]) then [sorted[0]] + Insert(strides, sorted[1..], a)
    else [a] + sorted
  }

  /** Inserting an axis numbered above all sorted ones keeps the sequence sorted. */
  lemma {:induction false} InsertSorted(strides: seq<int>, sorted: seq<nat>, a: nat)
    requires a < |strides| && AxesOf(strides, sorted) && SortedBefore(strides, sorted)
    requires forall i :: 0 <= i < |sorted| ==> sorted[i] < a
    ensures SortedBefore(strides, Insert(strides, sorted, a))
  {
    if |sorted| > 0 && StrideKey(strides[sorted[0]]) <= StrideKey(strides[a]) {
      var rest := sorted[1..];
      InsertSorted(strides, rest, a);
      var r := Insert(strides, sorted, a);
      assert r == [sorted[0]] + Insert(strides, rest, a);
      forall i, j | 0 <= i < j < |r|
        ensures Before(strides, r[i], r[j])
      {
        if i == 0 {
          assert r[j] in Insert(strides, rest, a);
          if r[j] != a {
            assert r[j] in rest;
            var t :| 0 <= t < |rest| && rest[t] == r[j];
            assert sorted[t + 1] == r[j];
          }
        }
      }
    }
  }

  /** Sort the axes `0 .. m-1` by inserting them in turn. */
  function SortAxes(strides: seq<int>, m: nat): (r: seq<nat>)
    requires m <= |strides|
    ensures |r| == m && AxesOf(strides, r)
    ensures forall i :: 0 <= i < m ==> r[i] < m
    ensures forall x :: x in r <==> 0 <= x < m
  {
    if m == 0 then []
    else
      var r := Insert(strides, SortAxes(strides, m - 1), m - 1);
      assert forall i :: 0 <= i < m ==> r[i] in r;
      r
  }

  /** Insertion yields the stable order of the axes inserted so far. */
  lemma {:induction false} SortAxesStable(strides: seq<int>, m: nat)
    requires m <= |strides|
    ensures StableOrderOf(strides, m, SortAxes(strides, m))
  {
    if m > 0 {
      SortAxesStable(strides, m - 1);
      InsertSorted(strides, SortAxes(strides, m - 1), m - 1);
    }
  }

  /**
   * `_fastest_varying_stride_order` (generic): number the axes, then sort the
   * numbers by stride with a stable sort.
   */
  function FastestVaryingStrideOrder(strides: seq<int>): (r: seq<nat>)
    ensures IsStableOrder(strides, r)
  {
    SortAxesStable(strides, |strides|);
    SortAxes(strides, |strides|)
  }

  /** Two sorted sequences with the same elements are equal. */
  lemma {:induction false} SortedUnique(strides: seq<int>, a: seq<nat>, b: seq<nat>)
    requires AxesOf(strides, a) && AxesOf(strides, b)
    requires SortedBefore(strides, a) && SortedBefore(strides, b)
    requires |a| == |b| && forall x :: x in a <==> x in b
    ensures a == b
  {
    if |a| > 0 {
      assert a[0] in b;
      assert b[0] in a;
      var i :| 0 <= i < |a| && a[i] == b[0];
      var j :| 0 <= j < |b| && b[j] == a[0];
      assert a[0] == b[0];
      forall x
        ensures x in a[1..] <==> x in b[1..]
      {
        if x in a[1..] {
          var t :| 1 <= t < |a| && a[t] == x;
          assert Before(strides, a[0], a[t]);
          assert x in a;
          var u :| 0 <= u < |b| && b[u] == x;
          assert u != 0;
          assert b[1..][u - 1] == x;
        }
        if x in b[1..] {
          var t :| 1 <= t < |b| && b[t] == x;
          assert Before(strides, b[0], b[t]);
          assert x in b;
          var u :| 0 <= u < |a| && a[u] == x;
          assert u != 0;
          assert a[1..][u - 1] == x;
        }
      }
      SortedUnique(strides, a[1..], b[1..]);
      assert a == [a[0]] + a[1..] && b == [b[0]] + b[1..];
    }
  }

  /** The stable order of all axes is unique: any sequence meeting it is the generic result. */
  lemma StableOrderUnique(strides: seq<int>, order: seq<nat>)
    requires IsStableOrder(strides, order)
    ensures order == FastestVaryingStrideOrder(strides)
  {
    var r := FastestVaryingStrideOrder(strides);
    forall x
      ensures x in order <==> x in r
    {
      if x in order {
        var t :| 0 <= t < |order| && order[t] == x;
      }
      if x in r {
        var t :| 0 <= t < |r| && r[t] == x;
      }
    }
    SortedUnique(strides, order, r);
  }

  /** `Ix0::_fastest_varying_stride_order`: no axes. */
  function Ix0StrideOrder(strides: seq<int>): (r: seq<nat>)
    requires |strides| == 0
    ensures r == FastestVaryingStrideOrder(strides)
  {
    []
  }

  /** `Ix1::_fastest_varying_stride_order`: the single axis. */
  function Ix1StrideOrder(strides: seq<int>): (r: seq<nat>)
    requires |strides| == 1
    ensures r == FastestVaryingStrideOrder(strides)
  {
    StableOrderUnique(strides, [0]);
    [0]
  }

  /**
   * `Ix2::_fastest_varying_stride_order`: compares the strides as signed
   * numbers, so it agrees with the generic order when both strides have the
   * same sign.
   */
  function Ix2StrideOrder(strides: seq<int>): (r: seq<nat>)
    requires |strides| == 2 && InIsize(strides[0]) && InIsize(strides[1])
    ensures (strides[0] < 0 <==> strides[1] < 0) ==> r == FastestVaryingStrideOrder(strides)
  {
    var r: seq<nat> := if strides[0] <= strides[1] then [0, 1] else [1, 0];
    assert 0 in r && 1 in r;
    assert (strides[0] < 0 <==> strides[1] < 0) ==> IsStableOrder(strides, r);
    if strides[0] < 0 <==> strides[1] < 0 then StableOrderUnique(strides, r); r else r
  }

  /** A negative stride next to a positive one: the signed comparison disagrees with the generic sort. */
  lemma Ix2StrideOrderMixedSigns()
    ensures Ix2StrideOrder([-1, 1]) == [0, 1]
    ensures FastestVaryingStrideOrder([-1, 1]) == [1, 0]
  {
    assert StrideKey(-1) == WORD - 1;
    assert IsStableOrder([-1, 1], [1, 0]) by {
      assert 0 in [1, 0] && 1 in [1, 0];
    }
    StableOrderUnique([-1, 1], [1, 0]);
  }

  /** Three distinct axes of a rank-3 shape in `Before` order form its stable order. */
  lemma StableOrderOfThree(strides: seq<int>, o: seq<nat>)
    requires |strides| == 3 && |o| == 3
    requires o[0] < 3 && o[1] < 3 && o[2] < 3
    requires o[0] != o[1] && o[1] != o[2] && o[0] != o[2]
    requires Before(strides, o[0], o[1]) && Before(strides, o[1], o[2])
    ensures IsStableOrder(strides, o)
  {
    assert Before(strides, o[0], o[2]);
    forall v | 0 <= v < 3
      ensures v in o
    {
      if v != o[0] && v != o[1] {
        assert v == o[2];
      }
    }
  }

  /**
   * `Ix3::_fastest_varying_stride_order`: the stable sorting network
   * (1,2), (0,1), (1,2), swapping keys and axis numbers together when the
   * first key is larger; it agrees with the generic sort.
   */
  function Ix3StrideOrder(strides: seq<int>): (r: seq<nat>)
    requires |strides| == 3
    ensures r == FastestVaryingStrideOrder(strides)
  {
    var (a, b, c) := (StrideKey(strides[0]), StrideKey(strides[1]), StrideKey(strides[2]));
    var (x, y, z) := (0, 1, 2);
    var (b1, c1, y1, z1) := if b > c then (c, b, z, y) else (b, c, y, z);
    var (a2, b2, x2, y2) := if a > b1 then (b1, a, y1, x) else (a, b1, x, y1);
    var (b3, c3, y3, z3) := if b2 > c1 then (c1, b2, z1, y2) else (b2, c1, y2, z1);
    var o: seq<nat> := [x2, y3, z3];
    assert a2 == StrideKey(strides[x2]) && b3 == StrideKey(strides[y3]) && c3 == StrideKey(strides[z3]);
    StableOrderOfThree(strides, o);
    StableOrderUnique(strides, o);
    o
  }
}
