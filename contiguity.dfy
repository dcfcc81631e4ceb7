/**
 * `is_contiguous`: a shape/stride pair is contiguous when its strides are the
 * row-major ones, or (rank other than 1) when walking the axes fastest first
 * every axis of extent other than 1 has as stride the product of the extents
 * walked before it.
 */
module Contiguity {
  import opened Machine
  import opened Sizes
  import opened Strides
  import opened Order

  /** The extents read in the order `order` lists the axes. */
  function AlongOrder(dim: seq<nat>, order: seq<nat>): (r: seq<nat>)
    requires forall j :: 0 <= j < |order| ==> order[j] < |dim|
    ensures |r| == |order|
  {
    seq(|order|, j requires 0 <= j < |order| => dim[order[j]])
  }

  /** Each axis of extent other than 1, taken in `order`, steps over exactly the axes before it. */
  ghost predicate ContiguousAlong(dim: seq<nat>, strides: seq<int>, order: seq<nat>)
    requires |strides| == |dim|
    requires forall j :: 0 <= j < |order| ==> order[j] < |dim|
  {
    forall j :: 0 <= j < |order| && dim[order[j]] != 1 ==> strides[order[j]] == Size(AlongOrder(dim, order)[..j])
  }

  /** The verdict of the generic `is_contiguous`. */
  ghost predicate Contiguous(dim: seq<nat>, strides: seq<int>)
    requires |strides| == |dim|
  {
    || strides == RowMajor(dim)
    || (|dim| != 1 && ContiguousAlong(dim, strides, FastestVaryingStrideOrder(strides)))
  }

  /** The loop of `is_contiguous`: walk `order` with a running product `cstride`. */
  method IsContiguousAlong(dim: seq<nat>, strides: seq<int>, order: seq<nat>) returns (c: bool)
    requires |strides| == |dim|
    requires forall j :: 0 <= j < |order| ==> order[j] < |dim|
    ensures c <==> ContiguousAlong(dim, strides, order)
  {
    ghost var along := AlongOrder(dim, order);
    var cstride: nat := 1;
    var j := 0;
    while j < |order|
      invariant 0 <= j <= |order|
      invariant cstride == Size(along[..j])
      invariant forall l :: 0 <= l < j && dim[order[l]] != 1 ==> strides[order[l]] == Size(along[..l])
    {
      var i := order[j];
      if dim[i] != 1 && strides[i] != cstride {
        return false;
      }
      assert along[..j + 1][..j] == along[..j];
      cstride := cstride * dim[i];
      j := j + 1;
    }
    return true;
  }

  /** `Dimension::is_contiguous` (generic). */
  method IsContiguous(dim: seq<nat>, strides: seq<int>) returns (c: bool)
    requires |strides| == |dim|
    ensures c <==> Contiguous(dim, strides)
    ensures strides == RowMajor(dim) ==> c
    ensures |dim| == 1 ==> (c <==> strides == [1])
  {
    var defaults := DefaultStrides(dim);
    if strides == defaults {
      return true;
    }
    if |dim| == 1 {
      assert dim[1..] == [];
      return false;
    }
    var order := FastestVaryingStrideOrder(strides);
    c := IsContiguousAlong(dim, strides, order);
  }

  /**
   * `Ix2::is_contiguous`: the generic algorithm with the rank-2 default strides
   * and the rank-2 (signed) stride order; the rank-1 test is dead for rank 2.
   */
  method Ix2IsContiguous(dim: seq<nat>, strides: seq<int>) returns (c: bool)
    requires |dim| == 2 && |strides| == 2 && InIsize(strides[0]) && InIsize(strides[1])
    ensures c <==> strides == RowMajor(dim) || ContiguousAlong(dim, strides, Ix2StrideOrder(strides))
    ensures (strides[0] < 0 <==> strides[1] < 0) ==> (c <==> Contiguous(dim, strides))
  {
    var defaults := Ix2DefaultStrides(dim);
    if strides == defaults {
      return true;
    }
    var order := Ix2StrideOrder(strides);
    c := IsContiguousAlong(dim, strides, order);
  }

  /** The axes in their own order, `0 .. n-1`. */
  function Identity(n: nat): (r: seq<nat>)
    ensures |r| == n && forall j :: 0 <= j < n ==> r[j] == j
  {
    seq(n, j => j)
  }

  /** With no empty axis, the size of a prefix grows with the prefix. */
  lemma PrefixSizeMonotone(dim: seq<nat>, i: nat, j: nat)
    requires i <= j <= |dim|
    requires forall k :: 0 <= k < |dim| ==> dim[k] > 0
    ensures Size(dim[..i]) <= Size(dim[..j])
  {
    SizeSplit(dim[..j], i);
    assert dim[..j][..i] == dim[..i];
    assert Size(dim[..j][i..]) > 0;
  }

  /**
   * Column-major strides of a shape with no empty axis (and a size that fits
   * `usize`) are contiguous: the fastest-first order is the axes' own order
   * and each stride is the product of the extents before it.
   */
  lemma FortranStridesContiguous(dim: seq<nat>)
    requires forall k :: 0 <= k < |dim| ==> dim[k] > 0
    requires Size(dim) <= USIZE_MAX
    ensures Contiguous(dim, ColumnMajor(dim))
  {
    var n := |dim|;
    var cm := ColumnMajor(dim);
    if n == 1 {
      assert dim[..0] == [] && dim[1..] == [];
      assert cm == RowMajor(dim);
    } else {
      var id := Identity(n);
      assert IsStableOrder(cm, id) by {
        forall v | 0 <= v < n
          ensures v in id
        {
          assert id[v] == v;
        }
        forall i, j | 0 <= i < j < n
          ensures Before(cm, id[i], id[j])
        {
          PrefixSizeMonotone(dim, i, j);
          PrefixSizeMonotone(dim, j, n);
          assert dim[..n] == dim;
        }
      }
      StableOrderUnique(cm, id);
      assert AlongOrder(dim, id) == dim;
    }
  }
}
