/**
 * Stride derivation: `default_strides` (row-major, C order) and
 * `fortran_strides` (column-major), and the closed forms of the rank-1 and
 * rank-2 shapes.
 */
module Strides {
  import opened Sizes

  /** Row-major strides: the stride of axis `k` is the size of the axes after it. */
  function RowMajor(dim: seq<nat>): (r: seq<int>)
    ensures |r| == |dim|
  {
    seq(|dim|, k requires 0 <= k < |dim| => Size(dim[k + 1..]))
  }

  /** Column-major strides: the stride of axis `k` is the size of the axes before it. */
  function ColumnMajor(dim: seq<nat>): (r: seq<int>)
    ensures |r| == |dim|
  {
    seq(|dim|, k requires 0 <= k < |dim| => Size(dim[..k]))
  }

  /** The innermost row-major stride is 1 and every other one is the next times the next extent. */
  lemma RowMajorRecurrence(dim: seq<nat>)
    ensures |dim| > 0 ==> RowMajor(dim)[|dim| - 1] == 1
    ensures forall k :: 0 <= k < |dim| - 1 ==> RowMajor(dim)[k] == RowMajor(dim)[k + 1] * dim[k + 1]
  {
    forall k | 0 <= k < |dim| - 1
      ensures RowMajor(dim)[k] == RowMajor(dim)[k + 1] * dim[k + 1]
    {
      SizeFront(dim[k + 1..]);
      assert dim[k + 1..][1..] == dim[k + 2..];
    }
  }

  /** The outermost column-major stride is 1 and every other one is the previous times the previous extent. */
  lemma ColumnMajorRecurrence(dim: seq<nat>)
    ensures |dim| > 0 ==> ColumnMajor(dim)[0] == 1
    ensures forall k :: 0 <= k < |dim| - 1 ==> ColumnMajor(dim)[k + 1] == ColumnMajor(dim)[k] * dim[k]
  {
    forall k | 0 <= k < |dim| - 1
      ensures ColumnMajor(dim)[k + 1] == ColumnMajor(dim)[k] * dim[k]
    {
      assert dim[..k + 1][..k] == dim[..k];
    }
  }

  /** The axes in the opposite order. */
  function Reversed(s: seq<nat>): (r: seq<nat>)
    ensures |r| == |s|
    ensures forall k :: 0 <= k < |s| ==> r[k] == s[|s| - 1 - k]
  {
    if |s| == 0 then [] else [s[|s| - 1]] + Reversed(s[..|s| - 1])
  }

  /** Reversing the axes does not change the size. */
  lemma {:induction false} SizeReversed(s: seq<nat>)
    ensures Size(Reversed(s)) == Size(s)
  {
    if |s| > 0 {
      var n := |s| - 1;
      SizeReversed(s[..n]);
      SizeFront(Reversed(s));
      assert Reversed(s)[1..] == Reversed(s[..n]);
    }
  }

  /** Column-major strides are the row-major strides of the reversed shape, read backwards. */
  lemma ColumnMajorMirrorsRowMajor(dim: seq<nat>)
    ensures forall k :: 0 <= k < |dim| ==> ColumnMajor(dim)[k] == RowMajor(Reversed(dim))[|dim| - 1 - k]
  {
    var n := |dim|;
    forall k | 0 <= k < n
      ensures ColumnMajor(dim)[k] == RowMajor(Reversed(dim))[n - 1 - k]
    {
      assert Reversed(dim)[n - k..] == Reversed(dim[..k]);
      SizeReversed(dim[..k]);
    }
  }

  /** `default_strides`: set the innermost stride to 1, then walk outwards with a running product. */
  method DefaultStrides(dim: seq<nat>) returns (strides: seq<int>)
    ensures |strides| == |dim|
    ensures |dim| > 0 ==> strides[|dim| - 1] == 1
    ensures forall k :: 0 <= k < |dim| ==> strides[k] == Size(dim[k + 1..])
    ensures strides == RowMajor(dim)
  {
    var n := |dim|;
    strides := dim;
    if n == 0 {
      return;
    }
    strides := strides[n - 1 := 1];
    var cumProd: nat := 1;
    var k := n - 1;
    while k > 0
      invariant 0 <= k <= n - 1
      invariant |strides| == n
      invariant cumProd == Size(dim[k + 1..])
      invariant forall j :: k <= j < n ==> strides[j] == Size(dim[j + 1..])
    {
      SizeFront(dim[k..]);
      assert dim[k..][1..] == dim[k + 1..];
      cumProd := cumProd * dim[k];
      strides := strides[k - 1 := cumProd];
      k := k - 1;
    }
  }

  /** `fortran_strides`: set the outermost stride to 1, then walk inwards with a running product. */
  method FortranStrides(dim: seq<nat>) returns (strides: seq<int>)
    ensures |strides| == |dim|
    ensures |dim| > 0 ==> strides[0] == 1
    ensures forall k :: 0 <= k < |dim| ==> strides[k] == Size(dim[..k])
    ensures strides == ColumnMajor(dim)
  {
    var n := |dim|;
    strides := dim;
    if n == 0 {
      return;
    }
    strides := strides[0 := 1];
    var cumProd: nat := 1;
    var k := 0;
    while k < n - 1
      invariant 0 <= k <= n - 1
      invariant |strides| == n
      invariant cumProd == Size(dim[..k])
      invariant forall j :: 0 <= j <= k ==> strides[j] == Size(dim[..j])
    {
      assert dim[..k + 1][..k] == dim[..k];
      cumProd := cumProd * dim[k];
      strides := strides[k + 1 := cumProd];
      k := k + 1;
    }
  }

  /** `Ix1::default_strides`: always `[1]`. */
  function Ix1DefaultStrides(dim: seq<nat>): (r: seq<int>)
    requires |dim| == 1
    ensures r == RowMajor(dim)
  {
    assert dim[1..] == [];
    [1]
  }

  /** `Ix2::default_strides`: `(dim[1], 1)`. */
  function Ix2DefaultStrides(dim: seq<nat>): (r: seq<int>)
    requires |dim| == 2
    ensures r == RowMajor(dim)
  {
    assert dim[2..] == [] && dim[1..] == [dim[1]];
    assert Size(dim[1..]) == dim[1] by {
      assert dim[1..][..0] == [];
    }
    [dim[1], 1]
  }

  /** `Ix2::fortran_strides`: `(1, dim[0])`. */
  function Ix2FortranStrides(dim: seq<nat>): (r: seq<int>)
    requires |dim| == 2
    ensures r == ColumnMajor(dim)
  {
    assert dim[..0] == [] && dim[..1] == [dim[0]];
    assert Size(dim[..1]) == dim[0] by {
      assert dim[..1][..0] == [];
    }
    [1, dim[0]]
  }
}
