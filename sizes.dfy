/**
 * `size` and `size_checked`: the number of elements of a shape, as the
 * product of its extents, unchecked and with `usize` overflow detection,
 * together with the closed forms of the rank-1, -2 and -3 shapes.
 */
module Sizes {
  import opened Wrappers
  import opened Machine

  /** `size`: the product of the extents, folded from the first axis; the empty product is 1. */
  function Size(dim: seq<nat>): (r: nat)
    ensures r == 0 <==> exists k :: 0 <= k < |dim| && dim[k] == 0
  {
    if |dim| == 0 then 1
    else
      var n := |dim| - 1;
      assert forall k :: 0 <= k < n ==> dim[..n][k] == dim[k];
      Size(dim[..n]) * dim[n]
  }

  /** The size of two shapes laid side by side is the product of their sizes. */
  lemma {:induction false} SizeAppend(a: seq<nat>, b: seq<nat>)
    ensures Size(a + b) == Size(a) * Size(b)
  {
    if |b| == 0 {
      assert a + b == a;
    } else {
      var m := |b| - 1;
      assert (a + b)[..|a| + m] == a + b[..m];
      SizeAppend(a, b[..m]);
      calc {
        Size(a + b);
        Size(a + b[..m]) * b[m];
        Size(a) * Size(b[..m]) * b[m];
        Size(a) * Size(b);
      }
    }
  }

  /** Splitting a shape at any axis splits its size into a product. */
  lemma SizeSplit(dim: seq<nat>, k: nat)
    requires k <= |dim|
    ensures Size(dim) == Size(dim[..k]) * Size(dim[k..])
  {
    assert dim == dim[..k] + dim[k..];
    SizeAppend(dim[..k], dim[k..]);
  }

  /** An extent in front multiplies the size of the rest. */
  lemma SizeFront(dim: seq<nat>)
    requires |dim| > 0
    ensures Size(dim) == dim[0] * Size(dim[1..])
  {
    SizeSplit(dim, 1);
    assert dim[..1] == [] + [dim[0]];
  }

  /** `checked_mul` on `usize`. */
  function CheckedMul(a: nat, b: nat): (r: Option<nat>)
    ensures r.Some? <==> a * b <= USIZE_MAX
    ensures r.Some? ==> r.value == a * b
  {
    if a * b <= USIZE_MAX then Some(a * b) else None
  }

  /**
   * `size_checked`: the fold of `checked_mul` from 1. It fails exactly when some
   * running product leaves `usize`, and otherwise it is the size.
   */
  function SizeChecked(dim: seq<nat>): (r: Option<nat>)
    ensures r.Some? <==> forall k :: 0 <= k <= |dim| ==> Size(dim[..k]) <= USIZE_MAX
    ensures r.Some? ==> r.value == Size(dim)
  {
    if |dim| == 0 then Some(1)
    else
      var n := |dim| - 1;
      var front := SizeChecked(dim[..n]);
      assert forall k :: 0 <= k <= n ==> dim[..n][..k] == dim[..k];
      assert dim[..n + 1] == dim;
      if front.None? then None else CheckedMul(front.value, dim[n])
  }

  /** With no empty axis the running products only grow, so only the total can overflow. */
  lemma {:induction false} SizeCheckedNonEmpty(dim: seq<nat>)
    requires forall k :: 0 <= k < |dim| ==> dim[k] > 0
    ensures SizeChecked(dim).Some? <==> Size(dim) <= USIZE_MAX
  {
    forall k | 0 <= k <= |dim|
      ensures Size(dim[..k]) <= Size(dim)
    {
      SizeSplit(dim, k);
      assert Size(dim[k..]) >= 1 by {
        assert forall j :: 0 <= j < |dim[k..]| ==> dim[k..][j] == dim[k + j];
      }
    }
    assert dim[..|dim|] == dim;
  }

  /** An overflow before an empty axis is still reported, although the size is 0. */
  lemma SizeCheckedOverflowBeforeEmptyAxis()
    ensures Size([0x1_0000_0000, 0x1_0000_0000, 0]) == 0
    ensures SizeChecked([0x1_0000_0000, 0x1_0000_0000, 0]).None?
  {
    var dim: seq<nat> := [0x1_0000_0000, 0x1_0000_0000, 0];
    assert dim[..2] == [0x1_0000_0000, 0x1_0000_0000];
    assert dim[..2][..1] == [0x1_0000_0000];
    assert Size(dim[..2]) > USIZE_MAX;
  }

  /** `Ix1::size`: the one extent. */
  function Ix1Size(dim: seq<nat>): (r: nat)
    requires |dim| == 1
    ensures r == Size(dim)
  {
    dim[0]
  }

  /** `Ix1::size_checked`: one `usize` extent never overflows. */
  function Ix1SizeChecked(dim: seq<nat>): (r: Option<nat>)
    requires |dim| == 1 && InUsize(dim[0])
    ensures r == SizeChecked(dim)
  {
    assert dim[..1] == dim && dim[..0] == [];
    Some(dim[0])
  }

  /** `Ix2::size`: the product of the two extents. */
  function Ix2Size(dim: seq<nat>): (r: nat)
    requires |dim| == 2
    ensures r == Size(dim)
  {
    assert dim[..1][..0] == [];
    assert Size(dim[..1]) == dim[0];
    dim[0] * dim[1]
  }

  /** `Ix2::size_checked`: one `checked_mul` of the two `usize` extents. */
  function Ix2SizeChecked(dim: seq<nat>): (r: Option<nat>)
    requires |dim| == 2 && InUsize(dim[0])
    ensures r == SizeChecked(dim)
  {
    assert dim[..2] == dim && dim[..1] == [dim[0]];
    assert dim[..1][..0] == [];
    CheckedMul(dim[0], dim[1])
  }

  /** `Ix3::size`: the product of the three extents. */
  function Ix3Size(dim: seq<nat>): (r: nat)
    requires |dim| == 3
    ensures r == Size(dim)
  {
    assert dim[..2][..1] == dim[..1];
    assert dim[..1][..0] == [];
    assert Size(dim[..1]) == dim[0];
    assert Size(dim[..2]) == dim[0] * dim[1];
    dim[0] * dim[1] * dim[2]
  }
}
