/**
 * `RemoveAxis`: the shape (or strides) of one rank less, with the entry at
 * `axis` deleted and the others kept in order.
 */
module Axes {
  import opened Sizes
  import opened Strides

  /** Deleting position `axis` of a shape or a stride vector: the dynamic-rank `remove_axis`, a `Vec::remove`. */
  function RemoveAxis<T>(s: seq<T>, axis: nat): (r: seq<T>)
    requires axis < |s|
    ensures |r| == |s| - 1
    ensures forall j :: 0 <= j < |r| ==> r[j] == if j < axis then s[j] else s[j + 1]
  {
    s[..axis] + s[axis + 1..]
  }

  /** Putting `v` in at position `axis`. */
  function InsertAxis<T>(s: seq<T>, axis: nat, v: T): (r: seq<T>)
    requires axis <= |s|
    ensures |r| == |s| + 1 && r[axis] == v
  {
    s[..axis] + [v] + s[axis..]
  }

  /** Removal undoes insertion at the same position. */
  lemma RemoveInsertAxis<T>(s: seq<T>, axis: nat, v: T)
    requires axis <= |s|
    ensures RemoveAxis(InsertAxis(s, axis, v), axis) == s
  {
    var t := InsertAxis(s, axis, v);
    assert t[..axis] == s[..axis] && t[axis + 1..] == s[axis..];
    assert s == s[..axis] + s[axis..];
  }

  /**
   * The fixed-rank removals with an axis out of range (the check is a
   * `debug_assert` for rank 2 and absent for the cursor loop): every entry
   * is copied into the `n - 1` slots, so the last one is dropped.
   */
  function RemoveAxisOrLast(s: seq<nat>, axis: nat): (r: seq<nat>)
    requires |s| >= 1
    ensures |r| == |s| - 1
    ensures forall j :: 0 <= j < |r| ==> r[j] == if j < axis then s[j] else s[j + 1]
    ensures axis >= |s| ==> r == s[..|s| - 1]
  {
    if axis < |s| then RemoveAxis(s, axis) else s[..|s| - 1]
  }

  /** `remove_axis` for rank 1: always the rank-0 shape. */
  function Ix1RemoveAxis(s: seq<nat>, axis: nat): (r: seq<nat>)
    requires |s| == 1
    ensures r == RemoveAxisOrLast(s, axis)
  {
    []
  }

  /** `remove_axis` for rank 2: the other extent. */
  function Ix2RemoveAxis(s: seq<nat>, axis: nat): (r: seq<nat>)
    requires |s| == 2
    ensures r == RemoveAxisOrLast(s, axis)
  {
    if axis == 0 then [s[1]] else [s[0]]
  }

  /** `remove_axis` for ranks 3 to 5: copy every entry but the one at `axis` through a cursor. */
  method FixedRemoveAxis(s: seq<nat>, axis: nat) returns (r: seq<nat>)
    requires 3 <= |s| <= 5
    ensures r == RemoveAxisOrLast(s, axis)
  {
    var n := |s|;
    var tup: seq<nat> := seq(n - 1, _ => 0);
    var cursor := 0;
    for i := 0 to n
      invariant |tup| == n - 1
      invariant cursor == if axis < i then i - 1 else i
      invariant forall j :: 0 <= j < cursor && j < n - 1 && j < axis ==> tup[j] == s[j]
      invariant forall j :: 0 <= j < cursor && j < n - 1 && j >= axis ==> tup[j] == s[j + 1]
    {
      if i != axis {
        if cursor < n - 1 {
          tup := tup[cursor := s[i]];
        }
        cursor := cursor + 1;
      }
    }
    r := tup;
    assert forall j :: 0 <= j < n - 1 ==> r[j] == RemoveAxisOrLast(s, axis)[j];
  }

  /**
   * Removing an axis of extent 1 commutes with taking the default strides:
   * the strides of the smaller shape are those of the larger one with the
   * removed axis's entry deleted.
   */
  lemma DefaultStridesCommuteWithRemoval(dim: seq<nat>, axis: nat)
    requires axis < |dim| && dim[axis] == 1
    ensures RowMajor(RemoveAxis(dim, axis)) == RemoveAxis(RowMajor(dim), axis)
  {
    var r := RemoveAxis(dim, axis);
    var lhs, rhs := RowMajor(r), RemoveAxis(RowMajor(dim), axis);
    forall j | 0 <= j < |r|
      ensures lhs[j] == rhs[j]
    {
      TailAfterRemoval(dim, axis, j);
      assert lhs[j] == Size(r[j + 1..]);
      assert rhs[j] == if j < axis then Size(dim[j + 1..]) else Size(dim[j + 2..]);
    }
    assert lhs == rhs;
  }

  /** The axes after position `j` of the smaller shape have the size of those after the matching axis of the larger one. */
  lemma TailAfterRemoval(dim: seq<nat>, axis: nat, j: nat)
    requires axis < |dim| && dim[axis] == 1 && j < |dim| - 1
    ensures Size(RemoveAxis(dim, axis)[j + 1..]) == if j < axis then Size(dim[j + 1..]) else Size(dim[j + 2..])
  {
    var r := RemoveAxis(dim, axis);
    if j < axis {
      UnitExtentSize(dim[j + 1..axis], dim[axis + 1..]);
      assert r[j + 1..] == dim[j + 1..axis] + dim[axis + 1..];
      assert dim[j + 1..] == dim[j + 1..axis] + [1] + dim[axis + 1..];
    } else {
      assert r[j + 1..] == dim[j + 2..];
    }
  }

  /** An extent of 1 does not change the size. */
  lemma UnitExtentSize(a: seq<nat>, b: seq<nat>)
    ensures Size(a + [1] + b) == Size(a + b)
  {
    SizeAppend(a, b);
    SizeAppend(a + [1], b);
    SizeAppend(a, [1]);
    assert [1][..0] == [];
  }
}
