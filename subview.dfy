/**
 * `do_sub`: collapse one axis to extent 1 so that only the sub-array at
 * `index` along it stays visible; the start of the data moves by the offset of
 * that sub-array, returned here as an integer displacement.
 */
module Subview {
  import opened Offsets

  /**
   * `do_sub`: demands `index < dims[axis]`, sets that extent to 1, leaves the
   * other extents alone and displaces by `index * strides[axis]`.
   */
  method DoSub(dims: array<nat>, strides: seq<int>, axis: nat, index: nat) returns (displacement: int)
    requires axis < dims.Length == |strides|
    requires index < dims[axis]
    modifies dims
    ensures dims[..] == old(dims[..])[axis := 1]
    ensures displacement == index * strides[axis]
  {
    var stride := strides[axis];
    dims[axis] := 1;
    displacement := StrideOffset(index, stride);
  }

  /**
   * The collapsed view addresses exactly the sub-array `index` of the original:
   * an index in bounds of the new shape, with its (necessarily zero) component
   * on `axis` replaced by `index`, is in bounds of the old shape, and its old
   * offset is the displacement plus its new offset.
   */
  lemma SubViewAddressing(dim: seq<nat>, strides: seq<int>, axis: nat, index: nat, j: seq<nat>)
    requires axis < |dim| == |strides| && index < dim[axis]
    requires InBounds(dim[axis := 1], j)
    ensures j[axis] == 0
    ensures InBounds(dim, j[axis := index])
    ensures index * strides[axis] + StrideSum(j, strides) == StrideSum(j[axis := index], strides)
  {
    StrideSumUpdate(j, strides, axis, index);
  }

  /**
   * Conversely every in-bounds index of the original whose component on `axis`
   * is `index` is reached from the collapsed view.
   */
  lemma SubViewCovers(dim: seq<nat>, strides: seq<int>, axis: nat, index: nat, i: seq<nat>)
    requires axis < |dim| == |strides| && index < dim[axis]
    requires InBounds(dim, i) && i[axis] == index
    ensures InBounds(dim[axis := 1], i[axis := 0])
    ensures i[axis := 0][axis := index] == i
    ensures index * strides[axis] + StrideSum(i[axis := 0], strides) == StrideSum(i, strides)
  {
    StrideSumUpdate(i, strides, axis, 0);
  }
}
