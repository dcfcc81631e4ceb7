/**
 * Component access on a shape: equality of two shapes, the last extent, and
 * the in-place writes `set_last_elem` and `set_axis`.
 */
module Access {

  /** `equal`: componentwise comparison of two shapes of the same rank type. */
  function Equal(a: seq<nat>, b: seq<nat>): (r: bool)
    ensures r <==> |a| == |b| && forall k :: 0 <= k < |a| ==> a[k] == b[k]
  {
    a == b
  }

  /** The rank-1 `equal` override. */
  function Ix1Equal(a: seq<nat>, b: seq<nat>): (r: bool)
    requires |a| == 1 && |b| == 1
    ensures r == Equal(a, b)
  {
    a[0] == b[0]
  }

  /** The rank-2 `equal` override. */
  function Ix2Equal(a: seq<nat>, b: seq<nat>): (r: bool)
    requires |a| == 2 && |b| == 2
    ensures r == Equal(a, b)
  {
    a[0] == b[0] && a[1] == b[1]
  }

  /** `last_elem`: the innermost extent, or 0 for rank 0. */
  function LastElem(s: seq<nat>): (r: nat)
    ensures |s| == 0 ==> r == 0
    ensures |s| > 0 ==> r == s[|s| - 1]
    ensures r == 0 || r in s
  {
    if |s| == 0 then 0 else s[|s| - 1]
  }

  /** The rank-2 `last_elem` override. */
  function Ix2LastElem(s: seq<nat>): (r: nat)
    requires |s| == 2
    ensures r == LastElem(s)
  {
    s[1]
  }

  /** `set_last_elem`: overwrite the innermost extent; rank 0 has none and is refused. */
  method SetLastElem(s: array<nat>, i: nat)
    requires s.Length > 0
    modifies s
    ensures s[..] == old(s[..])[s.Length - 1 := i]
  {
    s[s.Length - 1] := i;
  }

  /** After `set_last_elem(i)`, `last_elem` reads `i` back and the other extents are as before. */
  lemma LastElemAfterSet(s: seq<nat>, i: nat)
    requires |s| > 0
    ensures LastElem(s[|s| - 1 := i]) == i
    ensures s[|s| - 1 := i][..|s| - 1] == s[..|s| - 1]
  {
  }

  /** `set_axis`: overwrite the extent of one axis, which must exist. */
  method SetAxis(s: array<nat>, axis: nat, value: nat)
    requires axis < s.Length
    modifies s
    ensures s[..] == old(s[..])[axis := value]
  {
    s[axis] := value;
  }
}
