/**
 * Machine integer widths of a 64-bit target: `usize` (`Ix`) and `isize` (`Ixs`),
 * and the two bit-reinterpreting casts between them.
 */
module Machine {

  /** Number of distinct 64-bit words. */
  const WORD: nat := 0x1_0000_0000_0000_0000
  const USIZE_MAX: nat := 0xFFFF_FFFF_FFFF_FFFF
  const ISIZE_MAX: nat := 0x7FFF_FFFF_FFFF_FFFF
  const ISIZE_MIN: int := -0x8000_0000_0000_0000

  predicate InUsize(x: int) { 0 <= x <= USIZE_MAX }

  predicate InIsize(x: int) { ISIZE_MIN <= x <= ISIZE_MAX }

  /** `u as isize`: the one `isize` with the same 64-bit pattern as `u`. */
  function AsIsize(u: nat): (r: int)
    requires InUsize(u)
    ensures InIsize(r) && (r - u) % WORD == 0
    ensures u <= ISIZE_MAX ==> r == u
  {
    if u <= ISIZE_MAX then u else u - WORD
  }

  /** `x as usize`: the one `usize` with the same 64-bit pattern as `x`. */
  function AsUsize(x: int): (r: nat)
    requires InIsize(x)
    ensures InUsize(r) && (r - x) % WORD == 0
    ensures x >= 0 ==> r == x
  {
    if x < 0 then x + WORD else x
  }
}
