# ndarray dimension arithmetic in Dafny

This project models the shape and stride arithmetic of ndarray's `Dimension`
trait (`src/dimension.rs`). That is the code that turns an N-dimensional
index into a memory offset and decides whether a shape/stride pair can safely
view a slice of memory. It also enumerates indices in row-major order,
computes default (C order) and Fortran strides, tests contiguity, finds the
fastest-varying axis order, slices views along every axis, collapses one axis
(`do_sub`) and removes axes.

Representation:

- A shape is a `seq<nat>` (one extent per axis). An index is a `seq<nat>`.
- Strides are a `seq<int>`. This is the signed (`isize`) reading of the `usize`
  words the source stores. `Order.StrideKey` gives the unsigned bit pattern
  where the source compares the raw words.
- Integers are unbounded. Machine bounds of a 64-bit target (`Machine.USIZE_MAX`,
  `Machine.ISIZE_MIN`, `Machine.ISIZE_MAX`) are modelled exactly where the
  source checks them: `size_checked`, `stride_offset_checked_arithmetic`, the
  casts in `can_index_slice`, and `abs_index`.
- Fixed-rank overrides (`Ix0` to `Ix3`) are separate members. Each one is
  proved equal to the generic definition, or shown where it differs.
- Methods that mutate their arguments in place in the source work on arrays.
  `Slicing.DoSlices` updates an `array<nat>` of extents and an `array<int>` of
  strides. `Subview.DoSub` updates an `array<nat>` of extents and reads its
  strides as a `seq<int>`. `Access.SetLastElem` and `Access.SetAxis` update an
  `array<nat>`. The other methods work on
  values and are proved against specification functions: `Size`, `RowMajor`,
  `ColumnMajor`, `StrideSum`, `Successor`, `FastestVaryingStrideOrder`,
  `Contiguous`, `Overlaps` and `Verdict`.

Modules, one per concern:

- `Machine`: integer widths.
- `Wrappers`: `Option` and the error kinds.
- `Sizes`: element counts.
- `Strides`: default and Fortran strides.
- `Order`: fastest-varying order.
- `Contiguity`.
- `Offsets`: index to offset.
- `Indexing`: fixed-rank and `NdIndex` lookups.
- `Enumeration`: `first_index`/`next_for` and the row-major traversal.
- `Overlap`: `dim_stride_overlap` as written.
- `Aliasing`: a corrected overlap test under the exact-span rule (looser than the rule in the doc comment of `dim_stride_overlap`, and still sound) and its injectivity theorem.
- `Bounds`: `can_index_slice`.
- `Slicing`: `abs_index`, `do_slices`.
- `Subview`: `do_sub`.
- `Axes`: remove/insert axis.
- `Access`: `equal`, `last_elem`, `set_last_elem`, `set_axis`.

`do_slices` on a negative step: the comment at src/dimension.rs:337-341
describes moving the start of the view by the old stride times the old extent
minus one. The code moves it by `(e - b - 1) * stride` instead. Here `e - b`
is the length of the selected range, which shadows the old extent at line 329,
and the move happens at line 343. The model follows the code. As a result the
first element of the reversed view is the last element of the range.
`Slicing.SlicedViewAddressing` proves that every index of the sliced view
lands inside the range.

## Model

| member | source | states |
|---|---|---|
| Offsets.StrideOffset | src/dimension.rs:22-24 | the offset of `n` steps of a signed stride is negative exactly when `n > 0` and the stride is negative, and zero exactly when either factor is zero |
| Offsets.IndexStrideOffset | src/dimension.rs:273-279 | the unchecked offset of an index is the sum over all axes of index times stride |
| Offsets.StrideOffsetChecked | src/dimension.rs:283-293 | `None` exactly when some component reaches its extent; otherwise the unchecked offset |
| Offsets.StrideOffsetCheckedArithmetic | src/dimension.rs:103-122 | `None` exactly when at some axis the component is out of bounds, or the product of its wrapped `isize` reading with the stride leaves `isize`, or the running sum does (the `i as isize` cast itself wraps and never fails); a result is in bounds and is an `isize` equal to the signed offset, and equals the plain checked offset when every component fits `isize` |
| Offsets.StrideSumUpdate | src/dimension.rs:273-279 | changing one component of an index moves its offset by the change times that axis's stride |
| Machine.AsIsize | src/dimension.rs:113-114 | the `usize as isize` cast gives the unique `isize` congruent modulo 2^64, and is the identity up to `isize::MAX` |
| Machine.AsUsize | src/dimension.rs:87-88 | the `isize as usize` cast gives the unique `usize` congruent modulo 2^64, and is the identity on non-negative values |
| Sizes.Size | src/dimension.rs:180-182 | the element count is zero exactly when some extent is zero |
| Sizes.SizeAppend | src/dimension.rs:180-182 | the element count of a concatenated shape is the product of the two counts |
| Sizes.CheckedMul | src/dimension.rs:187 | `checked_mul` succeeds exactly when the product fits `usize`, and then returns the product |
| Sizes.SizeChecked | src/dimension.rs:186-188 | `Some` exactly when every running product of the leading extents fits `usize`; the value is the element count |
| Sizes.SizeCheckedNonEmpty | src/dimension.rs:186-188 | for a shape without empty axes, checking succeeds exactly when the element count fits `usize` |
| Sizes.SizeCheckedOverflowBeforeEmptyAxis | src/dimension.rs:186-188 | the shape (2^32, 2^32, 0) has zero elements, yet `size_checked` is `None` because the running product overflows before the empty axis is reached |
| Sizes.Ix1Size | src/dimension.rs:640 | the rank-1 override is the generic element count |
| Sizes.Ix1SizeChecked | src/dimension.rs:642 | the rank-1 override is the generic checked count |
| Sizes.Ix2Size | src/dimension.rs:716 | the rank-2 override is the generic element count |
| Sizes.Ix2SizeChecked | src/dimension.rs:719-723 | the rank-2 override (one `checked_mul`) is the generic checked count |
| Sizes.Ix3Size | src/dimension.rs:829-834 | the rank-3 override is the generic element count |
| Strides.DefaultStrides | src/dimension.rs:191-209 | C-order strides: the last is 1 and each is the product of the extents after its axis (`RowMajor`) |
| Strides.FortranStrides | src/dimension.rs:212-230 | Fortran strides: the first is 1 and each is the product of the extents before its axis (`ColumnMajor`) |
| Strides.RowMajorRecurrence | src/dimension.rs:200-206 | the C-order strides satisfy the loop's recurrence: each stride is the next stride times the next extent |
| Strides.ColumnMajorRecurrence | src/dimension.rs:221-227 | the Fortran strides satisfy the loop's recurrence: each stride is the previous stride times the previous extent |
| Strides.ColumnMajorMirrorsRowMajor | src/dimension.rs:191-230 | Fortran strides are the C-order strides of the reversed shape, read backwards |
| Strides.Ix1DefaultStrides | src/dimension.rs:645-647 | the rank-1 override (`[1]`) matches the generic strides |
| Strides.Ix2DefaultStrides | src/dimension.rs:736-740 | the rank-2 override matches the generic C-order strides |
| Strides.Ix2FortranStrides | src/dimension.rs:742-744 | the rank-2 override matches the generic Fortran strides |
| Order.StrideKey | src/dimension.rs:394 | the sort key is the stride's `usize` bit pattern: congruent modulo 2^64, and the stride itself when non-negative |
| Order.SortAxesStable | src/dimension.rs:388-396 | the insertion sort yields a permutation of the axes, ascending by key, with ties kept in axis order |
| Order.FastestVaryingStrideOrder | src/dimension.rs:388-396 | the result is a stable ascending order of the axes by stride key |
| Order.StableOrderUnique | src/dimension.rs:388-396 | any stable ascending order of the axes is the computed one, so the result is independent of the sorting algorithm |
| Order.Ix0StrideOrder | src/dimension.rs:600 | the rank-0 override is the generic order |
| Order.Ix1StrideOrder | src/dimension.rs:650-652 | the rank-1 override is the generic order |
| Order.Ix2StrideOrder | src/dimension.rs:747-749 | the rank-2 override agrees with the generic order whenever both strides have the same sign |
| Order.Ix2StrideOrderMixedSigns | src/dimension.rs:747-749 | for strides (-1, 1) the rank-2 override gives (0, 1) and the generic order gives (1, 0) |
| Order.StableOrderOfThree | src/dimension.rs:872-891 | three distinct axes in ascending key order, ties by axis, form the stable order |
| Order.Ix3StrideOrder | src/dimension.rs:872-891 | the three-comparison sorting network equals the generic order |
| Contiguity.IsContiguousAlong | src/dimension.rs:371-379 | the `cstride` loop succeeds exactly when every axis of extent other than 1, in the given order, has as stride the product of the extents before it |
| Contiguity.IsContiguous | src/dimension.rs:360-380 | the verdict is `Contiguous`; C-order strides are always contiguous, and at rank 1 only stride `[1]` is |
| Contiguity.Ix2IsContiguous | src/dimension.rs:752-773 | the rank-2 override follows its own axis order, and matches the generic verdict when the strides share a sign |
| Contiguity.FortranStridesContiguous | src/dimension.rs:360-380 | Fortran strides of a non-empty shape whose count fits `usize` are contiguous |
| Contiguity.PrefixSizeMonotone | src/dimension.rs:371-379 | with positive extents the running product never decreases |
| Enumeration.FirstIndex | src/dimension.rs:234-245 | `None` exactly when some extent is zero; otherwise index number 0 of the traversal |
| Enumeration.UnrankZero | src/dimension.rs:234-245 | index number 0 of a non-empty shape is all zeros |
| Enumeration.NextFor | src/dimension.rs:252-269 | the loop computes `Successor`: increment the last axis and carry into earlier axes |
| Enumeration.SuccessorStep | src/dimension.rs:252-269 | on an in-bounds index the successor is `None` exactly at the last index; otherwise it is the in-bounds index of the next rank |
| Enumeration.SuccessorOfUnrank | src/dimension.rs:252-269 | the successor of index number r is index number r+1, or `None` at the end |
| Enumeration.RankBound | src/dimension.rs:252-269 | an in-bounds index has a row-major rank below the element count |
| Enumeration.RankUnrank | src/dimension.rs:252-269 | every rank below the element count decodes to an in-bounds index of that rank |
| Enumeration.UnrankRank | src/dimension.rs:252-269 | every in-bounds index is recovered from its rank |
| Enumeration.RankInjective | src/dimension.rs:252-269 | distinct in-bounds indices have distinct ranks |
| Enumeration.RowMajorOffsetIsRank | src/dimension.rs:191-209 | under C-order strides the offset of an index is its row-major rank |
| Enumeration.RankOrderIsLexOrder | src/dimension.rs:252-269 | rank order is lexicographic order of the indices |
| Enumeration.TraversalStart | src/dimension.rs:234-245 | the traversal of a non-empty shape starts at all zeros |
| Enumeration.TraversalSteps | src/dimension.rs:252-269 | consecutive traversal entries are related by `next_for`, and the last has no successor |
| Enumeration.TraversalIncreasing | src/dimension.rs:252-269 | the traversal is strictly increasing lexicographically |
| Enumeration.TraversalComplete | src/dimension.rs:252-269 | every in-bounds index appears in the traversal, at its rank |
| Enumeration.Ix0NextFor | src/dimension.rs:606-608 | the rank-0 override (always `None`) is the generic successor |
| Enumeration.Ix1NextFor | src/dimension.rs:625-632 | on in-bounds indices the rank-1 override is the generic successor |
| Enumeration.Ix2NextFor | src/dimension.rs:694-708 | on in-bounds indices the rank-2 override is the generic successor |
| Enumeration.Ix1NextForOutOfBounds | src/dimension.rs:625-632 | for shape (2) and index (5) the rank-1 override gives `None` and the generic loop gives (6) |
| Enumeration.Ix2NextForOutOfBounds | src/dimension.rs:694-708 | for shape (2, 2) and index (0, 5) the rank-2 override gives (1, 0) and the generic loop gives (0, 6) |
| Enumeration.Ix3NextFor | src/dimension.rs:837-857 | the rank-3 override is the generic successor |
| Enumeration.Ix1FirstIndex | src/dimension.rs:655-661 | the rank-1 override: `None` exactly for extent 0, otherwise index 0 |
| Enumeration.Ix2FirstIndex | src/dimension.rs:776-784 | the rank-2 override: `None` exactly when an extent is 0, otherwise the zero index |
| Overlap.DimStrideOverlap | src/dimension.rs:33-49 | the loop reports overlap exactly when some axis of extent other than 1, in fastest-varying order, has a stride below the previous axis's extent times stride |
| Overlap.ExampleOrders | src/dimension.rs:388-396 | the fastest-varying orders of strides (5,2,1), (6,2,1) and (6,0,1) |
| Overlap.OverlapExamples | src/dimension.rs:1186-1194 | shape (2,3,2) overlaps with strides (5,2,1) and (6,0,1) and does not overlap with (6,2,1) |
| Overlap.NoOverlapExample | src/dimension.rs:1174-1183 | shape (2,3,2) with strides (1,2,6) does not overlap |
| Overlap.OverlapMissesAliasing | src/dimension.rs:33-49 | shape (3,1,2) with strides (1,1,2) passes the test, yet indices (2,0,0) and (0,0,1) are both at offset 2 |
| Aliasing.DimStrideOverlapSpan | src/dimension.rs:26-49 | corrected test under the exact-span rule: overlap exactly when an axis of extent other than 1 has a stride not exceeding the whole span already covered by the faster axes |
| Aliasing.NoSpanOverlapInjective | src/dimension.rs:26-32 | with non-negative strides and no span overlap, distinct in-bounds indices have distinct offsets |
| Aliasing.SpanOverlapCatchesAliasing | src/dimension.rs:26-49 | the corrected test reports shape (3,1,2) with strides (1,1,2) as overlapping |
| Aliasing.SpanRuleLooserThanDocumented | src/dimension.rs:28-30 | shape (2,2) with strides (2,3) is reported overlapping by the code and by the documented `sum d_k * s_k` rule, but passes the exact-span rule, and its offsets are indeed distinct |
| Aliasing.SpanOverlapExamples | src/dimension.rs:1186-1194 | the corrected test gives the same verdicts as the tests on the three shapes there |
| Aliasing.OrderedSumIsOffset | src/dimension.rs:39-47 | summing index terms in any order that lists every axis once gives the offset |
| Aliasing.OrderedSumBound | src/dimension.rs:39-47 | with non-negative strides the partial offset over the first j axes of the order lies between 0 and their span |
| Bounds.CanIndexSlice | src/dimension.rs:58-97 | the verdict: `OutOfBounds` when the count overflows; `Unsupported` for a negative stride; `Unsupported` for a zero stride on a non-empty shape; `Ok` for an empty shape; otherwise the last element's offset against the slice length and the overlap test |
| Bounds.AcceptedIndicesInside | src/dimension.rs:50-57 | for a slice of at most `isize::MAX + 1` elements (every slice of sized elements), when the verdict is `Ok`, every in-bounds index has an offset inside the slice |
| Bounds.NonNegativeLastOffsetBoundsExtents | src/dimension.rs:62-87 | once the size fits `usize` and the strides are positive, a last offset that is non-negative as an `isize` forces every extent to at most `isize::MAX + 1` |
| Bounds.LargeExtentNegativeOffset | src/dimension.rs:108-121 | an extent above `isize::MAX + 1` makes the `i as isize` reading of the last index, and so the checked offset, negative |
| Bounds.GateAcceptsWrappedOffset | src/dimension.rs:83-90 | over `usize::MAX` elements the gate accepts extent 2^64 - 2^62 + 1 with stride 2, yet its last element sits at 3 * 2^63; the sign-checked gate refuses it |
| Bounds.SignCheckedIndicesInside | src/dimension.rs:83-90 | the gate with a refusal of a negative last offset keeps every in-bounds index of an accepted layout inside the slice, for every slice length |
| Bounds.SignCheckAgreesOnSizedSlices | src/dimension.rs:83-90 | for slices of at most `isize::MAX + 1` elements the added sign test never changes the verdict |
| Bounds.StrideSumMonotone | src/dimension.rs:79-90 | with non-negative strides an index below another in every component has the smaller offset |
| Bounds.ExampleShape | src/dimension.rs:1174-1183 | shape (2,3,2) has 12 elements and last index (1,2,1) |
| Bounds.AcceptsExample | src/dimension.rs:1174-1183 | a slice of 12 elements accepts shape (2,3,2) with strides (1,2,6) |
| Bounds.RefusesExample | src/dimension.rs:1174-1183 | a slice of 12 elements refuses shape (2,3,2) with strides (2,4,12) as out of bounds |
| Slicing.AbsIndex | src/dimension.rs:444-450 | a non-negative index is kept, and a negative one counts from the end; past the start it leaves the range |
| Slicing.CeilDiv | src/dimension.rs:350-352 | `d + (r > 0)` is the least count whose product with the divisor reaches the dividend |
| Slicing.SliceAxis | src/dimension.rs:316-355 | per axis: the new extent is the range length divided by the step, rounded up; the new stride is stride times step; the displacement is the first visited position times stride |
| Slicing.DoSlices | src/dimension.rs:311-357 | every extent and stride is replaced per axis, and the returned offset is the offset of the first visited position |
| Slicing.SliceAxisPositions | src/dimension.rs:328-352 | the visited positions along an axis stay inside the selected range, and the next position after the last one leaves it |
| Slicing.SlicedViewAddressing | src/dimension.rs:311-357 | an in-bounds index of the sliced view maps to an in-bounds index of the original, and the returned offset plus its new offset is its original offset |
| Slicing.FullSliceIsIdentity | src/dimension.rs:311-357 | slicing every axis with `..` keeps extents and strides and displaces by 0 |
| Subview.DoSub | src/dimension.rs:457-467 | demands an in-bounds index, sets that extent to 1, leaves the other extents, and displaces by index times stride |
| Subview.SubViewAddressing | src/dimension.rs:457-467 | every index of the collapsed view addresses the original sub-array at that index, offset by the displacement |
| Subview.SubViewCovers | src/dimension.rs:457-467 | every element of that sub-array is reached from the collapsed view |
| Axes.RemoveAxis | src/dimension.rs:997-1004 | removing an axis keeps the earlier entries and shifts the later ones down one |
| Axes.RemoveInsertAxis | src/dimension.rs:965-994 | removing an axis that was just inserted restores the shape |
| Axes.RemoveAxisOrLast | src/dimension.rs:965-994 | the fixed-rank copy loop: with an out-of-range axis (no bounds check) it drops the last entry |
| Axes.Ix1RemoveAxis | src/dimension.rs:949-953 | rank 1 to rank 0 is the generic removal |
| Axes.Ix2RemoveAxis | src/dimension.rs:955-963 | the rank-2 override is the generic removal |
| Axes.FixedRemoveAxis | src/dimension.rs:965-994 | the cursor loop for ranks 3 to 5 computes the generic removal |
| Axes.DefaultStridesCommuteWithRemoval | src/dimension.rs:191-209 | dropping an axis of extent 1 from a shape drops its entry from the C-order strides |
| Axes.UnitExtentSize | src/dimension.rs:180-182 | an axis of extent 1 does not change the element count |
| Indexing.Ix1StrideOffset | src/dimension.rs:665-667 | the rank-1 override is the generic offset |
| Indexing.Ix1StrideOffsetChecked | src/dimension.rs:671-677 | the rank-1 override: `None` exactly when out of bounds, and otherwise the generic checked offset |
| Indexing.Ix2StrideOffset | src/dimension.rs:788-794 | the rank-2 override is the generic offset |
| Indexing.Ix2StrideOffsetChecked | src/dimension.rs:798-811 | the rank-2 override: `None` exactly when a component is out of bounds, otherwise the generic checked offset |
| Indexing.Ix3StrideOffset | src/dimension.rs:861-869 | the rank-3 override is the generic offset |
| Indexing.UnitIndexChecked | src/dimension.rs:1035-1044 | `()` on a rank-0 array always succeeds at offset 0 |
| Indexing.UnitIndexUnchecked | src/dimension.rs:1035-1044 | `()` unchecked is offset 0, the empty sum |
| Indexing.ScalarIndexChecked | src/dimension.rs:1046-1055 | a bare `Ix` is `None` exactly at or past the extent, and otherwise index times stride |
| Indexing.ScalarIndexUnchecked | src/dimension.rs:1046-1055 | a bare `Ix` unchecked is the generic offset of `[i]` |
| Indexing.PairIndexChecked | src/dimension.rs:1057-1067 | a pair is `None` exactly when a component is out of bounds, otherwise the generic checked offset |
| Indexing.PairIndexUnchecked | src/dimension.rs:1057-1067 | a pair unchecked is the generic offset |
| Indexing.TripleIndexChecked | src/dimension.rs:1068-1080 | a triple is `None` exactly when a component is out of bounds, otherwise the sum of its three terms |
| Indexing.TripleIndexUnchecked | src/dimension.rs:1068-1080 | a triple unchecked is the generic offset |
| Indexing.ZipStrideSum | src/dimension.rs:1135-1149 | the zipped sum, folded first axis first, is the generic offset |
| Indexing.DynIndexChecked | src/dimension.rs:1135-1149 | a dynamic index is `None` exactly when out of bounds, otherwise the zipped sum |
| Access.Equal | src/dimension.rs:159-161 | two shapes are equal exactly when they have the same rank and agree on every axis |
| Access.Ix1Equal | src/dimension.rs:635-637 | the rank-1 override is the generic equality |
| Access.Ix2Equal | src/dimension.rs:711-713 | the rank-2 override is the generic equality |
| Access.LastElem | src/dimension.rs:296-298 | the last extent, or 0 at rank 0; always 0 or one of the extents |
| Access.Ix2LastElem | src/dimension.rs:726-728 | the rank-2 override is the generic last extent |
| Access.SetLastElem | src/dimension.rs:301-304 | overwrites the last extent and nothing else |
| Access.LastElemAfterSet | src/dimension.rs:296-304 | after `set_last_elem(i)`, `last_elem` reads `i` and the other extents are unchanged |
| Access.SetAxis | src/dimension.rs:425-428 | overwrites the extent of one existing axis and nothing else |

## Left out

- Raw memory: `slice`/`slice_mut`, the conversions to `ArrayView1`/`ArrayViewMut1`, `ptr.offset` in `do_sub`, and the slice argument of `can_index_slice`. Only the slice's length is a parameter. `do_sub` returns its displacement instead of moving the raw address.
- `ndim`, `into_pattern`, `into_dimension`, `convert`, and the `Dim`/`Pattern` conversion macros. These are plumbing around the sequences the model uses directly.
- `axis(Axis(i))` is plain indexing of the sequence. `set_axis` is `Access.SetAxis`. The slice impls of `axis`/`set_axis` (433-441) are the same operations.
- Unchecked wrap-around. `size`, the `default_strides`/`fortran_strides` products, the unchecked `stride_offset`, `s_prim` and the `do_slices` displacement are computed in debug-checked or wrapping `usize`/`isize` in the source. The model computes them over unbounded integers, which coincide with the machine result whenever nothing overflows. In the same way, `is_contiguous` compares a stride's `usize` word with `cstride`, and the model compares the signed stride. The two differ only when a negative stride's word equals a running product of at least 2^63. The running product `cstride *= dim_slice[i]` of `is_contiguous` (src/dimension.rs:377) is a wrapping `usize` product there and an unbounded one here. The `strides.equal(&defaults)` shortcut (362) compares `usize` words, while the model compares the signed strides with unbounded default strides, so the two differ when a default stride is 2^63 or more.
- `do_slices` preconditions: each extent is at most `isize::MAX`, because of the `m as Ixs` cast; every step is non-zero (the `assert!`); a negative step selects a non-empty range, because the source computes `m - 1` in `usize` there, which underflows on an empty range; the selected range lies inside the axis (the `assert!`s at 326-327), so a start such as `-m - 1`, which `abs_index` wraps past `isize::MAX`, is excluded instead of panicking; and the `start`, `end` and `step` fields of every `Si` are `isize` values (`Slicing.SiInRange`). All of these are `requires` of `Slicing.SliceValid` instead of modelled panics. The slice count must equal the rank, which the source asserts.
- `zipsl` length agreement, and the equal ranks of `dim`, `strides` and `index`, are `requires` like the source's assertions.
- `remove_axis` with an axis out of range follows release builds. The rank-2 override (955-963) has a `debug_assert!(axis < self.ndim())` at line 960, and the fixed-rank cursor loop (965-994) has no check at all. In release builds both drop the last entry (`Axes.RemoveAxisOrLast`).
- Ranks 4 and 5 (913-914) have no overrides besides `remove_axis`, so they use the generic members; `Axes.FixedRemoveAxis` covers their `remove_axis` and that of rank 3. Ranks 6 to 12 are commented out in the source.
- `IxDyn` `remove_axis` (997-1004) is `Axes.RemoveAxis`; its `Vec` reallocation is not modelled.
- `[Ix; 2]` and `[Ix; 3]` indices (1103-1126) compute exactly what the pair and triple do, and share `Indexing.PairIndexChecked`/`Indexing.TripleIndexChecked`. `Vec<Ix>` (1151-1165) shares `Indexing.DynIndexChecked` with `&[Ix]`. The generic `D: Dimension` index (1024-1033) is `Offsets.StrideOffsetChecked`. The rank-4 and rank-5 tuples (1082-1101) delegate to the generic checked offset.
- The rank-2 `set_last_elem` override (731-733) writes the same entry as the generic one, and is `Access.SetLastElem`.
- Overlap.DimStrideOverlap: always walks the axes in the generic order. For a rank-2 view the source calls the signed rank-2 override (747-749), which differs only for strides of mixed signs, and line 32 assumes positive strides.
- Bounds.AcceptedIndicesInside: holds only for slices of at most `isize::MAX + 1` elements. Longer slices exist only for zero-sized elements, and for them the gate can accept a layout whose last offset wraps (`Bounds.GateAcceptsWrappedOffset`).
- Order.Ix2StrideOrder: agrees with the generic order only when both strides have the same sign, because the override compares signed strides; `Order.Ix2StrideOrderMixedSigns` shows the difference.
- Contiguity.Ix2IsContiguous: is related to the generic verdict only when both strides have the same sign, for the same reason.
- Enumeration.Ix1NextFor: agrees with the generic successor only on in-bounds indices. Out of bounds, the override and the generic loop differ; `Enumeration.Ix1NextForOutOfBounds` shows the difference.
- Enumeration.Ix2NextFor: agrees with the generic successor only on in-bounds indices; `Enumeration.Ix2NextForOutOfBounds` shows the difference.
- Error values are `ErrorKind` only; `ShapeError` formatting is not modelled.
- The `#[cfg(test)]` module is not compiled (1167). Its cases appear as the example lemmas cited above.

## Findings

| source | as written | input that shows it | evidently intended | confidence | as-written member | corrected member |
|---|---|---|---|---|---|---|
| src/dimension.rs:46 | `prev_offset` becomes `d * s` of the previous axis only, so it forgets the span of the axes before it, and an extent-1 axis sets it back to its own stride | shape (3, 1, 2), strides (1, 1, 2): the test reports no overlap, yet indices (2, 0, 0) and (0, 0, 1) both have offset 2 | distinct indices never share an element; the corrected member uses the exact-span rule, under which each stride exceeds the span `sum (d_k - 1) * s_k` already covered by the faster axes; this rule accepts more than the `sum d_k * s_k` rule of the doc comment at 28-30, for example shape (2, 2) with strides (2, 3) (Aliasing.SpanRuleLooserThanDocumented) | not executed | Overlap.OverlapMissesAliasing | Aliasing.NoSpanOverlapInjective |
| src/dimension.rs:85-87 | the last offset is assumed non-negative and cast with `offset as usize`, but `i as isize` at line 113 wraps a last index above `isize::MAX`, so a negative offset reads back as a large `usize` that can still be below the length of a slice of zero-sized elements | a slice of `usize::MAX` zero-sized elements, shape (2^64 - 2^62 + 1), stride 2: the offset -2^63 reads as 2^63 < length, so the gate accepts, yet the last element is at 3 * 2^63 | refuse a negative last offset (the comment at 85-86 takes it for granted), so that every in-bounds index of an accepted layout lies inside the slice | not executed | Bounds.GateAcceptsWrappedOffset | Bounds.SignCheckedIndicesInside |
