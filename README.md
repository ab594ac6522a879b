# NumPy ndarray object core, modelled in Dafny

This project models the core of `numpy/core/src/multiarray/arrayobject.cpp`, the
C implementation of the `ndarray` object, and proves properties of the model.
It covers:

- **Base-object collapsing.** `PyArray_SetBaseObject` points a view at the object
  that really owns its memory. The walk is modelled over a heap of object records
  (`Ownership.ObjectSpace`). It needs the base graph to be acyclic.
- **Teardown.** `array_dealloc` writes an UPDATEIFCOPY array back into its base and
  frees only what the array owns. The model records the host calls in a log, in
  the order they are made.
- **Fixed-width text comparison.**
  - The unsigned comparators `PyArray_CompareString` and `PyArray_CompareUCS4`.
  - The NUL-padding comparators `_mystrncmp` and `_myunincmp`.
  - The in-place trailing-blank strippers and their copying wrappers.
  - The per-position loop `_compare_strings`.
  - The kind reconciliation of `_strings_richcompare`.

  Byte and UCS4 variants share one model over sequences of unsigned code units
  (`seq<nat>`).
- **Structured-record comparison.** `_void_compare` folds per-field results with
  AND for EQ and OR for NE.
- **The dispatch of `array_richcompare`.** This covers the `None` short-circuit,
  the NotImplemented rules, the structured-record path and the text fallback.
  Every collaborator (coercion, ufunc, dtype equality) is given as its outcome.
- **Layout validators.** These are `PyArray_ElementStrides`,
  `PyArray_CheckStrides` and the argument validation of `array_new`.

Integers are unbounded. C's truncating `%` and `/` are written out explicitly as
`Layout.CRem` and `Layout.CDiv`. `memcmp` is modelled by its sign. A unit is blank when it is
one of six characters: space, tab, newline, carriage return, vertical tab or form
feed. The file redefines `isspace` as exactly this test where the platform
defines `isspace` as a macro; elsewhere the C library's `isspace` applies, which
agrees with it on bytes in the C locale.

## Model

All source paths are relative to the repository root.

| member | source | states |
|---|---|---|
| Ownership.ObjectSpace.CollapseTarget | numpy/core/src/multiarray/arrayobject.cpp:97-129 | The collapse walk from `obj` follows bases past every non-owning array other than `arr`. When `arr` does not own its NA mask, the walk also stops at the first array that owns its mask. The result is the object the walk stops on, and the walk is returned as a collapse chain. |
| Ownership.ObjectSpace.SetBaseObject | numpy/core/src/multiarray/arrayobject.cpp:76-142 | NULL is rejected, a second assignment is rejected, and a walk ending at `arr` is rejected; each error leaves every record unchanged. On success only `arr`'s base changes, to the end of the collapse chain, and the base graph stays closed. |
| Ownership.CollapseChainUnique | numpy/core/src/multiarray/arrayobject.cpp:97-129 | The collapse walk is determined by its starting object. |
| Ownership.CollapseChainReaches | numpy/core/src/multiarray/arrayobject.cpp:97-139 | The stored base is reached from `obj` by following base links. |
| Ownership.ObjectSpace.ReachesFrom | numpy/core/src/multiarray/arrayobject.cpp:131-137 | It returns true exactly when `target` lies on the base chain of `start`. This is the widened circularity test of the corrected member. |
| Ownership.ObjectSpace.SetBaseObjectChecked | numpy/core/src/multiarray/arrayobject.cpp:76-142 | This is the corrected form: a target whose base chain leads back to `arr` is rejected. Every call keeps the base graph acyclic. |
| Ownership.LinkPreservesAcyclic | numpy/core/src/multiarray/arrayobject.cpp:131-139 | Attaching a base that does not lead back to `arr` keeps the graph acyclic. |
| Ownership.CycleNotAcyclic | numpy/core/src/multiarray/arrayobject.cpp:131-137 | An object whose base leads back to it lies on a cycle, and such a graph has no ranking. |
| Ownership.CircularBaseAccepted | numpy/core/src/multiarray/arrayobject.cpp:103-139 | The circularity test as written accepts an UPDATEIFCOPY copy whose base is `arr`, and linking it closes a cycle. The widened test rejects that input. |
| Ownership.LaterWalkDiverges | numpy/core/src/multiarray/arrayobject.cpp:103-139 | A view that owns its NA mask, made the base of its own base, passes the circularity test as written. On the resulting cycle, a later walk for an array that owns its mask has no end: no collapse chain exists. |
| Ownership.ObjectSpace.WriteBack | numpy/core/src/multiarray/arrayobject.cpp:363-381 | An UPDATEIFCOPY array re-enables WRITEABLE on its base. It then copies its elements into the base, and a failed copy is only reported. |
| Ownership.WrittenBackChangesOnlyBase | numpy/core/src/multiarray/arrayobject.cpp:363-381 | Only the record of the base of an UPDATEIFCOPY array changes. It becomes writeable and, when the copy succeeds, holds the array's elements; otherwise it keeps its own. Memory the base shares with its owner and other views is not modelled (see Left out). |
| Ownership.ObjectSpace.Dealloc | numpy/core/src/multiarray/arrayobject.cpp:353-416 | The array is removed and the heap stays closed and acyclic. The only other change is the write-back, and the log gains exactly the teardown calls. |
| Ownership.ReleasePreservesValid | numpy/core/src/multiarray/arrayobject.cpp:353-416 | Removing an unreferenced array after the write-back keeps the heap closed and acyclic. |
| Ownership.DeallocEvents | numpy/core/src/multiarray/arrayobject.cpp:353-416 | The object is freed last. For an UPDATEIFCOPY array, unlocking the base and copying back come before the base is released. |
| Ownership.ObjectSpace.ReleaseData | numpy/core/src/multiarray/arrayobject.cpp:392-403 | Only the log changes. For an array that owns a non-NULL buffer, it gains the release of the object items (when the dtype holds references) and then the freeing of the data; otherwise it gains nothing. |
| Ownership.ObjectSpace.ReleaseMask | numpy/core/src/multiarray/arrayobject.cpp:405-411 | Only the log changes. For an array with an NA mask, it gains the release of the mask dtype, and then the freeing of the mask when the array owns it. |
| Ownership.DeallocReleasesBase | numpy/core/src/multiarray/arrayobject.cpp:362-390 | The base reference is released exactly when there is a base, and no other object is released as the base. |
| Ownership.DeallocFreesOwnedData | numpy/core/src/multiarray/arrayobject.cpp:392-403 | Data is freed exactly when the array owns a non-NULL buffer. Object items are released exactly when that buffer holds references. |
| Ownership.DeallocFreesOwnedMask | numpy/core/src/multiarray/arrayobject.cpp:405-411 | The NA mask is freed exactly when the array has one and owns it. |
| TextCompare.LexCmp | numpy/core/src/multiarray/arrayobject.cpp:676-705 | The comparison of two equal-length unit strings is -1, 0 or 1. |
| TextCompare.LexCmpMeaning | numpy/core/src/multiarray/arrayobject.cpp:676-705 | The result is 0 exactly when the strings are equal. It is -1 (or 1) exactly when the first differing unit is smaller (or larger) on the left. |
| TextCompare.LexCmpAntisymmetric | numpy/core/src/multiarray/arrayobject.cpp:676-705 | Swapping the operands negates the result. |
| TextCompare.CompareUnits | numpy/core/src/multiarray/arrayobject.cpp:676-705 | The index loop returns the lexicographic comparison of the first `len` units. |
| TextCompare.PaddedCmpCases | numpy/core/src/multiarray/arrayobject.cpp:714-802 | The shared-prefix comparison is decisive when nonzero. Otherwise, with unequal lengths, the result is 0 exactly when the longer tail is all NUL, and -1 when the right operand is longer and 1 when the left is. This equals comparing both operands NUL-padded to a common length. |
| TextCompare.PaddedCmpAntisymmetric | numpy/core/src/multiarray/arrayobject.cpp:714-802 | Swapping the operands negates the padded comparison. |
| TextCompare.PaddedCmpZeroIff | numpy/core/src/multiarray/arrayobject.cpp:714-802 | The padded comparison is 0 exactly when the operands differ only by trailing NULs. |
| TextCompare.PaddedCompare | numpy/core/src/multiarray/arrayobject.cpp:714-802 | The prefix comparison followed by the tail scan returns the padded comparison. |
| TextCompare.PaddingExamples | numpy/core/src/multiarray/arrayobject.cpp:774-802 | "ab" equals "ab\0", and "ab" sorts before "abc". |
| TextCompare.TrailStart | numpy/core/src/multiarray/arrayobject.cpp:813-840 | It gives the start of the maximal run of blank units at positions 1 and above. |
| TextCompare.TrailStartUnique | numpy/core/src/multiarray/arrayobject.cpp:813-840 | That start is the only index with this property. |
| TextCompare.StrippedMeaning | numpy/core/src/multiarray/arrayobject.cpp:813-840 | Stripping keeps the length, keeps index 0 and everything before the last non-blank unit, and zeroes the rest. |
| TextCompare.StrippedIdempotent | numpy/core/src/multiarray/arrayobject.cpp:813-840 | Stripping twice is stripping once. |
| TextCompare.StripTrailing | numpy/core/src/multiarray/arrayobject.cpp:813-840 | The descending in-place loop leaves the buffer equal to the stripped contents. |
| TextCompare.CopyAndStrip | numpy/core/src/multiarray/arrayobject.cpp:843-879 | It returns a fresh buffer holding the stripped copy, so the original is untouched. |
| TextCompare.RStripIgnoresTrailingBlanks | numpy/core/src/multiarray/arrayobject.cpp:892-911 | After stripping, a non-empty string with trailing blanks appended compares equal to the string without them. |
| TextCompare.RStripExample | numpy/core/src/multiarray/arrayobject.cpp:892-924 | "ab  " against "ab" compares equal with stripping and greater without it. |
| TextCompare.CompareStrings | numpy/core/src/multiarray/arrayobject.cpp:892-1003 | For a valid operator every position gets `cmp OP 0`, with cmp applied to the stripped copies under rstrip and UCS4 widths taken as elsize/4. Any other operator returns -1 and writes nothing. |
| TextCompare.Widened | numpy/core/src/multiarray/arrayobject.cpp:1017-1061 | Both sides end with the same kind: UNICODE when the kinds differ, and both operands unchanged when they agree. The STRING side of a mixed pair becomes UNICODE with four times its element size while the other side is unchanged, so each side keeps its number of code units. |
| TextCompare.StringsRichCompare | numpy/core/src/multiarray/arrayobject.cpp:1009-1098 | Under Py3K, mismatched kinds give NotImplemented; otherwise a mismatch other than STRING/UNICODE is an error. A failed broadcast is an error, and so is a bad operator. Otherwise the result is a BOOL array with the broadcast shape and one comparison per position. |
| VoidCompare.VoidCompare | numpy/core/src/multiarray/arrayobject.cpp:1110-1216 | Only EQ and NE are accepted, and any failing field is an error. Over the non-title fields, EQ is the AND fold and NE the OR fold, with extra field dimensions reduced by the same operator. No real field gives "No fields found.", and a VOID dtype without fields is compared as text with rstrip off. |
| VoidCompare.VerdictComplement | numpy/core/src/multiarray/arrayobject.cpp:1125-1201 | When every field's NE result negates its EQ result, the record NE result negates the record EQ result. |
| RichCompare.RichCompareAsWritten | numpy/core/src/multiarray/arrayobject.cpp:1218-1370 | Against None, EQ gives False and NE gives True. Object arrays never reach the record or text comparison. The coerced operand is kept exactly on the NE path with unequal record dtypes. A ufunc value answers once the None and coercion tests are passed, and every call the first stage defers goes to the fallback as written. |
| RichCompare.Fallback | numpy/core/src/multiarray/arrayobject.cpp:1355-1369 | The text comparison answers only when both sides are text, and for a non-object array with two converted text operands it does answer. An object array answers NotImplemented, any other converted pair answers NotImplemented, and a failed conversion is read through as a NULL array. |
| RichCompare.RichCompareChecked | numpy/core/src/multiarray/arrayobject.cpp:1218-1370 | The corrected dispatch never leaks and never reads NULL. None is unequal to every array, and an operand that cannot be coerced defers to the reflected operation. A ufunc value answers; a failing ufunc defers for EQ/NE and raises for the ordering operators; an unknown operator never reaches the ufunc. Records whose ufunc deferred are compared field by field when the dtypes are equal, defer when they differ and raise when the test fails. Every other deferred call goes to the checked fallback, where two text operands are compared as text and a failed conversion raises. |
| RichCompare.CheckedAgreesWithAsWritten | numpy/core/src/multiarray/arrayobject.cpp:1218-1370 | Wherever the fallback conversion succeeds, self is an object array, or the call never reaches the fallback, the corrected dispatch gives the same answer as the code as written. |
| RichCompare.UnequalRecordDtypesLeak | numpy/core/src/multiarray/arrayobject.cpp:1315-1334 | For NE between records of unequal dtypes, the coerced operand is never released. |
| RichCompare.FailedConversionDereferenced | numpy/core/src/multiarray/arrayobject.cpp:1355-1368 | A failed fallback conversion is read as an array. |
| Layout.ElementStrides | numpy/core/src/multiarray/arrayobject.cpp:1374-1398 | It is true exactly for an array whose every stride is a multiple of the item size. |
| Layout.CRemZeroIffDivides | numpy/core/src/multiarray/arrayobject.cpp:1392-1396 | C's truncating remainder is zero exactly when the divisor divides the value. |
| Layout.CheckStrides | numpy/core/src/multiarray/arrayobject.cpp:1418-1439 | It is true exactly when every axis's last element offset lies in `[-offset, numbytes-offset-elsize]`, with a zero `numbytes` replaced by product(dims)*elsize. |
| Layout.AxisElementsInside | numpy/core/src/multiarray/arrayobject.cpp:1400-1415 | When element zero and an axis's last element both fit, every element along that axis lies inside the buffer. |
| Layout.ArrayNew | numpy/core/src/multiarray/arrayobject.cpp:1484-1553 | It rejects itemsize 0 and a strides length that differs from the dims length. A failed reach check gives StridesIncompatible, with no buffer counting as length 0. Without strides and without a `[-1]` shape, a buffer shorter than offset+itemsize*product(dims) gives BufferTooSmall. Every input that passes these checks is accepted, with its strides and offset. A `[-1]` shape with the offset inside the buffer becomes one axis holding as many whole elements as fit after the offset, and every other accepted shape is kept. |
| Layout.ArrayNewChecked | numpy/core/src/multiarray/arrayobject.cpp:1484-1553 | This is the corrected validation. It keeps the error order of the code as written, but infers the `[-1]` length right after the item size, strides length and offset checks, before the strides and size checks. Explicit strides, with or without a buffer and with an inferred length, are accepted exactly when they pass the memory extent test, so an array with an empty axis is accepted. An accepted buffer view has its offset within the buffer. Without strides, offset+itemsize*product(dims) fits in the buffer. |
| Layout.OffsetWithinReach | numpy/core/src/multiarray/arrayobject.cpp:1400-1415 | The byte offset of every in-bounds index tuple lies between the summed negative and the summed positive reach of the axes. |
| Layout.ElementsFitInside | numpy/core/src/multiarray/arrayobject.cpp:1400-1415 | When the memory extent test passes, every element of the array lies inside the buffer. |
| Layout.ArrayNewCheckedStaysInBuffer | numpy/core/src/multiarray/arrayobject.cpp:1500-1553 | Every element (any in-bounds index tuple) of an accepted strided array lies inside its memory: the wrapped buffer, or the allocation of product(dims) elements. |
| Layout.CombinedReachUnchecked | numpy/core/src/multiarray/arrayobject.cpp:1418-1439 | Shape (2, 2) with strides (8, 8) over a 16-byte buffer passes as written, yet element (1, 1) ends at byte 24. The corrected validation rejects it. |
| Layout.EmptyViewRejected | numpy/core/src/multiarray/arrayobject.cpp:1431-1437 | A view of shape (0,) with stride 8 over a 16-byte buffer is rejected as written, though no index addresses it. The corrected validation accepts it. |
| Layout.NegativeOffsetAccepted | numpy/core/src/multiarray/arrayobject.cpp:1504-1518 | A negative offset with a buffer passes validation as written. |
| Layout.EmptyBufferAccepted | numpy/core/src/multiarray/arrayobject.cpp:1427-1518 | An empty buffer passes the strides check as written. |
| Layout.InferredLengthUnchecked | numpy/core/src/multiarray/arrayobject.cpp:1510-1543 | A `[-1]` shape is checked against strides before its length is inferred, so negative strides can reach outside the buffer. |

## Left out

- `PyArray_CopyObject`, printing and representation (`dump_data`, `array_repr_builtin`, `array_repr`, `array_str`, `PyArray_SetStringFunction`, `PyArray_DebugPrint`), `PyArray_TypeNumFromName`, the type slot table, `array_alloc` and `array_iter` are left out. They are I/O, global registries or glue around code that is not part of this model.
- Python reference counting is not modelled, apart from the single coerced-operand marker in `RichCompare`. The same goes for the exception state, weak-reference clearing and buffer-info cleanup in `array_dealloc`. `PyDimMem_FREE` and the release of the dtype appear only as logged calls.
- The out-of-memory paths (the SMALL_STRING stack-or-heap choice, failing `malloc`, a failing result allocation) and the misalignment copies in `_myunincmp` are left out.
- The broadcast multi-iterator `PyArray_MultiIterNew` is not part of this model. Its output is an input of shape plus two equal-length sequences of elements, and its failure is an absent input.
- The generic ufunc dispatch, `PyArray_FromAny`, `PyArray_FromObject`, the dtype equality test and the per-field `array_richcompare` calls of `_void_compare` enter as given outcomes. Their failures are modelled as outcomes, but not their computation.
- TextCompare.StringsRichCompare: the widened byte side keeps each byte's value as its code point; the decoding done by `PyArray_FromAny`, and its failure, are not modelled.
- VoidCompare.VoidCompare: the reshape, reduction and logical-op calls of `_void_compare` are assumed to succeed. A field comparison answering NotImplemented is not distinguished from a boolean array.
- Ownership.ObjectSpace.SetBaseObject: requires the base graph to be acyclic, which the loop as written needs in order to terminate. The code as written can itself close a cycle (see Findings), after which a later walk may not end; Ownership.LaterWalkDiverges shows such a heap.
- Buffers shared between a view and its owner are not modelled. Each record holds its own elements, so the UPDATEIFCOPY write-back of `array_dealloc` is visible only in the base's record. Through the aliasing of the C code, it also changes the owner of that memory and every other view of it.
- Ownership.ObjectSpace.Dealloc: requires that no live object has the released array as its base; a released array has no remaining references.
- Layout.ArrayNew: a success only means the arguments passed validation. `PyArray_NewFromDescr`, which later rejects negative dimensions (for example `ndarray((-2,))` without a buffer), is not part of this model, and neither is the `order` argument.
- Layout.ElementStrides: requires a positive item size, since C's `%` by zero is undefined.
- The 64-bit width of `npy_intp` is not modelled. Nor is the overflow of `stride*(dims-1)`, `offset + itemsize*product(dims)`, or `elsize << 2`.

## Findings

| source | as written | input that shows it | evidently intended | confidence | as-written member | corrected member |
|---|---|---|---|---|---|---|
| numpy/core/src/multiarray/arrayobject.cpp:131-139 | The circularity test compares only the collapse target with `arr` | `v` owns its data and has base `arr` (an UPDATEIFCOPY copy); `SetBaseObject(arr, v)` | Reject any target whose base chain leads back to `arr` | medium, not executed | Ownership.CircularBaseAccepted | Ownership.ObjectSpace.SetBaseObjectChecked |
| numpy/core/src/multiarray/arrayobject.cpp:103-139 | A view that owns its NA mask stops the walk at once, so the test sees only the view and not its base `arr` | `arr` (no base, does not own its mask) and view `v` (base `arr`, owns its mask); `SetBaseObject(arr, v)`, then `SetBaseObject(w, arr)` for a third array `w` that owns its mask | Reject any target whose base chain leads back to `arr`; the second call then never faces a cycle | medium, not executed | Ownership.LaterWalkDiverges | Ownership.ObjectSpace.SetBaseObjectChecked |
| numpy/core/src/multiarray/arrayobject.cpp:1418-1439 | Each axis's reach is checked on its own | shape (2, 2), itemsize 8, 16-byte buffer, offset 0, strides (8, 8) | Check the combined reach of all axes, summing the negative and the positive reaches | medium, not executed | Layout.CombinedReachUnchecked | Layout.ArrayNewChecked |
| numpy/core/src/multiarray/arrayobject.cpp:1431-1437 | An axis of length 0 is checked at index -1, so a positive stride reaches before the buffer | shape (0,), itemsize 8, 16-byte buffer, offset 0, strides (8,) | Accept an array with no elements, which reaches no memory | medium, not executed | Layout.EmptyViewRejected | Layout.ArrayNewChecked |
| numpy/core/src/multiarray/arrayobject.cpp:1504-1518 | With a buffer, the offset is passed on unchecked | shape (2,), itemsize 8, 16-byte buffer, offset -8, strides (8,) | Reject an offset outside the buffer | high, not executed | Layout.NegativeOffsetAccepted | Layout.ArrayNewChecked |
| numpy/core/src/multiarray/arrayobject.cpp:1427-1429, 1505-1512 | A zero-length buffer is read as "no length given" | shape (2,), itemsize 8, empty buffer, strides (8,) | Check the strides against the real buffer length | high, not executed | Layout.EmptyBufferAccepted | Layout.ArrayNewChecked |
| numpy/core/src/multiarray/arrayobject.cpp:1510-1543 | Strides are checked against the shape `[-1]` before its length is inferred | shape (-1,), itemsize 8, 32-byte buffer, offset 0, strides (-8,) | Infer the length first and check the strides against it | high, not executed | Layout.InferredLengthUnchecked | Layout.ArrayNewChecked |
| numpy/core/src/multiarray/arrayobject.cpp:1315-1334 | On the NE path, unequal record dtypes return without releasing the coerced operand | structured array `!=` an array of another record dtype | Release the coerced operand on every path, as the EQ path does | high, not executed | RichCompare.UnequalRecordDtypesLeak | RichCompare.RichCompareChecked |
| numpy/core/src/multiarray/arrayobject.cpp:1359-1367 | The fallback conversion result is read and released without a NULL test | a non-object array compared with an operand whose conversion raises, after the ufunc answered NotImplemented | Propagate the conversion error | medium, not executed | RichCompare.FailedConversionDereferenced | RichCompare.RichCompareChecked |
