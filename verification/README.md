# WebGL operator support table generator, modelled in Dafny

This project models the script that writes the WebGL backend's operator
support table for ONNX Runtime Web (`js/web/script/generate-webgl-operator-md.ts`).
The script works in four steps:

1. It scans the ONNX operator-set declarations `(opset, version, opType)` into a
   registry: opset -> operator type -> versions.
2. It computes `VERSION_MAX`, the largest version recorded for any type.
3. For each type it sorts the versions and cuts them into ranges
   `[v_i, v_{i+1} - 1]`. The last range is `[v_k, VERSION_MAX]`. It then asks
   the backend's resolve rules whether every version in each range resolves.
4. It formats each supported range as a changelog link labelled `lo`,
   `lo-hi` or `lo+`, and writes one row per type in sorted type order.

The backend's resolve rules are an opaque yes/no question here. The
parameter `accepts(opType, version)` answers it: true when resolving the
operator at that version, in domain `""`, finds a rule.

Files and modules:

- `wrappers.dfy` (`Wrappers`): `Option` and `Result`.
- `text.dfy` (`Text`): integer rendering and reading, and the default string
  order of `Array.prototype.sort()`. It also holds `join` and its inverse.
- `registry.dfy` (`Registry`): the nested registry map. It has a class
  `OperatorSets` whose `Record`/`RecordAll` methods update it, and functions
  `Recorded`/`RecordedAll` that specify those methods.
- `versions.dfy` (`Versions`): the numeric sort, the range cut, and the
  `VERSION_MAX` fold.
- `support.dfy` (`Support`): `checkSupport`.
- `descriptors.dfy` (`Descriptors`): `formatDesc` and a reader that parses a
  descriptor back.
- `table.dfy` (`SupportTable`): the per-type loop, the type order and the
  whole table.

## Behaviour worth knowing

- Every declaration's version is appended to its type's list, repeats
  included (lines 58-64; `VersionsFor`, `RecordedAllLookup`). A repeated
  version `v` therefore yields the range `[v, v-1]`. That range is listed as
  `v-(v-1)`, because the support check passes it vacuously
  (`RepeatedVersionListed`).
- An empty scan, or any opset other than `Onnx`, fails the `assert.ok` at
  line 69. The model returns `Failure` in that case.
- A range with `lo > hi` is reported as supported, because the probe loop at
  line 16 never runs.
- The support check probes up to the range's own upper end. That end is
  `VERSION_MAX` only for the last range.

## Model

| member | source | states |
|---|---|---|
| `Registry.OperatorSets.constructor` | js/web/script/generate-webgl-operator-md.ts:38 | The registry starts as an empty map. |
| `Registry.OperatorSets.Record` | js/web/script/generate-webgl-operator-md.ts:52-64 | Looks up the opset's map and the type's list, creating them on first sight. Then appends the version. The new registry is `Recorded(old, d)`, and no version list is ever empty. |
| `Registry.OperatorSets.RecordAll` | js/web/script/generate-webgl-operator-md.ts:44-66 | Records the declarations one by one, in order. The result is `RecordedAll(old, decls)`, and the no-empty-list invariant is kept. |
| `Registry.RecordedLookup` | js/web/script/generate-webgl-operator-md.ts:52-64 | One declaration appends its version to its own `(opset, opType)` list only. It adds exactly its own opset and pair to the maps. |
| `Registry.RecordedAllLookup` | js/web/script/generate-webgl-operator-md.ts:44-66 | After a scan, each list is the old list followed by the versions of the matching declarations, in declaration order, repeats kept. |
| `Registry.RecordedAllPresence` | js/web/script/generate-webgl-operator-md.ts:52-62 | A list exists after a scan exactly when it existed before or some declaration names its pair. |
| `Registry.RecordedAllOpsets` | js/web/script/generate-webgl-operator-md.ts:52-56 | An opset is a key after a scan exactly when it was one before or some declaration names it. |
| `Registry.RecordedAllNoEmptyLists` | js/web/script/generate-webgl-operator-md.ts:58-64 | A scan never leaves an empty version list. |
| `Registry.ScanContents` | js/web/script/generate-webgl-operator-md.ts:44-66 | Starting empty, a pair has a list exactly when some declaration names it. That list holds exactly the pair's declared versions, one per declaration, so it is non-empty. |
| `Text.NatToStringRoundTrip` | js/web/script/generate-webgl-operator-md.ts:29 | The decimal text of a version reads back as that version. |
| `Text.IntToStringRoundTrip` | js/web/script/generate-webgl-operator-md.ts:29 | The text of a range end, which is negative for a `[0, -1]` range, reads back as that end. |
| `Text.StrictlyAscendingUnique` | js/web/script/generate-webgl-operator-md.ts:72 | Two strictly sorted sequences of the same names are equal, so the sorted type order is unique. |
| `Text.JoinSplitRoundTrip` | js/web/script/generate-webgl-operator-md.ts:103 | Joining comma-free, non-empty entries with `", "` and splitting again gives the entries back. |
| `Versions.Sort` | js/web/script/generate-webgl-operator-md.ts:92 | The versions come back in ascending numeric order as a permutation of the input (same multiset). |
| `Versions.SortAscending` | js/web/script/generate-webgl-operator-md.ts:92 | Versions that are already in ascending order come back unchanged. |
| `Versions.RangesShape` | js/web/script/generate-webgl-operator-md.ts:95-98 | `k+1` versions give exactly `k+1` ranges. Range `i` starts at version `i`, and every range but the last ends one below the next version. The last ends at `VERSION_MAX`. Consecutive ranges are contiguous, and only the final one is flagged last. |
| `Versions.RangesCover` | js/web/script/generate-webgl-operator-md.ts:95-98 | For sorted versions, every version from the first declared one to `VERSION_MAX` lies in some range. |
| `Versions.RangesDisjoint` | js/web/script/generate-webgl-operator-md.ts:95-98 | For sorted versions, no version lies in two ranges. |
| `Versions.RepeatedVersionEmptyRange` | js/web/script/generate-webgl-operator-md.ts:92-97 | A version declared twice yields a range with `lo > hi`. |
| `Versions.LastRangeNonEmpty` | js/web/script/generate-webgl-operator-md.ts:86-97 | When `VERSION_MAX` is at least every version, the last range has `lo <= hi`. |
| `Versions.VersionMax` | js/web/script/generate-webgl-operator-md.ts:86-89 | The fold starting at 0 returns a bound on every recorded version of every type. The bound is one of those versions, or 0 if there are none. |
| `Versions.VersionMaxUnique` | js/web/script/generate-webgl-operator-md.ts:86-89 | That characterisation fixes `VERSION_MAX` uniquely. |
| `Support.CheckSupport` | js/web/script/generate-webgl-operator-md.ts:14-24 | Returns true iff every integer version in `lo..hi` is accepted, which holds vacuously when `lo > hi`. The probes are `lo, lo+1, …`, none above `hi`. On false, the last probe is the first rejected version and nothing above it was probed. |
| `Descriptors.FormatDesc` | js/web/script/generate-webgl-operator-md.ts:26-33 | The descriptor is empty exactly when the range is unsupported. The support test comes first, so an unsupported last range is empty too. |
| `Descriptors.VersionTextRoundTrip` | js/web/script/generate-webgl-operator-md.ts:29 | The label reads back as `(lo, hi)` for a bounded range. A bare `v` means `(v, v)`, and the last range reads as `(lo, unbounded)` whatever its `hi`. |
| `Descriptors.FormatDescRoundTrip` | js/web/script/generate-webgl-operator-md.ts:29-30 | A supported descriptor is a link whose label reads back as the range. Its anchor is `opType-lo`. |
| `Descriptors.FormatDescNoComma` | js/web/script/generate-webgl-operator-md.ts:29-30 | A descriptor holds no comma when the type name holds none. |
| `SupportTable.RangeDescriptors` | js/web/script/generate-webgl-operator-md.ts:94-100 | There is one descriptor per declared version, in ascending range order. |
| `SupportTable.NonEmpty` | js/web/script/generate-webgl-operator-md.ts:103 | The result holds no empty entry. An entry is in it exactly when it is a non-empty input entry, and the result is no longer than the input. |
| `SupportTable.NonEmptyConcat` | js/web/script/generate-webgl-operator-md.ts:103 | The filter of a concatenation is the concatenation of the filters. Together with the one-element case, this fixes the order and the repeats of what is kept. |
| `SupportTable.NonEmptyKeepsAll` | js/web/script/generate-webgl-operator-md.ts:103 | Input with no empty entry passes through unchanged. |
| `SupportTable.SupportColumn` | js/web/script/generate-webgl-operator-md.ts:92-103 | The per-type loop sorts the versions, checks and formats every range, then drops the empty descriptors and joins the rest. It returns exactly `Column(...)`. |
| `SupportTable.DescriptorMeaning` | js/web/script/generate-webgl-operator-md.ts:94-99 | Entry `i` is empty iff range `[v_i, v_{i+1}-1]` (or `[v_k, VERSION_MAX]` for the last) is not fully accepted. Otherwise it reads back as that range, open-ended when last. |
| `SupportTable.RepeatedVersionListed` | js/web/script/generate-webgl-operator-md.ts:92-99 | A repeated version's empty range is reported supported and listed. |
| `SupportTable.ColumnEntries` | js/web/script/generate-webgl-operator-md.ts:102-103 | A column splits back into exactly the non-empty descriptors, in ascending version order. |
| `SupportTable.ColumnOfAscending` | js/web/script/generate-webgl-operator-md.ts:92-103 | For versions already in ascending order, the column joins the non-empty descriptors of those versions as given. |
| `SupportTable.Least` | js/web/script/generate-webgl-operator-md.ts:72 | Returns the least name of a non-empty set in the default string order. |
| `SupportTable.SortedTypes` | js/web/script/generate-webgl-operator-md.ts:72 | The type names come out strictly ascending in the default string order, each exactly once. |
| `SupportTable.OnlyOnnx` | js/web/script/generate-webgl-operator-md.ts:68-69 | The scan yields exactly the `Onnx` opset iff there is at least one declaration and every declaration names `Onnx`. |
| `SupportTable.WriteRows` | js/web/script/generate-webgl-operator-md.ts:91-104 | Writes one row per type, in the given order. Each row holds that type's column. |
| `SupportTable.GenerateTable` | js/web/script/generate-webgl-operator-md.ts:42-104 | Fails exactly when the opset assertion would fail. Otherwise the table lists every declared `Onnx` type once, in sorted order, with `VERSION_MAX` and each type's column. |
| `SupportTable.DescribesUnique` | js/web/script/generate-webgl-operator-md.ts:68-104 | The table depends only on the registry and the rules, so a rerun gives the same table. |
| `SupportTable.ReluExample` | js/web/script/generate-webgl-operator-md.ts:91-103 | Versions 6 and 13, `VERSION_MAX` 14, rules accepting from 6 on. Both ranges are supported, and their labels are `6-12` and `13+`. The column is the two changelog links joined by `", "`. |
| `SupportTable.FooExample` | js/web/script/generate-webgl-operator-md.ts:91-103 | One version, rules accepting nothing: no descriptor survives the filter, and the column is the empty string. |
| `SupportTable.BarExample` | js/web/script/generate-webgl-operator-md.ts:91-103 | Versions 2, 4 and 7, `VERSION_MAX` 7, rules accepting 2 to 4. Only range `2-3` is supported; `[4, 6]` and the unsupported last range are empty. The column is that one link. |

## Left out

- Reading `operator_sets.h` and the line-by-line regular-expression scan (lines 42-46). The model takes the already-parsed declarations as a sequence.
- `Number.parseInt` on long digit strings (line 49). JavaScript numbers lose precision above 2^53, while the model's versions are unbounded naturals.
- The Markdown output stream: file creation, the header and boilerplate writes, the platform line ending `EOL` and `doc.end()` (lines 74-84, 102-105). The model produces each row's text without the line ending.
- `resolveOperator`, `WEBGL_OP_RESOLVE_RULES`, `Attribute`, `Tensor` and `dummyOpImpl` (lines 9-12, 15, 34-40). The backend's rules are the parameter `accepts`. An exception other than "no rule matched" is not modelled.
- The in-place effect of `versions.sort(...)` on the registry's arrays (line 92). The model sorts a copy, and nothing reads those arrays afterwards.
- Map iteration order in the `VERSION_MAX` fold (lines 87-89). The model visits the types in an arbitrary order, and the proved result does not depend on it.
- `Array.prototype.sort()` compares UTF-16 code units; the model compares characters (code points). The two orders differ only for characters outside the Basic Multilingual Plane, which cannot occur in operator type names matched by `\w+`.
- `SupportTable.SortedTypes` and `SupportTable.Least` stand for the built-in sort of line 72. Their loops are the model's own way of computing its result, not code from the script.
- `onnxruntime/core/providers/cuda/math/einsum_utils/einsum_auxiliary_ops.h` is not part of this model: it only declares device helper functions with no bodies.
- `js/scripts/update-version.ts` is not part of this model: it only reads `package.json` and writes a version file.
