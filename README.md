# multiple-json-diff-checker, modelled in Dafny

`compareJsonInputs` (in `index.ts`) takes several JSON documents, one per
e-commerce platform (Magento, WooCommerce, Shopify, Lightspeed), and builds a
field-by-field comparison of them. It works in four stages, each modelled here:

1. **Key collection** (`KeyCollector`, `collector.dfy`). Every input is walked
   with `Object.entries`, and each key is added to one shared set under its
   dot-joined path. A nested object is walked under that path with no marker.
   A non-empty array adds `path[array]` and walks only its first element, under
   `path[0]`. An empty array adds only `path`. The collector is a method that
   threads the set (`AddKeys`, `CollectKeys`) and is proved equal to a
   specification function (`KeysOf`, `AllKeys`). The lemmas then state
   completeness and the array and object policies.
2. **Key ordering** (`KeyOrder`, `order.dfy`). The comparator orders keys by
   first `.`-segment, then by segment count, then by the whole key. The
   comparator is proved to be a strict total order. `SortKeys` returns every key
   exactly once, in that order, and that listing is unique.
3. **Path resolution** (`KeyResolver`, `resolver.dfy`, plus `Soundness`,
   `soundness.dfy`). Each key is looked up in each input in one of three modes:
   `[array]` mode, `[0]` mode and plain mode. A failed step yields
   `exists = false` and `value = null`. The loops are methods proved equal to the
   `Walk` function. The main theorem, `CollectedKeysResolve`, says when a key
   collected from an input resolves against that same input. It always does,
   except for an `[array]` marker under an array element (`a[0].b[array]`), which
   never resolves.
4. **Classification, records and cells** (`TypeClassifier`, `classifier.dfy`;
   `Comparison`, `comparison.dfy`). These model `getValueType`, `formatValue`,
   the per-platform `{ exists, type, value }` records, the result rows and the
   rule for the text of a table cell.

Supporting modules:

- `JsonValue` (`json.dfy`) models the values and what `Object.entries`,
  `key in value` and `value[key]` do on them.
- `Strings` (`strings.dfy`) models `split(".")`, the `[.\[\]]+` token split,
  `includes`, `replace` and the decimal text of array indices.
- `JsNumber` (`numeric.dfy`) models `!isNaN(Number(part))`.

The collector's array policy is sometimes described as walking an array's first
element only when it is an object, so that `{"tags": ["x", "y"]}` would give no
`tags[0]…` keys. The code disagrees. It calls `addKeys("x", "tags[0]")` whatever the
element is, and `Object.entries` on a string lists its characters, so `tags[0].0`
is collected. That key then never resolves, because a string is not an object.
This model follows the code (`StringElementKeysCollected`,
`StringElementKeysNeverResolve`).

## Model

| member | source | states |
|---|---|---|
| TypeClassifier.GetValueType | index.ts:21-26 | total; reports `null` exactly for null, `undefined` exactly for undefined, `array` exactly for arrays, `object` exactly for non-array objects, and the primitive kind otherwise |
| TypeClassifier.TypeNameInjective | index.ts:1-8 | distinct kinds have distinct printed names |
| TypeClassifier.FormatValue | index.ts:28-32 | given the value's own kind: `""` for objects, `"[N items]"` with N the array length for arrays, the string itself for strings |
| TypeClassifier.FormatEmptyOnlyForObjects | index.ts:28-32 | the display is empty only for an object or the empty string |
| TypeClassifier.FormatArrayCountReadsBack | index.ts:30 | the count in `"[N items]"` parses back to the array's length |
| TypeClassifier.StringOf | index.ts:31 | `String(value)` for a primitive: `null`, `undefined`, `true`/`false`, the integer's decimal text, or the string itself |
| TypeClassifier.IntToString | index.ts:31 | `String(n)` for an integer: a `-` for negatives followed by its decimal digits; never empty |
| TypeClassifier.IntToStringReadsBack | index.ts:31 | the text of an integer reads back as that integer, the digits after the `-` giving its magnitude |
| JsonValue.Entries | index.ts:39 | `Object.entries`: an object's fields; an array's elements or a string's characters under keys "0", "1", …; nothing for numbers and booleans; walked children are smaller values |
| JsonValue.Get | index.ts:93 | `value[part]` is `undefined` whenever `part` is not an own property |
| JsonValue.HasOwn | index.ts:92 | `part in value`: an object's own field names, an array's canonical indices below its length and `length`; nothing for other values |
| JsonValue.EntryIsOwnProperty | index.ts:92-93 | every key `Object.entries` lists passes `key in value`, and reading it gives the entry's value |
| Strings.ParseIndexOfNatToString | index.ts:92 | an index key produced by `Object.entries` reads back as that index |
| Strings.Split | index.ts:90 | `split` gives at least one part, and no part contains the separator |
| Strings.JoinSplit | index.ts:116 | joining the parts of a split with the separator gives back the string |
| Strings.SplitJoin | index.ts:40 | splitting a `.`-joined path of dot-free keys gives back the keys |
| Strings.SplitAppend | index.ts:90 | splitting `p.k` gives the parts of `p` followed by `k` |
| Strings.JoinStartsWithFirst | index.ts:66 | a `.`-join starts with its first piece, followed by `.` when more pieces follow |
| Strings.SplitCountsSeparators | index.ts:70 | `split` gives one piece more than the string has separators |
| Strings.Tokens | index.ts:101 | the tokens are non-empty and contain no `.`, `[` or `]` |
| Strings.TokensAppendKey | index.ts:101 | tokenizing `p.k` adds exactly the token `k` |
| Strings.TokensOfKey | index.ts:101 | a key with no delimiters is a single token |
| Strings.TokensAppendElement | index.ts:101 | tokenizing `p[0]` adds exactly the token `0` |
| Strings.IndexOfFrom | index.ts:88 | finds the first occurrence of a pattern at or after a position, or reports there is none |
| Strings.RemoveFirst | index.ts:89 | `replace(pat, "")` leaves the string unchanged when `pat` is absent, and otherwise removes exactly `pat`'s length |
| Strings.RemoveFirstCutsFirstOccurrence | index.ts:89 | when `pat` occurs, `replace(pat, "")` is the text before its first occurrence followed by the text after that occurrence |
| Strings.RemoveFirstSuffix | index.ts:89 | when `pat` occurs only as a suffix, `replace` removes exactly that suffix |
| JsNumber.DigitsTrimToThemselves | index.ts:106 | trimming leaves a non-empty digit string unchanged |
| JsNumber.DigitsAreDecimal | index.ts:106 | a non-empty digit string is a decimal literal |
| JsNumber.CanonicalIndexIsNumeric | index.ts:106 | `Number` never rejects a canonical array index |
| JsNumber.IsNumeric | index.ts:106 | `!isNaN(Number(part))`: after trimming white space, the text is empty, a decimal literal (sign, digits with at most one point, exponent, or `Infinity`) or a `0x`/`0o`/`0b` integer |
| KeyCollector.JoinKey | index.ts:40 | the path is the key itself under the empty prefix, and `prefix.key` otherwise |
| KeyCollector.KeysOf | index.ts:38-54 | what `addKeys(v, prefix)` adds: the union of every entry's contribution |
| KeyCollector.EntryContribution | index.ts:39-53 | what one `forEach` visit adds: the entry's path; for a non-empty array `path[array]` and the first element's keys under `path[0]`; for an object its keys under `path` |
| KeyCollector.AllKeys | index.ts:36-56 | the unified set: the union of every input's keys from the root |
| KeyCollector.AddKeys | index.ts:38-54 | the shared set grows by exactly `KeysOf(v, prefix)` |
| KeyCollector.CollectKeys | index.ts:36-56 | the final set is the union of what every input contributes from the root |
| KeyCollector.EntryKeysMembership | index.ts:39-53 | a key is added by the first n entries exactly when one of those entries contributes it |
| KeyCollector.KeysOfMembership | index.ts:39-53 | a key is collected from a value exactly when one of its entries contributes it |
| KeyCollector.EntryCollected | index.ts:40-51 | completeness: an entry's path is collected; a nested object's keys are collected under that path; a non-empty array adds `path[array]` and its first element's keys under `path[0]` |
| KeyCollector.ContributionIncluded | index.ts:39-41 | visiting more entries only adds keys: an entry's contribution stays in every later set |
| KeyCollector.KeysExtendPrefix | index.ts:38-51 | every key collected under a non-empty prefix starts with `prefix.` |
| KeyCollector.ContributionShape | index.ts:40-51 | an entry contributes its path, or keys continuing it with `[` (non-empty array only) or `.` (object only) |
| KeyCollector.NoCrossPrefix | index.ts:40 | paths of two different keys under one prefix never continue one another |
| KeyCollector.ForeignContribution | index.ts:39-51 | no entry contributes a key that continues another entry's path |
| KeyCollector.ContinuationFromOwnEntry | index.ts:39-51 | a collected key that continues an entry's path comes from that entry |
| KeyCollector.BracketContinuation | index.ts:44-48 | a collected key continuing an entry's path with `[` means the entry is a non-empty array |
| KeyCollector.DotContinuation | index.ts:49-50 | a collected key continuing an entry's path with `.` means the entry is an object with fields |
| KeyCollector.ArrayPolicy | index.ts:43-51 | `path[array]`, and keys continuing `path` with `[`, are collected exactly when the entry is a non-empty array; so an empty array or an object gets neither |
| KeyCollector.ObjectPolicy | index.ts:49-50 | keys continuing `path` with `.` are collected exactly when the entry is an object with fields |
| KeyCollector.AllKeysMembership | index.ts:37-56 | a key is in the unified set exactly when some input contributes it |
| KeyOrder.LexCompare | index.ts:68 | returns -1, 0 or 1, and 0 exactly for equal strings |
| KeyOrder.LexCompareAntisymmetric | index.ts:68 | swapping the arguments negates the result |
| KeyOrder.LexCompareTransitive | index.ts:74 | the order is transitive |
| KeyOrder.Base | index.ts:66-67 | a key's group: its first `.`-segment |
| KeyOrder.BaseIsFirstSegment | index.ts:66-67 | the base is a dot-free prefix of the key, either the whole key or followed by `.`; a dot-free key is its own base |
| KeyOrder.Depth | index.ts:70-71 | a key's depth: its number of `.`-segments |
| KeyOrder.DepthCountsDots | index.ts:70-71 | the depth is one more than the number of `.` in the key |
| KeyOrder.CompareKeys | index.ts:65-75 | the comparator: bases compared as strings, then depths as numbers, then whole keys as strings |
| KeyOrder.KeyOrderIsStrictTotal | index.ts:65-75 | the comparator returns 0 only for equal keys, is antisymmetric in sign, total and transitive |
| KeyOrder.Insert | index.ts:65 | inserting a new key into a strictly sorted listing keeps it strictly sorted, with the key added and nothing else |
| KeyOrder.SortKeys | index.ts:65-75 | the result lists every key of the set exactly once, strictly in comparator order |
| KeyOrder.SortedListingUnique | index.ts:65-75 | two strictly sorted listings of the same keys are equal, so the row order is determined |
| KeyOrder.SortedGroupsByBase | index.ts:64-72 | keys sharing a first segment are contiguous, shallower before deeper |
| KeyResolver.Walk | index.ts:91-125 | a failed walk is exactly `exists = false, value = null`; the empty walk stays at the input |
| KeyResolver.CanStep | index.ts:103-107 | the step guard: the value is a non-null object and `part in value`, or, in `[0]` mode only, the value is an array and `part` is numeric; in plain and `[array]` mode (lines 92 and 118) only `part in value` |
| KeyResolver.PartsOf | index.ts:88-116 | the branch taken: a key containing `[array]` is cut at `.` after its first `[array]` is removed; otherwise one containing `[0]` is cut into tokens at runs of `.`, `[`, `]`; otherwise it is cut at `.` |
| KeyResolver.Resolve | index.ts:84-126 | a key that does not resolve has value null |
| KeyResolver.MissingAbsorbs | index.ts:94-97 | after a failed step the result stays `exists = false, value = null` whatever parts remain |
| KeyResolver.WalkParts | index.ts:91-99 | the loop with `break` computes `Walk` |
| KeyResolver.ResolveKey | index.ts:84-126 | the three-way branch computes `Resolve`, and a failed lookup stores null |
| KeyResolver.WalkAppend | index.ts:91-99 | walking `ps + qs` is walking `qs` from where `ps` led, or failure |
| KeyResolver.IndexedExtendsPlain | index.ts:103-107 | `[0]` mode accepts every walk plain mode accepts, with the same value |
| KeyResolver.IndexedArrayStep | index.ts:106-108 | on an array, `[0]` mode accepts a numeric non-index part with value undefined, and rejects a part that is neither own nor numeric |
| KeyResolver.EmptyArrayElementExists | index.ts:100-114 | `k[0]` "exists" with value undefined on `{k: []}` |
| KeyResolver.ArrayModeIgnoresType | index.ts:88-99 | for a path without `[`, `path[array]` resolves to whatever the plain walk over `path` reaches, whatever its kind |
| Soundness.TameWalkable | index.ts:39-50 | the collector never reaches null or undefined inside an input the theorem covers |
| Soundness.TameEntry | index.ts:92-93 | entries of a covered value have delimiter-free keys that are own properties holding the entry's value |
| Soundness.PlainWalkMissesBracket | index.ts:90-98 | a plain walk over a segment containing `[` fails on inputs with path-safe keys |
| Soundness.NoArrayMarker | index.ts:88 | a collected path contains no `[array]` |
| Soundness.ElementMarkerIffBracket | index.ts:100 | a collected path contains `[0]` exactly when it contains `[` |
| Soundness.JoinKeyBracketsOK | index.ts:40 | joining a key onto a collected path keeps every `[` opening a `[0]` |
| Soundness.ReachEntry | index.ts:38-50 | the value at an entry's path is what the lookups reach from the input |
| Soundness.ReachElement | index.ts:46-48 | the first element of a non-empty array is what `[0]` mode reaches at `path[0]` |
| Soundness.FullKeySound | index.ts:100-126 | an entry's own path resolves to the entry's value |
| Soundness.MarkerSound | index.ts:88-99 | `path[array]` resolves exactly when `path` contains no `[0]` |
| Soundness.KeysOfSound | index.ts:38-53 | every key collected under a reached value resolves, except a marker under an element |
| Soundness.EntrySound | index.ts:39-51 | every key one entry contributes resolves, except a marker under an element |
| Soundness.CollectedKeysResolve | index.ts:36-126 | a key collected from a covered input resolves against it exactly when it is not an `[array]` marker whose base contains `[0]` |
| Soundness.MarkerUnderElementNeverResolves | index.ts:88-99 | an `[array]` key whose base contains `[0]` never resolves on inputs with path-safe keys |
| Soundness.StringElementKeysCollected | index.ts:44-48 | a string first element contributes per-character keys such as `k[0].0` |
| Soundness.StringElementKeysNeverResolve | index.ts:100-114 | such a character key never resolves |
| Soundness.ElementCharacterKeyParts | index.ts:100-101 | the key `k[0].0` takes the `[0]` branch and is cut into `k`, `0`, `0` |
| Soundness.FirstElementReached | index.ts:102-108 | the `[0]` walk over `k` and `0` reaches the array's first element |
| Soundness.CharacterStepFails | index.ts:102-113 | the next step, onto a string, is refused and the walk ends as missing |
| Comparison.Observe | index.ts:128-132 | the recorded type is the value's type; a missing key is recorded as `exists = false`, type `null`, value null |
| Comparison.Label | index.ts:128 | the key `platformNames[index]` becomes: the platform's name for the first four inputs, `"undefined"` after them |
| Comparison.PlatformMap | index.ts:83-133 | the row's platforms are exactly the labels of the inputs |
| Comparison.ObserveKey | index.ts:83-132 | the callback's record for input `index` is that input's entry in `Observations`: the lookup's outcome and the type of the value found |
| Comparison.RecordPlatforms | index.ts:83-133 | the inner loop fills the platforms map as `PlatformMap` says |
| Comparison.BuildRows | index.ts:77-136 | the pushed rows are `RowsOf` the keys: one row per key, in the given order, each with every input's record |
| Comparison.CompareJsonInputs | index.ts:34-136 | one row per collected key, no key twice, strictly in comparator order, each with every input's record |
| Comparison.RowsFollowListing | index.ts:77-136 | rows copied from a sorted listing of the key set cover the set exactly, in order |
| Comparison.PlatformLabelUnique | index.ts:59 | a platform name is never the label of a later input |
| Comparison.PlatformMapAt | index.ts:128 | an input's record survives when no later input has the same label |
| Comparison.RecordUnderPlatformName | index.ts:128-132 | each of the first four inputs is recorded under its own platform name |
| Comparison.ExtraInputsOverwrite | index.ts:128 | inputs past the fourth share the label "undefined", and only the last one's record remains |
| Comparison.CollectedKeyShowsPresent | index.ts:128-132 | the row of a key collected from input i shows input i as present, unless it is a marker under an element |
| Comparison.Cell | index.ts:147-153 | `"-"` exactly when missing; otherwise the type name, followed by `": "` and the displayed value unless the value is undefined or an object |

## Left out

- The markdown assembly (index.ts:139-159) is not modelled beyond the per-cell rule (`Cell`). It covers the header, the separator row and joining cells in `Object.values` order.
- The example call that prints to the console (index.ts:162-175) is I/O and is not modelled.
- LexCompare: `localeCompare` depends on the locale. It is modelled as plain code-point lexicographic order, which is an assumption.
- Numbers are integers (`Num(int)`). Floating point, `NaN`, and `String(n)` for non-integral numbers are not modelled. Only a number's type tag matters to the comparison.
- TypeClassifier.IntToString: matches `String(n)` only for integers below 10^21 in magnitude; JavaScript prints larger ones in exponent notation (`1e+21`), and integers beyond 2^53 are already rounded when the JSON is parsed. Neither is modelled.
- JsonValue.HasOwn: `part in value` also finds inherited properties (`constructor`, `toString`, `__proto__`, array methods). The model has only own properties: an object's keys, and an array's indices and `length`.
- `Object.entries` on null or undefined throws a TypeError. The model does not raise it. Instead, `Walkable` is a precondition of `AddKeys`, `CollectKeys` and `CompareJsonInputs`.
- Object field order is taken as given. JavaScript lists integer-like keys first. This order does not matter here, because keys go into a set and rows are sorted.
- The iteration order of `Array.from(allKeys)` is not modelled. `SortedListingUnique` shows that the sorted result does not depend on it.
- Strings are sequences of Unicode characters rather than UTF-16 code units, so `Object.entries` on a string with surrogate pairs is not modelled exactly.
- CollectedKeysResolve: proved only for inputs whose object keys are non-empty, distinct and free of `.`, `[` and `]`, and whose walked array first elements are objects, arrays, numbers or booleans. Outside that range, `StringElementKeysCollected` and `StringElementKeysNeverResolve` show the string case.
