# nearest-tailwind-colors: the nearest-colour search, in Dafny

This project models `getNearestTailwindColors`, the search at the heart of
nearest-tailwind-colors. Given an input colour string it finds the palette
colours nearest to it in a chosen colour space. The search:

1. throws a `TypeError` ("Invalid color input") when the colour library
   cannot parse the input;
2. flattens the palette into an ordered list of (name, value) entries;
3. drops every entry whose name is `inherit`, `current`, `transparent` or
   one of the caller's `excludeColors`;
4. annotates each remaining entry with the library's distance from the input
   to the entry's value; the library raises its own error for the first
   value it cannot parse, which ends the call;
5. sorts the records ascending by distance with JavaScript's stable
   `Array.prototype.sort` and keeps the first `n` with `slice(0, n)`.

The code is a pure pipeline, so the model is pure as well: datatypes,
functions and lemmas, with no classes and no loops.

- `wrappers.dfy`, module `Wrappers`: `Option` (an omitted option) and
  `Result` (a returned value or the thrown error).
- `js_array.dfy`, module `JsArray`: the array operations the pipeline is
  built from, on sequences. These are `filter`, `map`, `slice(0, end)` and a
  stable sort on a real key. The sort's specification is the one in section
  23.1.3.30 of ECMA-262 (2023): the sort is stable and orders by the
  comparator. The sort is written as an insertion sort. `SortByIsTheStableSort`
  proves that any sorted sequence whose tie classes are those of the input is
  exactly its result. So the choice of algorithm does not matter.
- `nearest_colors.dfy`, module `NearestTailwindColors`: the data shapes
  (`FlatEntry`, `ColorOutput`, `Config`, `Space`, `Error`), the deny-list
  `InvalidColors`, the pipeline `GetNearestTailwindColors`, and the
  properties of its result.

The colour library (chroma-js) is modelled as a value of type
`ColorOracle`. It has two uninterpreted function fields. `valid(s)` models
`chroma.valid`. `distance(a, b, space)` models `chroma.distance` and returns
a `real`. `chroma.valid` reports whether constructing a colour from the
string succeeds, and `chroma.distance` constructs both colours. So the model
takes `distance` on a palette value to raise exactly when `valid` rejects
that value. That case is `Failure(UnparseableColor(value))`. Every lemma
holds for every oracle. The lemmas about the result assume the call
succeeded. `ExactMatchFirst` also assumes that distances are never negative
(`NonNegativeDistance`).

`Config` holds the options `n`, `excludeColors` and `space`. Each is an
`Option` that falls back to the source's defaults: 1, the empty list and
`lab`. The `colors` option is not in `Config`. The search instead takes the
flattened palette, already in enumeration order, as its argument
`flatColors`.

`n` is an unbounded integer and `slice(0, n)` keeps its full ECMA meaning. A
negative `n` counts from the back, so `slice(0, -1)` drops the last record.
`ResultSize` states both cases. For `n >= 1`, which the CLI enforces, the
result length is `min(n, number of eligible entries)`.

## Model

| member | source | states |
|---|---|---|
| `NearestTailwindColors.GetNearestTailwindColors` | src/get-nearest-tailwind-colors.ts:79-100 | the call fails with exactly `TypeError("Invalid color input")` iff the input colour is not valid, whatever the palette, options and distances; it succeeds iff the input and every eligible palette value parse; otherwise it fails with the first eligible value that does not parse (excluded values are never parsed) |
| `NearestTailwindColors.Config.Number` | src/get-nearest-tailwind-colors.ts:74 | `n` is the caller's value, or 1 when omitted |
| `NearestTailwindColors.Config.Excluded` | src/get-nearest-tailwind-colors.ts:75 | `excludeColors` is the caller's list, or empty when omitted |
| `NearestTailwindColors.Config.ColorSpace` | src/get-nearest-tailwind-colors.ts:76 | `space` is the caller's space, or `lab` when omitted |
| `NearestTailwindColors.DefaultConfig` | src/get-nearest-tailwind-colors.ts:72-100 | with every option omitted, exactly the three deny-list names are excluded, the result has `min(1, eligible)` records, and each distance is measured in `lab` |
| `NearestTailwindColors.DenyListNeverEligible` | src/get-nearest-tailwind-colors.ts:60 | an entry named `inherit`, `current` or `transparent` is never eligible, whatever the caller excludes |
| `NearestTailwindColors.IsIncluded` | src/get-nearest-tailwind-colors.ts:86 | the filter callback keeps an entry iff its name is not in the merged exclusion list |
| `NearestTailwindColors.ToColorOutput` | src/get-nearest-tailwind-colors.ts:93-97 | the map callback gives the entry's name as `color`, its value unchanged, and the library's distance from the input to the value |
| `NearestTailwindColors.FirstUnparseable` | src/get-nearest-tailwind-colors.ts:92-98 | none iff every entry's value parses; otherwise the index of the first entry whose value does not parse, where the distance map stops |
| `NearestTailwindColors.DistanceOf` | src/get-nearest-tailwind-colors.ts:100 | the sort key is the record's distance, the quantity the comparator `a.distance - b.distance` compares |
| `NearestTailwindColors.ColorsToExclude` | src/get-nearest-tailwind-colors.ts:84 | a name is in the merged exclusion list iff it is `inherit`, `current`, `transparent` or one of the caller's exclusions |
| `NearestTailwindColors.FlatColorArray` | src/get-nearest-tailwind-colors.ts:85-90 | an entry is kept iff it is in the palette and its name is not excluded; each kept entry occurs exactly as often as in the palette, and excluded ones never |
| `NearestTailwindColors.FlatColorArrayAppend` | src/get-nearest-tailwind-colors.ts:85-90 | the exclusion filter commutes with concatenation, so kept entries stay in palette order |
| `NearestTailwindColors.ColorDistances` | src/get-nearest-tailwind-colors.ts:92-98 | one record per entry, in order; record i has entry i's name as `color`, its value unchanged, and distance `distance(input, value, space)` |
| `NearestTailwindColors.ResultAreCandidates` | src/get-nearest-tailwind-colors.ts:100 | the result is a sub-multiset of the distance-annotated eligible entries: sorting and slicing add no record |
| `NearestTailwindColors.CandidateOrigin` | src/get-nearest-tailwind-colors.ts:85-98 | every candidate record comes from an eligible palette entry with the same name and value, and carries the library's distance to that value |
| `NearestTailwindColors.ResultRecordsFromPalette` | src/get-nearest-tailwind-colors.ts:92-100 | every result record's (`color`, `value`) is a palette entry, and its `distance` is the library's distance from the input to that value in the configured space |
| `NearestTailwindColors.ResultExcludesColors` | src/get-nearest-tailwind-colors.ts:84-86 | no result record is named `inherit`, `current`, `transparent` or any name in `excludeColors`, for every distance function |
| `NearestTailwindColors.ResultSize` | src/get-nearest-tailwind-colors.ts:100 | for `n >= 0` the result length is `min(n, eligible entries)`; for negative `n` it is `max(eligible + n, 0)` |
| `NearestTailwindColors.ResultSorted` | src/get-nearest-tailwind-colors.ts:100 | the result is ascending by distance between any two records; the adjacent-records clause is its corollary, stated because it is the form the ordering is usually checked in |
| `NearestTailwindColors.ResultStable` | src/get-nearest-tailwind-colors.ts:100 | for each distance, the result's records of that distance are the first records of that distance among the candidates, in palette order |
| `NearestTailwindColors.ResultOptimal` | src/get-nearest-tailwind-colors.ts:92-100 | the result is drawn from the candidates, and every candidate left out is at least as far as every kept record; the clause about the last record is its corollary for the last kept record |
| `NearestTailwindColors.ExactMatchFirst` | src/get-nearest-tailwind-colors.ts:92-100 | with non-negative distances, `n >= 1` and an eligible entry at distance 0, the first record has distance 0 and is the first zero-distance candidate in palette order |
| `JsArray.Filter` | src/get-nearest-tailwind-colors.ts:86 | `filter` keeps exactly the elements satisfying the predicate, with their multiplicities |
| `JsArray.FilterAppend` | src/get-nearest-tailwind-colors.ts:86 | `filter` of a concatenation is the concatenation of the filters (order is kept) |
| `JsArray.FilterPrefix` | src/get-nearest-tailwind-colors.ts:100 | filtering a prefix gives a prefix of the filtered sequence |
| `JsArray.Map` | src/get-nearest-tailwind-colors.ts:92-98 | `map` keeps the length and applies the callback position by position |
| `JsArray.Slice` | src/get-nearest-tailwind-colors.ts:100 | `slice(0, end)` is a prefix whose length is `min(end, len)` for `end >= 0` and `max(len + end, 0)` otherwise |
| `JsArray.Insert` | src/get-nearest-tailwind-colors.ts:100 | inserting adds exactly the one element |
| `JsArray.InsertSorted` | src/get-nearest-tailwind-colors.ts:100 | inserting into a sorted sequence keeps it sorted |
| `JsArray.SortBy` | src/get-nearest-tailwind-colors.ts:100 | the sort returns a permutation of its input, ascending by key |
| `JsArray.InsertStable` | src/get-nearest-tailwind-colors.ts:100 | an inserted element goes to the front of its own tie class and leaves other tie classes unchanged |
| `JsArray.SortByStable` | src/get-nearest-tailwind-colors.ts:100 | stability: each tie class of the sorted sequence equals that of the input, in order |
| `JsArray.SortedFirstIsLeast` | src/get-nearest-tailwind-colors.ts:100 | proof helper: the first element of a sorted sequence has the least key |
| `JsArray.SortedSplit` | src/get-nearest-tailwind-colors.ts:100 | proof helper: in a sorted sequence every element of a prefix has key at most that of every later element |
| `JsArray.SortedPrefixOptimal` | src/get-nearest-tailwind-colors.ts:100 | a prefix of the sorted sequence is drawn from the input, and no element left out has a smaller key than one kept |
| `JsArray.StableSortUnique` | src/get-nearest-tailwind-colors.ts:100 | two sequences that are both sorted by key and have the same tie classes are equal |
| `JsArray.SortByIsTheStableSort` | src/get-nearest-tailwind-colors.ts:100 | any sorted sequence with the input's tie classes equals the sort's result, so the sort is the unique stable sort |

## Left out

- Palette flattening (`flattenColorPalette` from tailwindcss) and the default Tailwind colour table: that library's source is not part of this model. The search takes the flattened palette as an ordered sequence of entries instead, and `Config` has no `colors` field.
- The order in which `Object.entries` enumerates keys (integer-like keys first): the flattened palette is taken as already in enumeration order.
- chroma-js `valid` and `distance`: they are fields of `ColorOracle` and are left uninterpreted. The library's error for an unparseable palette value is modelled by the value alone, not by its message text. Floating-point distances are modelled as `real`. So NaN, and a comparator `a.distance - b.distance` that is not consistent on NaN, are not modelled.
- `n` is modelled as an integer. A fractional `n`, or one that is not a number, as JavaScript's `slice` would accept, is not modelled.
- A bounded top-N working set is not modelled. The code only has the full sort followed by a prefix, and `SortByIsTheStableSort` shows that every stable sort gives the same order.
- The command-line front end (src/cli/index.ts) is not modelled. It parses arguments, validates options, prints coloured output and exits the process.
- The source's sort rearranges a freshly built local array in place. No caller can see that array, so the model sorts a sequence value.
- The validity check throws before any other work is done. The model states this through the result instead: a failing call returns the same error whatever the palette, options and distance function.
