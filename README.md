# Scatter-plot data path, in Dafny

This project models the data path of the canvas scatter plot in
`assignment2/script.js` (the TNM111 lab repository). Rendering is left out.
The path has four parts:

1. **Record parsing** (`loadCSV`, module `Csv`). The fetched text is split into
   lines, and each line into comma fields. The header line is skipped. The first two
   fields are parsed as numbers and the third field, trimmed, is the category.
   Lines whose `x` or `y` is not a number are dropped. `parseFloat` is a
   parameter `parse: string -> Option<real>`, where `None` stands for `NaN`.
2. **Domain statistics** (`loadCSV`, module `Domain`). These are the largest and smallest `x` and
   `y`, with each minimum clamped to at most 0. They also include the distinct non-empty
   categories in the order they are first seen. That order is the iteration order
   of a JavaScript `Set`.
3. **Axis arithmetic** (module `Axis`). `normalize` is the linear map from a
   domain onto a pixel length. The padding/tick step is the number of whole eighths
   of the span, `floor(span/8)`. The
   tick loop emits `index * step` and `-index * step` for `index = 0, 1, 2, …`
   as long as either one is inside the padded domain.
4. **Placement and shape dispatch** (module `Scatter`). Every record gets a
   canvas position, with the y axis turned upside down. It also gets a shape: a square for the
   first category, a circle for the second, and a triangle for anything else.
   `DrawScatter` is the body of the `then` callback without its drawing calls,
   and `Plot` chains it after `loadCSV`.

The program collects all distinct categories, not only three: every category
after the second one is drawn as a triangle. `loadCSV` clamps each minimum to at
most 0 (script.js:21-22); the padding (78-81) then only adds the step to each
maximum and subtracts it from each minimum. Strict equality with a list entry past
the end compares with `undefined`. So a record without a category is a
square when there are no categories, a circle when there is exactly one, and
a triangle otherwise (`Scatter.ShapeOfAbsent`).

## Model

| member | source | states |
|---|---|---|
| `Csv.Split` | assignment2/script.js:6 | `split` yields at least one piece; no piece holds the separator; joining the pieces with the separator gives back the text |
| `Csv.SplitPrefix` | assignment2/script.js:6 | a separator-free prefix becomes the start of the first piece and leaves the other pieces unchanged |
| `Csv.SplitJoin` | assignment2/script.js:6 | splitting a separator-joined list of separator-free pieces returns exactly those pieces (the other round trip) |
| `Csv.TrimStart` | assignment2/script.js:12 | the result is a suffix of the input; everything removed is white space; the result does not start with white space |
| `Csv.TrimEnd` | assignment2/script.js:12 | the result is a prefix of the input; everything removed is white space; the result does not end with white space |
| `Csv.Trim` | assignment2/script.js:12 | the trimmed category is no longer than the field and neither starts nor ends with white space |
| `Csv.TrimInfix` | assignment2/script.js:12 | the trimmed category is the infix of the field after the leading white space; all characters before and after it are white space |
| `Csv.TrimIdempotent` | assignment2/script.js:12 | trimming twice is the same as trimming once |
| `Csv.Rows` | assignment2/script.js:6 | the text always yields at least one row of fields |
| `Csv.Category` | assignment2/script.js:12 | `row[2]?.trim()` is absent exactly when the row has no third field; otherwise it is no longer than that field and does not start with white space (the full trim is stated by `Csv.TrimInfix`) |
| `Csv.RowPoint` | assignment2/script.js:9-13 | one row's record or its removal by the `isNaN` filter; stated by `Csv.RowPointDecodes` |
| `Csv.KeepFrom` | assignment2/script.js:9-13 | the slice/map/filter from a position on yields at most one record per row; matched one for one with the kept rows by `Csv.KeepFromIndices` |
| `Csv.ParseRows` | assignment2/script.js:9-13 | the header is skipped, so there are fewer records than rows; the full statement is `Csv.ParseRowsSpec` |
| `Csv.KeptIndices` | assignment2/script.js:9-13 | the kept row positions are strictly increasing, and a position is kept iff it is at or after the start and its row's `x` and `y` both parse |
| `Csv.RowPointDecodes` | assignment2/script.js:9-13 | one row gives a record iff its first and second fields both parse; the record is the parsed `x`, the parsed `y` and the trimmed third field, or no category when the row has fewer than three fields |
| `Csv.KeepFromIndices` | assignment2/script.js:9-13 | the records kept from a position on are, one for one and in order, the decodings of the rows listed by `KeptIndices` |
| `Csv.ParseRowsSpec` | assignment2/script.js:6-13 | parsing skips exactly the header row and keeps input order; it keeps a row iff both `x` and `y` parse, and the k-th record decodes the k-th such row |
| `Domain.MaxOf` | assignment2/script.js:16 | `Math.max` of a non-empty list is one of its elements, and no element exceeds it |
| `Domain.MinOf` | assignment2/script.js:17 | `Math.min` of a non-empty list is one of its elements, and no element is below it |
| `Domain.Present` | assignment2/script.js:25 | a string is among the collected categories iff it is non-empty and some record has it as its category |
| `Domain.Distinct` | assignment2/script.js:25 | the `Set`'s elements have no duplicates and are exactly the inserted values |
| `Domain.FirstPoint` | assignment2/script.js:25 | the position of the first record with a given category: it has that category and no earlier record does |
| `Domain.FirstPointPrefix` | assignment2/script.js:25 | appending records does not move where a category is first seen |
| `Domain.DistinctSnoc` | assignment2/script.js:25 | inserting a value into the `Set` appends it iff it is not already there |
| `Domain.PresentSnoc` | assignment2/script.js:25 | one more record adds its category to the collected list iff that category is present and non-empty |
| `Domain.FirstPointLast` | assignment2/script.js:25 | a category that only the last record has is first seen at the last record |
| `Domain.FirstSeenOrderExtends` | assignment2/script.js:25 | appending records keeps a first-seen order valid, and every listed category is first seen before the appended records |
| `Domain.FirstSeenOrderAppend` | assignment2/script.js:25 | a category first seen after all listed ones extends the first-seen order at the end |
| `Domain.UniqueCategories` | assignment2/script.js:25 | `uniqueCategories`; its contents are stated by `Domain.UniqueCategoriesMembers` and its order by `Domain.UniqueCategoriesOrder` |
| `Domain.UniqueCategoriesMembers` | assignment2/script.js:25 | `uniqueCategories` has no duplicate and no empty category, and holds exactly the non-empty categories that occur |
| `Domain.UniqueCategoriesOrder` | assignment2/script.js:25 | `uniqueCategories` is ordered by first occurrence among the records |
| `Domain.Summarize` | assignment2/script.js:16-22 | for non-empty data: `minX <= 0`; every record's `x` lies in `[minX, maxX]`; `maxX` is some record's `x`; `minX` is 0 or some record's `x`; the same holds for `y` |
| `Domain.LoadCsv` | assignment2/script.js:5-27 | no summary iff no row survives parsing; otherwise the summary holds the parsed records and their unique categories |
| `Axis.Normalize` | assignment2/script.js:39-41 | `normalize`, requiring a non-degenerate domain; its properties are stated by `Axis.NormalizeEnds`, `Axis.NormalizeMonotone`, `Axis.NormalizeStrict`, `Axis.NormalizeWithin` and `Axis.NormalizeRoundTrip` |
| `Axis.NormalizeEnds` | assignment2/script.js:39-41 | `normalize(min) = 0` and `normalize(max) = scale` |
| `Axis.NormalizeMonotone` | assignment2/script.js:39-41 | for `min < max` and a non-negative scale, `normalize` is non-decreasing in the value |
| `Axis.NormalizeStrict` | assignment2/script.js:39-41 | for `min < max` and a positive scale, `normalize` is strictly increasing in the value |
| `Axis.NormalizeWithin` | assignment2/script.js:39-41 | a value inside the domain maps into `[0, scale]` |
| `Axis.NormalizeRoundTrip` | assignment2/script.js:39-41 | the inverse linear map recovers the value from its pixel offset |
| `Axis.PadStep` | assignment2/script.js:74-76 | the step as written is the floor of a span's eighth: `8*step <= span < 8*(step+1)`, and it is non-negative for a non-negative span |
| `Axis.TickStep` | assignment2/script.js:74-81 | the corrected step is at least 1, equals the step as written whenever that is positive, and never exceeds a span's eighth by a whole unit |
| `Axis.TickStepAgrees` | assignment2/script.js:74-76 | for a span of at least 8 the corrected step is the step as written |
| `Axis.Guard` | assignment2/script.js:126 | the tick-loop condition; stated by `Axis.GuardStaysFalse`, `Axis.GuardBounded` and `Axis.ZeroStepGuardHolds` |
| `Axis.TicksAt` | assignment2/script.js:127-145 | one round emits `index*step` iff it is at most `max`, and `-index*step` iff it is at least `min`, and nothing else |
| `Axis.Emitted` | assignment2/script.js:123-148 | the loop's output after `n` rounds holds at most two values per round; its exact value set is stated by `Axis.EmittedExactly` |
| `Axis.IsTick` | assignment2/script.js:131-145 | the closed form of a tick: a multiple of the step in `[0, max]` or `[min, 0]`; tied to the loop by `Axis.EmittedExactly` and `Axis.AxisTicks` |
| `Axis.GuardStaysFalse` | assignment2/script.js:126 | once the loop guard fails at some index it fails at every later index |
| `Axis.GuardBounded` | assignment2/script.js:126 | while the guard holds, the index is at most the larger bound's magnitude; this gives the loop's termination measure |
| `Axis.TicksAtIn` | assignment2/script.js:126-148 | every value emitted in an earlier round is among the values emitted so far |
| `Axis.EmittedAreTicks` | assignment2/script.js:131-145 | every emitted value is a multiple of the step in `[0, max]` (positive side) or in `[min, 0]` (negative side) |
| `Axis.EmittedExactly` | assignment2/script.js:123-148 | when the loop stops, the emitted values are exactly the multiples of the step in `[0, max]` or `[min, 0]` (both directions) |
| `Axis.TicksSymmetric` | assignment2/script.js:123-148 | for a domain around 0, a tick whose mirror image is in bounds has its mirror image emitted too |
| `Axis.ZeroStepGuardHolds` | assignment2/script.js:126 | with step 0 and `min <= 0` the guard holds at every index, so the loop never ends |
| `Axis.NarrowDomainNeverEnds` | assignment2/script.js:75-126 | as written, the domain `[0, 5]` gets step 0 and a padded domain whose tick-loop guard holds at every index |
| `Axis.AxisTicks` | assignment2/script.js:123-148 | the tick loop (the y-axis loop at 150-177 is the same): rounds run 0, 1, … without gaps; the guard holds in every round and fails at the last index; the output is the rounds' emissions in order, and a value is emitted iff it is a tick of the domain |
| `Scatter.ShapeOf` | assignment2/script.js:87-103 | the `===` dispatch on `uniqueCategories[0]` and `[1]`; stated by `Scatter.ShapeOfPresent` and `Scatter.ShapeOfAbsent` |
| `Scatter.ShapeOfPresent` | assignment2/script.js:87-103 | with no duplicate categories, a present category is a square iff it is the first category, a circle iff it is the second, and a triangle iff it is neither |
| `Scatter.ShapeOfAbsent` | assignment2/script.js:87-103 | a record without a category is a square with no categories, a circle with exactly one, and a triangle otherwise |
| `Scatter.PlacePoint` | assignment2/script.js:84-85 | the pixel position `20 + normalize(x)`, `h - normalize(y)` and the shape of one record; stated by `Scatter.PlacePointInArea`, `Scatter.PlacePointOrder` and `Scatter.PlacePointRecovers` |
| `Scatter.PlacePointInArea` | assignment2/script.js:84-85 | a record inside the padded domain is drawn inside the plot area `[20, 20 + w] x [0, h]` |
| `Scatter.PlacePointOrder` | assignment2/script.js:84-85 | the x order is kept; the y order is reversed, so a larger `y` is drawn higher up |
| `Scatter.PlacePointRecovers` | assignment2/script.js:84-85 | the record's `x` and `y` can be recovered from its canvas position |
| `Scatter.PlacePoints` | assignment2/script.js:83-107 | the `forEach` gives one mark per record, in record order, each at its record's position with its shape |
| `Scatter.DrawScatter` | assignment2/script.js:74-177 | each domain is widened by a positive step at both ends, so it strictly contains the data domain and the padded minimum stays below 0; the marks are the records' placements, and each axis's ticks are exactly the multiples of its step in the padded domain |
| `Scatter.Plot` | assignment2/script.js:46-107 | nothing is drawn iff no row survives parsing; otherwise every kept record gets one mark with its dispatched shape, and on a canvas larger than the margins every mark lies in the plot area |

The lemmas `Csv.InfixOfSuffix` (slicing), `Axis.MultipleMod` and
`Axis.ModZeroMultiple` (integer division) are proof helpers and model no source line.

## Findings

| source | as written | input that shows it | evidently intended | confidence | as-written member | corrected member |
|---|---|---|---|---|---|---|
| assignment2/script.js:75-126 | `Math.floor((maxX - minX) / 8)` is 0 for every span under 8. The minimum is clamped to at most 0, so with step 0 the guard `(-1) * index * 0 >= minX` is always true and the tick loop never ends. The y axis (76, 153) behaves the same way. | rows `1,2,A` and `5,6,B` after a header: `minX = 0`, `maxX = 5`, step 0 | a positive step, so that the tick loop ends. A positive step also gives a non-empty padded domain, so `normalize` never divides by zero (all `x` equal to 0 does that as written). | high; not executed | `Axis.NarrowDomainNeverEnds` | `Axis.TickStep` |

`DrawScatter` pads and lays out ticks with the corrected `TickStep`. For spans of
at least 8 it is the step as written (`Axis.TickStepAgrees`).

## Left out

- Fetching the file (`fetch`, `response.text()`, lines 3-4) is I/O. The model starts from the fetched text.
- All drawing is rendering and is left out: canvas and context acquisition (34-37), the category legend (49-71), the rectangles, arcs and triangles (89-102), the axis lines (110-120) and the tick marks and labels (132-145, 159-174). The pixel position of a tick is `normalize` of its value, and the `Axis` lemmas cover that.
- `parseFloat` is a parameter, because its exact grammar is library behaviour. Numbers are exact reals. IEEE-754 rounding, `NaN` and `Infinity` are not modelled, and neither is `toFixed` label formatting.
- `Domain.LoadCsv`: for data with no valid row the source computes infinite bounds from `Math.max()`/`Math.min()`. The model returns `None` instead.
- `Axis.AxisTicks`: the loop is modelled only for a positive step. With step 0 it does not end, and `Axis.ZeroStepGuardHolds` states this.
- `Scatter.DrawScatter`: uses the corrected step (see Findings). For spans under 8 the source's padding and ticks differ: it does not pad at all, and the tick loop hangs.
- `Scatter.PlacePoints`: requires a padded domain with `min < max` on both axes. Under the corrected step this always holds. The division by zero that the source performs on a degenerate domain, with its `NaN` positions, is not modelled.
- `Csv.IsSpace` lists the ECMAScript white space and line terminator code points: tab, LF, VT, FF, CR, space, U+00A0, U+1680, U+2000-U+200A, U+2028, U+2029, U+202F, U+205F, U+3000 and U+FEFF.
- The canvas width and height are parameters of `DrawScatter` and `Plot`, because they come from the DOM.
- `assignment4/js/*` is left out. The force-directed layout there is the external d3-force library, and the rest is drag, hover and filter wiring on the DOM. It is not part of this model.
