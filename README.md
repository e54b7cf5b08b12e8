# CaliFires chart data, modelled in Dafny

CaliFires is a web page that draws four charts from a table of
wildfire-damaged properties (wildfire.csv). The charts are a bar chart of
properties per damage category, a scatter map of the properties, a line
graph of properties per year built, and a treemap of properties per county.
All four are drawn with d3 in `main.js`. Under the drawing sits a small
amount of data logic, and this project models it:

- the empty-load guard, which stops a chart before any grouping;
- the row filters:
  - the scatter map keeps rows with a truthy latitude and a truthy longitude;
  - the line graph keeps rows whose year built is truthy and not NaN;
- group-and-count with `d3.rollup(data, v => v.length, key)` and
  `Array.from`. It yields one bucket per distinct key, in first-encounter
  order, and a missing key is a key like any other;
- the in-place stable sorts:
  - damage buckets by descending count;
  - year buckets by ascending year;
- the colour lookups:
  - the bar chart's six-entry `colorMapping` with a white fallback;
  - the scatter map's ordinal scale with the `|| "Unknown"` substitution;
- the treemap's label truncation;
- the layout constants.

Modules:

- `JsValues`: a CSV cell after `d3.autoType` (`Null`, a number that may be
  NaN, or text), JavaScript truthiness, the global `isNaN`, and `||`.
- `Filtering`: `Array.prototype.filter` as the function `Filter`, with its
  order and selection lemmas.
- `Rollup`:
  - the specification function `Tally`, a fold that counts one row at a
    time;
  - its lemmas;
  - the loop method `RollupCount`, which keeps an insertion-ordered map
    (the `InternMap` d3 uses) and is proved to return `Tally`.
- `StableSort`:
  - the specification function `SortBy`, a stable insertion sort by a
    real-valued rank;
  - sortedness, permutation and stability lemmas;
  - a uniqueness lemma: every sorted, stable rearrangement equals
    `SortBy`. So the model's sort and the browser's stable
    `Array.prototype.sort` give the same order;
  - the in-place array method `SortInPlace`.
- `Colors`, `Labels`, `Layout`: the colour tables, the label truncation and
  the chart geometry.
- `Charts`: the four charts' data pipelines, built from the pieces above,
  and the properties of each chart's data.

The comparators are modelled as ranks. `d3.descending(a.count, b.count)`
orders exactly as ascending `-count`. `a.year - b.year` orders as ascending
`year`.

With the margins and paddings of `main.js:1-8`, the inner height is
600 − 20 − 20 − 60 − 150 = 350, and `Layout.Dimensions` states 350.

## Model

| member | source | states |
|---|---|---|
| Rollup.Tally | main.js:35-36 | The grouping as a fold over the keys: each key bumps its bucket, or appends a new bucket with count 1 when it is new. The same fold serves the year rollup (main.js:192) and the county rollup (main.js:265-269). Its properties are stated by TallyKeys, TallyCounts, TallyTotal and TallyOrder. |
| Rollup.Rekey | main.js:193 | `Array.from` with `({ year: +year, count })`: every bucket keeps its count and position and has its key converted. TallyRekey relates it to grouping by the converted key. |
| Rollup.RollupCount | main.js:35-36 | The rollup loop: it updates an insertion-ordered key→count map once per row, then reads the map out in insertion order. The result equals the fold `Tally` of the keys. The same method serves the damage, year and county rollups. |
| Rollup.TallyKeys | main.js:35-36 | The buckets have pairwise distinct keys. Every bucket key occurs among the rows' keys. Every row's key has a bucket, so a row with a missing key is not dropped. |
| Rollup.TallyCounts | main.js:35-36 | Each bucket's count equals the number of rows carrying its key, so it is at least 1. |
| Rollup.TallyTotal | main.js:35-36 | The counts add up to the number of rows. |
| Rollup.TallyOrder | main.js:35-36 | Buckets come in first-encounter order (the order of an InternMap): if bucket i precedes bucket j, then i's key occurs in the rows before every occurrence of j's key. |
| Rollup.TallyRekey | main.js:193 | Converting keys after grouping, as `+year` does, gives the grouping of the converted keys, provided the conversion merges no two keys that occur. |
| Rollup.TotalPermutation | main.js:37 | Two bucket sequences that are permutations of each other have the same total count. |
| Rollup.DistinctKeysPermutation | main.js:37 | Reordering buckets keeps their keys distinct. |
| StableSort.SortBy | main.js:37 | The comparator sort as a specification: each element in turn goes into the sorted prefix after every element of rank at most its own. The same sort serves the year sort (main.js:196). SortBySorted, SortByPermutation, SortByStable and SortedStableIsUnique state its properties. |
| StableSort.SortInPlace | main.js:37 | The in-place sort of an array leaves it equal to `SortBy` of its old contents. |
| StableSort.InsertInPlace | main.js:37 | One insertion pass over the array: the prefix up to i becomes the old sorted prefix with a[i] inserted after every element of rank at most a[i]'s. The rest of the array is unchanged. |
| StableSort.ShiftLarger | main.js:37 | The inner loop of a pass moves each element of the sorted prefix that ranks above `x` one place right and stops at the gap `j`. Below `j` nothing moves, past `i` nothing changes, and inserting `x` at `j` is exactly `Insert`. |
| StableSort.InsertAt | main.js:37 | `Insert` places the new element right after the last element whose rank is at most its own, so it lands after every equal-ranked element already there. |
| StableSort.InsertSorted | main.js:37 | Inserting into a sorted sequence keeps it sorted. |
| StableSort.SortBySorted | main.js:37 | The sorted result is in non-decreasing rank order. |
| StableSort.SortByPermutation | main.js:37 | The sorted result has the same multiset of elements as its input. |
| StableSort.SortByStable | main.js:37 | For every rank, the elements of that rank appear in the same order as in the input. |
| StableSort.SortByKeepsTieOrder | main.js:37 | Two elements of equal rank at positions i < j of the result stood in the same order in the input. |
| StableSort.SortedStableIsUnique | main.js:37 | Any sorted rearrangement that keeps each rank's elements in input order is exactly `SortBy`'s result, so every stable sort gives this order. |
| Filtering.Filter | main.js:124 | `Array.prototype.filter` with a test: the result is no longer than the input, and every element of it is an input element that passes the test. The same function serves the year filter (main.js:190). FilterSelectsInOrder states exactly which elements it keeps. |
| Filtering.FilterSelectsInOrder | main.js:124 | The filter keeps exactly the positions whose element passes the test, each once and in increasing order. The result is an order-preserving subsequence that loses no passing element. |
| Filtering.KeptIndex | main.js:124 | A passing element at position p lands in the result at the index whose kept position is p. |
| Filtering.FilterKeeps | main.js:190 | An element that passes the test is in the result. |
| Filtering.FilterPreservesOrder | main.js:190 | Two kept elements keep their relative order. |
| Filtering.FilterReflectsOrder | main.js:124 | Two elements of the result stand in the same order in the input. |
| JsValues.Truthy | main.js:124 | JavaScript truthiness on an autoTyped cell: null, NaN, 0 and the empty text are falsy, and everything else is truthy. It is the test behind `&&` in both filters and behind `||`. |
| JsValues.IsNaN | main.js:190 | The global `isNaN` on a cell: null converts to 0 and is not NaN; text that autoType left as text converts to NaN; a number is NaN only when it is NaN. |
| JsValues.Or | main.js:164 | `a || b`: the result is the first operand when that one is truthy and the second otherwise, so `null || 0` is `0`. The result is truthy exactly when either operand is. |
| Charts.NoData | main.js:29-32 | The guard `!data || data.length === 0`: nothing loaded, or an empty table. The same guard is at main.js:184-187. |
| Charts.Damage | main.js:35 | The rollup key accessor `d => d["* Damage"]`: the row's damage cell, null included. |
| Charts.ByCountDescending | main.js:37 | The comparator `d3.descending(a.count, b.count)` as a rank, the negated count. ByCountDescendingOrders shows that it orders exactly as the comparator: a larger count goes first, and equal counts tie (compare 0), so the stable sort keeps their order. |
| Charts.ByCountDescendingOrders | main.js:37 | One bucket ranks before another exactly when its count is larger, and two buckets tie exactly when their counts are equal. |
| Charts.BarsOf | main.js:60-67 | The data join of the sorted buckets: one bar per bucket, in order, with its category, its count (the bar's height) and the fill `colorScale(d.category)`. |
| Charts.DamageBuckets | main.js:35-37 | `damageArray` after the sort: the damage rollup, in first-encounter order, sorted by descending count. DamageBucketsCount and DamageBucketsOrder state its properties. |
| Charts.HasCoordinates | main.js:124 | The scatter filter's test `d.Latitude && d.Longitude`: both cells are truthy. |
| Charts.ScatterDots | main.js:124-164 | `newData` with each row's fill: the rows that pass the coordinate filter, in order, each with `colorScale(d["* Damage"] || "Unknown")`. ScatterDotsFacts states its properties. |
| Charts.BarChart | main.js:28-37 | With no data or an empty table the chart stops (None). Otherwise the bars are the damage buckets: the rollup, `Array.from` and the in-place descending sort, each bar carrying its bucket's category, count and colour. |
| Charts.DamageBucketsCount | main.js:35-36 | Damage buckets have distinct categories. Each count equals the number of rows with that category and is at least 1. Every row's category, missing ones included, has a bucket. The counts add up to the number of rows. |
| Charts.DamageBucketsOrder | main.js:37 | Sorted damage buckets have non-increasing counts. They are a permutation of the rolled-up buckets. Of two buckets with equal counts, the earlier one's category occurs in the rows before any row of the later one's. |
| Charts.DamageBucketsExample | main.js:35-37 | Rows destroyed, minor, destroyed give the buckets ("Destroyed (>50%)", 2) then ("Minor (10-25%)", 1). |
| Charts.ScatterDotsFacts | main.js:124-164 | The dots are, one for one and in order, the rows that pass the coordinate filter, so FilterSelectsInOrder carries over: duplicate rows give duplicate dots. Every dot has a truthy latitude and longitude. Dots keep the rows' order. No row with coordinates is lost. A dot with a falsy damage value is filled "#9E9E9E". |
| Charts.YearBuilt | main.js:192 | The rollup key accessor `d => d["Year Built (parcel)"]`: the row's year cell, unconverted. |
| Charts.YearNumber | main.js:193 | `+year` on a key that passed the year filter: the finite number it holds. Other cells give 0; see its line under "Left out". |
| Charts.ByYear | main.js:196 | The comparator `(a, b) => a.year - b.year` as a rank, the year itself. ByYearOrders shows that it orders exactly as the comparator: a negative difference goes first, and a zero difference ties. |
| Charts.ByYearOrders | main.js:196 | One point ranks before another exactly when the year difference is negative, and two points tie exactly when it is zero. |
| Charts.HasYear | main.js:190 | The year filter's test: the year cell is truthy and `isNaN` of it is false. HasYearExactly characterises it. |
| Charts.YearSeries | main.js:190-196 | `yearData` after the sort: the year filter, the year rollup, the `+year` conversion and the ascending sort by year. YearSeriesIsSortedTally and YearSeriesFacts state its properties. |
| Charts.LineChart | main.js:183-196 | With no data or an empty table the chart stops (None). Otherwise the points are the sorted rollup of the rows that pass the year filter, with each year converted by `+year`. |
| Charts.HasYearExactly | main.js:190 | The year filter keeps a row exactly when its year is a finite, nonzero number. Null, 0, NaN and text are dropped. |
| Charts.YearNumberInjective | main.js:190-193 | On rows that passed the year filter, `+year` merges no two distinct year cells. |
| Charts.YearSeriesIsSortedTally | main.js:190-196 | The line graph's points are the sorted tally of the kept rows' numeric years. |
| Charts.SortedYearsAscend | main.js:196 | Sorting buckets whose years are distinct by year makes the years strictly ascending. |
| Charts.YearSeriesFacts | main.js:190-196 | The years are strictly ascending, so no year appears twice. Each count equals the number of kept rows built that year and is at least 1. Every kept row's year has a point. The counts add up to the number of rows that passed the filter. |
| Charts.YearSeriesExample | main.js:190-196 | Years 1990, missing, 2005 and "bad" give exactly the points (1990, 1) and (2005, 1). |
| Charts.SortedTally | main.js:35-37 | Grouping facts survive any stable sort of the buckets: distinct keys, counts equal to occurrences and at least 1, every key covered, total equal to the number of rows. |
| Charts.SortedTallyTieOrder | main.js:37 | After the stable sort, buckets of equal rank are still in first-encounter order. |
| Charts.County | main.js:268 | The rollup key accessor `d => d["County"]` on a row read without autoType: the county text. |
| Charts.LeavesOf | main.js:271-307 | `fireArray` as the treemap's leaves: one leaf per county bucket, in bucket order, with its count and its truncated label. |
| Charts.Treemap | main.js:264-307 | With no rows the render throws, because the hierarchy root is the only leaf and has no county (None). Otherwise there is one leaf per county bucket, in first-encounter order, each with its count and its truncated label. |
| Charts.TreemapFacts | main.js:265-307 | Leaves have distinct counties. Each count equals that county's number of rows and is at least 1. The counts add up to the number of rows. Every label has at most 13 characters, and a name of at most 10 characters is shown unchanged. |
| Colors.BarColor | main.js:55 | `colorMapping[d] || "#FFFFFF"`: a string key that names a category gets that category's colour; every other key gets white. BarColorOfCategory and BarColorFallback state this. |
| Colors.ScatterColor | main.js:149-151 | The ordinal scale: a key of the domain gets the range colour at the key's first position. ScatterColorMatchesBar states this. |
| Colors.ScatterFill | main.js:164 | `colorScale(d["* Damage"] || "Unknown")`: a falsy damage value is looked up as "Unknown". ScatterFillFalsy states this. |
| Colors.BarColorOfCategory | main.js:47-55 | Each of the six categories gets its fixed hex colour in the bar chart. |
| Colors.BarColorFallback | main.js:55 | The bar colour is "#FFFFFF" exactly when the key is not one of the six categories. |
| Colors.IndexOf | main.js:149-151 | The position returned holds the key, and it is the key's first occurrence. |
| Colors.ScatterColorMatchesBar | main.js:149-151 | The scatter scale knows exactly the six categories and colours each of them as the bar chart does. |
| Colors.ScatterFillFalsy | main.js:164 | A falsy damage value is drawn as "Unknown", in "#9E9E9E". A truthy value is looked up as it is. |
| Labels.Truncate | main.js:307 | The label has at most 13 characters. A name of at most 10 characters is returned unchanged. A longer name becomes exactly 13 characters: its first 10 followed by "...". |
| Labels.TruncateIdempotent | main.js:307 | Truncating a label again changes nothing. |
| Layout.Dimensions | main.js:1-8 | OUTER_WIDTH is 820 and OUTER_HEIGHT 560. INNER_WIDTH is 700 and INNER_HEIGHT 350. Each inner size is positive and below its outer size, which is below WIDTH or HEIGHT. |

## Left out

- Drawing: `init` and the module globals `outerG`/`innerG`, SVG and DOM construction, axes, titles and tooltips. They have no data behaviour to state.
- Loading and plumbing:
  - `d3.csv`, `d3.json` and `Promise.all` are I/O and become the parameters of the chart operations;
  - the `.catch` logging and `console.error` are not modelled; only the early return is.
- `d3.autoType` is modelled only by its outcome on the cells the charts read: null, a number (possibly NaN) or text. Booleans and dates, which autoType can also produce, are not modelled.
- Scales and layouts: `scaleBand`, `scaleLinear().nice()`, `scaleTime`, `scaleSqrt`, `d3.line` with `curveMonotoneX`, `d3.treemap`/`hierarchy` and the `geoMercator` projection. They are floating-point code inside d3. The treemap leaves are kept in bucket order, and their geometry is not modelled.
- Colors.ScatterColor: returns None for a key outside the six categories. d3's ordinal scale would instead grow its domain and hand out a range colour; that implicit growth is library state and is not modelled.
- Colors.BarColor: the lookup `colorMapping[d]` is a finite six-entry map. Keys that reach the object's prototype chain, such as "constructor", are not modelled.
- Charts.YearNumber: maps cells other than finite numbers to 0. Such cells never reach it, because the year filter drops them first.
- Labels.Truncate: counts characters as Dafny string elements. JavaScript's `length` and `substring` count UTF-16 code units, which differ for characters outside the Basic Multilingual Plane.
- Numbers: infinities are not modelled. Finite values are reals, so counts and years are exact.
- The sorts are modelled by one insertion sort. The browser's algorithm is not modelled, but StableSort.SortedStableIsUnique shows that every stable sort by the same comparator gives the same result.
