# Nobel laureates line chart: the data pipeline, modelled and proved in Dafny

`main.js` loads a CSV of Nobel laureates and draws, per category group ("STEM" or
"Non-STEM"), a line of laureate counts per year, optionally with a least-squares
trendline. This project models the data preparation behind that chart:

- the per-row loop that copies `fullname` into `name`;
- the classification of each row into "STEM" (chemistry, physics, medicine) or
  "Non-STEM";
- the nested `d3.rollup` that counts records per group and year, with the JavaScript
  `Map`'s insertion order kept (association lists, keys in first-occurrence order);
- `maxCount`, the largest count;
- the nested `forEach` that flattens the rollup into `{year, count, category}` points;
- the category filters, and the `d3.group`/`d3.sum` regrouping in `updateChart`;
- `linearRegression` and the data handed to `drawTrendline`.

Modules, one file each:

| file | module | what it holds |
|---|---|---|
| `Wrappers.dfy` | `Wrappers` | `Option` |
| `Grouping.dfy` | `Grouping` | insertion-ordered grouping (`GroupBy`, d3's `group`), `Distinct`, `Matching` (JavaScript's `filter`) and their laws |
| `Laureates.dfy` | `Laureates` | rows, the in-place normalization loop (a method over an array), classification |
| `Aggregation.dfy` | `Aggregation` | the rollup, `maxCount`, the flattening loop (a method) and its specification function, the filter |
| `Trend.dfy` | `Trend` | `linearRegression` over exact reals |
| `Chart.dfy` | `Chart` | `updateChart`'s regrouping and trendline data, and a worked example |

The central facts:

- `Aggregation.RollupSpec`: the rollup's count for a group and year is the number of records with
  that pair, which is never 0.
- `Aggregation.FlattenedRollup`: the flattened rollup lists each group's years in first-occurrence
  order, with each group's points in first-occurrence order of the groups.
- `Chart.UpdateChartLine`: the regrouping in `updateChart` is the identity on the filtered points. No year repeats
  within one category of the flattened data, so each year group has one member.

The row's `year` is taken as an already parsed integer. A fitted trendline count is an
exact real, or `Undefined` where JavaScript computes 0 / 0, which is NaN.

Two facts about the code that the model states:

- `d3.rollup` returns insertion-ordered maps, so `flattenedData` has a definite order: groups in
  first-occurrence order, and within a group its years in first-occurrence order. The model
  states that order.
- With no points, `data.map` in `linearRegression` returns `[]` whatever `m` and `b` are.
  `Trend.LinearRegression` returns `[]` too.

## Model

| member | source | states |
|---|---|---|
| Laureates.NormalizeRows | main.js:15-18 | in place, every row's `name` becomes its `fullname`; every other field and every row's position are unchanged |
| Laureates.GroupOf | main.js:21-24 | the group is "STEM" exactly when the category is, case-sensitively, "chemistry", "physics" or "medicine", and "Non-STEM" exactly otherwise |
| Laureates.PrepareRows | main.js:15-25 | the loop, then the classification of the rows as the loop left them: one record per row, carrying the row with `name` set to `fullname` and the group of its category |
| Laureates.Categorize | main.js:21-25 | one record per row, same length and order, each keeping its whole row; STEM iff the category is in the STEM set, Non-STEM iff not |
| Grouping.Distinct | main.js:27-33 | the keys of an insertion-ordered map: no repetition, and exactly the elements of the input |
| Grouping.DistinctOrder | main.js:27-33 | those keys come in the order of their first occurrence in the input |
| Grouping.AddToSpec | main.js:27-33 | adding one record to the map: a new key goes at the end, a known key keeps its place and its group gains the record at the end, and one member is added in total |
| Grouping.AddTo | main.js:27-33 | adding one record to an insertion-ordered map; `Grouping.AddToSpec` states its effect |
| Grouping.GroupBy | main.js:27-33 | d3's `group`; `Grouping.GroupByKeys` and `Grouping.GroupByMembers` state its keys and groups |
| Grouping.GroupByKeys | main.js:27-33 | the keys of a grouping are the distinct keys of the input in first-occurrence order, and the groups hold all the input's elements |
| Grouping.GroupByMembers | main.js:27-33 | each key's group is exactly the input elements with that key, in input order |
| Grouping.GroupByUnique | main.js:202-208 | when no key repeats, every element forms a singleton group, in input order |
| Grouping.Matching | main.js:63 | the filter is no longer than its input and keeps only elements with the key |
| Grouping.MatchingMembers | main.js:63 | an element is kept exactly when it occurs in the input and its key matches |
| Grouping.MatchingConcat | main.js:179 | filtering distributes over concatenation, so relative order is kept |
| Grouping.MatchingEmpty | main.js:197 | the filter is empty exactly when no element carries the key |
| Grouping.MatchingAll | main.js:197 | when every element carries the key, the filter returns its input unchanged |
| Aggregation.TallyIsGroupSize | main.js:27-33 | the size of a year group within a category group (`values.length`) is the number of records with that group and year |
| Aggregation.TallyPositive | main.js:27-33 | a group and year have records exactly when the year occurs within the group, and then the group occurs |
| Aggregation.CountByYear | main.js:28-31 | the inner rollup; `Aggregation.CountByYearSpec` states its keys and counts |
| Aggregation.Rollup | main.js:27-33 | the nested rollup; `Aggregation.RollupSpec` states its keys and counts |
| Aggregation.CountByYearSpec | main.js:28-31 | the inner rollup of a group has that group's years in first-occurrence order, each counted by its positive tally |
| Aggregation.RollupSpec | main.js:27-33 | the rollup's keys are the groups present in first-occurrence order; each group's year map has exactly that group's years in first-occurrence order; each count equals the number of records with that group and year and is at least 1 |
| Aggregation.MaxOf | main.js:40 | d3's `max`: undefined exactly when no value is defined, otherwise one of the values and at least every defined value |
| Aggregation.GroupMax | main.js:40 | the inner `d3.max` of one year map; `Aggregation.MaxCountSpec` states what the outer one gives |
| Aggregation.MaxCount | main.js:38-40 | `maxCount`; `Aggregation.MaxCountSpec` and `Aggregation.MaxCountRollup` state it |
| Aggregation.MaxCountBound | main.js:38-40 | `maxCount` is defined and at least the count of every point of the flattened map |
| Aggregation.MaxCountAttained | main.js:38-40 | a defined `maxCount` is the count of some point |
| Aggregation.MaxCountSpec | main.js:38-40 | `maxCount` is undefined exactly when there are no points, bounds every count, and is attained |
| Aggregation.MaxCountRollup | main.js:38-40 | `maxCount` of the rollup is defined exactly when there is at least one record, and the flattened rollup is empty exactly when the records are |
| Aggregation.Flatten | main.js:55-60 | the nested loop's pushes produce exactly the points of every group's year map, group after group, entry after entry |
| Aggregation.Flattened | main.js:55-60 | the specification of the flattening loop; `Aggregation.Flatten`, `Aggregation.FlattenedMembers` and `Aggregation.FlattenedRollup` state it |
| Aggregation.FlattenedSnoc | main.js:56-59 | finishing one more group appends exactly that group's points |
| Aggregation.FlattenedMembers | main.js:55-60 | every map entry becomes a point with its year, count and category, and every point comes from an entry |
| Aggregation.FlattenedRollup | main.js:56-59 | the flattened rollup lists the groups in first-occurrence order and, within a group, its years in first-occurrence order, each with the number of its records |
| Aggregation.ExpectedForUnique | main.js:55-60 | points built from distinct groups never repeat a category and year |
| Aggregation.FlattenedRollupSpec | main.js:55-60 | a point is in the flattened rollup exactly when its count is the positive number of records of its category and year; no category and year occur twice; the counts add up to the number of records |
| Aggregation.FilterByCategory | main.js:63 | the category filter (also main.js:179 and 197); `Aggregation.FilterRollup` states it on the flattened rollup |
| Aggregation.SumCounts | main.js:206 | `d3.sum` of the counts (also main.js:165); `Trend.FittedSumIsCountSum` and `Aggregation.FlattenedRollupSpec` state sums with it |
| Aggregation.FilterRollup | main.js:63 | the STEM (or any) filter of the flattened rollup is that group's years in first-occurrence order with their counts, and it is empty exactly when no record belongs to the group |
| Aggregation.YearPointsEmpty | main.js:197 | a group has points exactly when some record belongs to it |
| Trend.LinearRegression | main.js:162-176 | one trend point per input point, same order and same year; the fitted count is undefined exactly when `n * sumX2 - sumX * sumX` is zero |
| Trend.DenominatorZero | main.js:169 | the slope's denominator is never negative and is zero exactly when all years are equal, including when there are no points |
| Trend.Slope | main.js:169 | `m`; `Trend.SlopeIs` states its value on a line, `Trend.NumeratorZero` that its numerator vanishes with its denominator |
| Trend.Intercept | main.js:170 | `b`; `Trend.InterceptIs` states its value on a line, `Trend.FittedSumIsCountSum` that it balances the sums |
| Trend.NumeratorZero | main.js:169 | when the slope's denominator is zero its numerator is zero too, so the slope is 0 / 0 |
| Trend.SlopeIs | main.js:169 | for counts on a line `q * count == p * year + r` with a nonzero denominator, the slope is `p / q` |
| Trend.InterceptIs | main.js:170 | on such a line the intercept is `r / q` |
| Trend.FittedSumIsCountSum | main.js:162-176 | where the fit is defined, the fitted counts add up to the observed counts (least squares leaves no net residual) |
| Trend.FitAllSum | main.js:172-175 | the counts `data.map` fits with `m * year + b` add up to `m * sumX + n * b` |
| Trend.ExactFit | main.js:162-176 | counts lying on any line with rational slope and intercept, `q * count == p * year + r`, over at least two distinct years are returned unchanged |
| Trend.LinearSeriesFit | main.js:162-176 | the series 1, 2, 3 over 2000-2002 is fitted exactly |
| Trend.ConstantSeriesFit | main.js:162-176 | the constant series 5, 5, 5 is fitted exactly |
| Trend.HalfSlopeFit | main.js:162-176 | counts 1 and 2 in 2000 and 2002, a slope of 1/2, are fitted exactly |
| Chart.UpdateChart | main.js:196-225 | a trendline is drawn exactly when the toggle is checked, and it is `linearRegression` of the selected group's filtered points; when no category and year repeat, the line is the filtered points' `{year, count}` one for one, and the trendline has one point per line point with the same year |
| Chart.Regroup | main.js:202-208 | `groupedData`; `Chart.RegroupDistinctYears` states it is the points' own years and counts when no year repeats |
| Chart.TrendlineData | main.js:178-180 | the points handed to `drawTrendline`; `Chart.TrendlineDefined` states when they are all defined |
| Chart.RegroupDistinctYears | main.js:202-208 | when no year repeats, grouping by year and summing the counts gives each point's own year and count, in order |
| Chart.FilterYearsDistinct | main.js:197 | filtering points without a repeated category and year to one category leaves no repeated year |
| Chart.UpdateChartLine | main.js:196-208 | on the flattened rollup, `groupedData` equals the filtered points' `{year, count}`, one for one and in order |
| Chart.UpdateChartCounts | main.js:196-208 | the drawn line has the group's years in first-occurrence order, each with its number of records, and is empty exactly when the group has no records |
| Chart.TrendlineDefined | main.js:178-180 | a group with records in at least two years gets a trendline defined at every point |
| Chart.FourLaureatesExample | main.js:21-63 | two STEM laureates in 1960, one literature laureate in 1960 and one physics laureate in 1961 give the STEM line (1960, 2), (1961, 1) |

## Left out

- Year parsing: the unary `+` on `d["year"]` (main.js:16) uses JavaScript number coercion, with NaN, whitespace and exponents. The model takes the year as an already parsed integer. So `Laureates.NormalizeRows` only sets `name`, and a non-numeric year is not modelled.
- CSV columns: a CSV row is modelled with the four columns the pipeline reads. The object spread `...d` becomes keeping the whole row in the record.
- Trend.LinearRegression: the fitted counts are exact reals, not IEEE doubles, so rounding is not modelled. A zero denominator becomes `Undefined`, which stands for NaN: the numerator is then zero too (`Trend.NumeratorZero`), so the slope is 0 / 0.
- Scales and path generation: `allYears` with `d3.extent`, `d3.scaleLinear` and `d3.line` (main.js:36-37, 42-52) serve pixel mapping only, with float-valued library calls.
- Rendering: paths, axes, labels, tooltip, hover circles and their removal (main.js:6-11, 66-160, 182-193, 199-220) are SVG/DOM output.
- Event wiring: the mouse handlers, the toggle and the category select (main.js:136-160, 227-243) read UI state. The toggle's state is a parameter of `Chart.UpdateChart` instead.
- Data loading: the asynchronous `d3.csv` call (main.js:14) is I/O. The model starts from the loaded rows.
- The implicit global `filteredFlattenedData` (main.js:63) is the return value of `Aggregation.FilterByCategory`.
