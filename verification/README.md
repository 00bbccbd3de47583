# NTU YouBike dashboards — a verified model of their analysis logic

The repository holds two Streamlit dashboards over snapshots of the YouBike 2.0
stations on the National Taiwan University campus. Each snapshot row gives a
station (number `sno`, name `sna`), a timestamp, the dock capacity `total`, the
available rent bikes and return docks, and the position.

- **youbike_analysis_final2.py** groups the rows by station. For each station it
  derives usage, ease, variation and efficiency indicators and a short display
  name, and it averages both counts per hour of day. Seven `plot_*` views split
  the stations of one indicator into four quartile groups and keep the stations
  of the groups the user selects.
- **youbike_step_final2.py** adds two percentage columns and averages them per
  station. It colours the map markers with fixed cutoffs and filters stations by
  a minimum value. It also ranks the top five stations, and names the peak and
  off-peak hours.

Everything here is over exact `real` numbers, with strings as `seq<char>`.

The modules follow that structure:

- `Sequences`: column sums, means, minima and maxima, and a stable sort by a key.
- `Text`: `str.split`, `str.join`, `str.replace(p, '')` and `{n:02d}`.
- `Grouping`: pandas `groupby` keys, groups, boolean masks and columns.
- `Snapshots`: the row type, and the hours present in a table.
- `QuartileGroups`: quartile bounds, group membership, the selection loop and the sort.
- `StationAnalysis`: the per-station table, the display name and the hourly means.
- `MapView`: everything specific to youbike_step_final2.py.

The group loop of the `plot_*` functions, the marker loop and
`hours_to_periods_top2` work by appending in a loop. They are methods with
loops (`CollectSelected`, `PlaceMarkers`, `PeriodsTop2`), each proved against a
specification function. Everything else is a whole-column expression and is
modelled as functions.

With two stations at usage rates 0.25 and 0.8, linear interpolation gives
q1, q2 and q3 = 0.3875, 0.525 and 0.6625 (`QuartileGroups.TwoStationExample`).

## Model

| member | source | states |
|---|---|---|
| Sequences.Mean | youbike_analysis_final2.py:38-44 | the mean of a non-empty column times its length is its sum |
| Sequences.MinOf | youbike_analysis_final2.py:38-44 | the minimum is an entry of the column and no entry is smaller |
| Sequences.MaxOf | youbike_analysis_final2.py:38-44 | the maximum is an entry of the column and no entry is larger |
| Sequences.MeanBetweenMinAndMax | youbike_analysis_final2.py:40-41 | a group's mean lies between its minimum and maximum |
| Sequences.ZeroMeanForcesZeros | youbike_analysis_final2.py:58-61 | a column of nonnegative counts with mean 0 has minimum and maximum 0 |
| Sequences.SortBy | youbike_analysis_final2.py:174 | the result is ascending by the key and a permutation of the input (same multiset, same length) |
| Text.Split | youbike_analysis_final2.py:72-74 | `split` gives at least one part, no part holds the separator, and there are two or more parts exactly when the separator occurs |
| Text.JoinSplit | youbike_analysis_final2.py:72-74 | joining the parts of a split with the separator gives back the string |
| Text.SplitAtFirst | youbike_analysis_final2.py:72-74 | the first part of a split ends at the first separator and the rest splits on its own |
| Text.SplitFirstPart | youbike_analysis_final2.py:72-74 | the first part of `head + rest` is `head` when `rest` is empty or starts with the separator |
| Text.SplitNoSeparator | youbike_analysis_final2.py:74-76 | a string without the separator splits into itself alone |
| Text.Join | youbike_step_final2.py:302 | joining no parts gives the empty string and joining one part gives that part |
| Text.RemoveAll | youbike_step_final2.py:252 | `replace(p, '')` never lengthens a string |
| Text.RemoveAbsent | youbike_step_final2.py:252 | a string in which the pattern does not occur is left unchanged |
| Text.RemoveLeading | youbike_step_final2.py:252 | `replace(p, '')` deletes an occurrence at the start and goes on scanning right after it |
| Text.Pad2 | youbike_step_final2.py:300 | `{n:02d}` of 0 <= n < 100 is two decimal digits that read back as n |
| Grouping.Keys | youbike_analysis_final2.py:38 | the group keys are distinct and are exactly the keys some row has |
| Grouping.Members | youbike_analysis_final2.py:38 | a group holds exactly the rows with its key |
| Grouping.MembersCounts | youbike_analysis_final2.py:38 | a group holds each row with its key as many times as the table does, and no other row |
| Grouping.MembersFirst | youbike_analysis_final2.py:38-44 | the first row of a group is the first row of the table with that key, the row `first()` reads |
| Grouping.KeyHasMembers | youbike_analysis_final2.py:38 | every group key has a non-empty group |
| Grouping.Where | youbike_step_final2.py:48 | a boolean mask keeps exactly the rows satisfying it and never adds rows |
| Grouping.WhereCounts | youbike_step_final2.py:48 | a mask keeps each row it selects as many times as the table holds it, and no other row |
| Grouping.WhereFirst | youbike_step_final2.py:48 | the first row a mask keeps is the first row of the table satisfying it |
| Grouping.WhereSnoc | youbike_step_final2.py:48 | masking a table with one more row at the end adds that row exactly when it is kept |
| Grouping.WhereAppend | youbike_step_final2.py:48 | masking keeps table order: the mask of two blocks is the mask of the first followed by the mask of the second |
| Grouping.Column | youbike_analysis_final2.py:40-41 | a column has one entry per row, read through the column function |
| Snapshots.HoursPresent | youbike_analysis_final2.py:79-82 | the hours of a `groupby('hour')` are strictly ascending, are exactly the hours some row has, and each has rows |
| QuartileGroups.Quantile | youbike_analysis_final2.py:104-106 | a linear-interpolation quantile of an ascending column lies between its first and last entries |
| QuartileGroups.QuantileMonotone | youbike_analysis_final2.py:104-106 | a larger quantile fraction never gives a smaller quantile |
| QuartileGroups.GroupBounds | youbike_analysis_final2.py:100-106 | the bounds are undefined exactly for an empty column; otherwise min and max are entries and every entry lies between them |
| QuartileGroups.BoundsOrdered | youbike_analysis_final2.py:100-106 | the bounds of a non-empty column satisfy min <= q1 <= q2 <= q3 <= max |
| QuartileGroups.InGroup | youbike_analysis_final2.py:158-167 | a value in a group has defined bounds, and with ordered bounds it lies in [min, max] |
| QuartileGroups.ExactlyOneGroup | youbike_analysis_final2.py:108-113 | with ordered bounds, a value in [min, max] lies in a group exactly when that group is the first whose upper bound reaches it |
| QuartileGroups.StationInExactlyOneGroup | youbike_analysis_final2.py:155-167 | every station of a column lies in exactly one of the four groups of that column's bounds |
| QuartileGroups.TiesGoToLowerGroup | youbike_analysis_final2.py:108-113 | a value equal to q1, q2 or q3 belongs to the lower of the two groups meeting there |
| QuartileGroups.CollectSelected | youbike_analysis_final2.py:155-171 | the loop over the four groups yields the concatenation, in group order, of the selected groups' tagged rows |
| QuartileGroups.GroupRowsMembers | youbike_analysis_final2.py:158-167 | one group's rows are exactly the stations whose value lies in that group, tagged with it |
| QuartileGroups.GroupRowsIncreasing | youbike_analysis_final2.py:158-167 | one group's rows keep table order |
| QuartileGroups.CollectedMembers | youbike_analysis_final2.py:169-171 | a tagged row is collected exactly when its group is selected, among the groups already visited, and holds its value |
| QuartileGroups.CollectedRowsDistinct | youbike_analysis_final2.py:155-171 | no station occurs twice in the collected table |
| QuartileGroups.AppendDistinct | youbike_analysis_final2.py:171 | appending increasing rows that share no station with distinct rows keeps every station once |
| QuartileGroups.SelectionMembers | youbike_analysis_final2.py:155-171 | the collected table holds exactly the stations whose group is selected, each tagged with its own group |
| QuartileGroups.SortByMetric | youbike_analysis_final2.py:174 | the sorted table is ascending by the metric and a permutation of the collected one |
| QuartileGroups.SortedSelection | youbike_analysis_final2.py:169-174 | the final table is ascending, holds exactly the selected groups' stations with their groups, and holds each station once |
| QuartileGroups.DistinctRowsSurviveSort | youbike_analysis_final2.py:174 | sorting keeps every station once |
| QuartileGroups.TwoStationExample | youbike_analysis_final2.py:100-113 | two stations 0.25 and 0.8 get bounds (0.25, 0.3875, 0.525, 0.6625, 0.8), the first lands in the lowest group and the second in the highest |
| StationAnalysis.UsageRate | youbike_analysis_final2.py:53-55 | usage rate times capacity is capacity minus the average rent bikes |
| StationAnalysis.Ease | youbike_analysis_final2.py:56-57 | an ease times capacity is the average count |
| StationAnalysis.EaseComplementsUsage | youbike_analysis_final2.py:53-56 | rent ease plus usage rate is exactly 1 |
| StationAnalysis.SharesInUnitInterval | youbike_analysis_final2.py:53-56 | with an average between 0 and the capacity, rent ease and usage rate lie in [0, 1] |
| StationAnalysis.VariationCoeff | youbike_analysis_final2.py:58-61 | an undefined deviation or a zero mean gives 0 (`fillna(0)`), otherwise the coefficient times the mean is the deviation |
| StationAnalysis.Summarize | youbike_analysis_final2.py:40-41 | mean, deviation, min and max of a count column, with min and max entries bounding every entry and the mean |
| StationAnalysis.Stability | youbike_analysis_final2.py:62-63 | twice the stability index is the sum of the two coefficients |
| StationAnalysis.DeriveIndicators | youbike_analysis_final2.py:53-65 | ease times capacity is the average; rent ease + usage = 1; coefficients follow `fillna(0)`; stability is their mean; circulation equals stability; efficiency is usage times circulation |
| StationAnalysis.ShortName | youbike_analysis_final2.py:71-76 | a display name never holds `_`, has at most 17 characters, and is the name itself when that has no `_` and at most 15 characters |
| StationAnalysis.ShortNameOfSegment | youbike_analysis_final2.py:71-76 | a name with `_` shortens to its second segment, cut to 15 characters plus `..` exactly when that segment is longer than 15 |
| StationAnalysis.ShortNameOfLongPlainName | youbike_analysis_final2.py:74-76 | a name without `_` longer than 15 keeps its first 15 characters and gains `..` |
| StationAnalysis.DeriveStation | youbike_analysis_final2.py:38-65 | a station's key, capacity and position come from its first row, its summaries from its rows, its indicators from both, and its short name is `ShortName` of its name, without `_` |
| StationAnalysis.IdleStationHasNoSpread | youbike_analysis_final2.py:38-44 | a station whose exact (unrounded) average rent bikes is 0 has 0 rent bikes in every row |
| StationAnalysis.StationTable | youbike_analysis_final2.py:38-68 | one row per (sno, sna) key, each derived from exactly that key's rows; only the first row of each station, which `first()` reads the capacity from, needs a positive capacity |
| StationAnalysis.StationTableCoversStations | youbike_analysis_final2.py:38-44 | every station of the snapshots has a row in the table, and no two rows share a key |
| StationAnalysis.HourlyMeans | youbike_analysis_final2.py:79-82 | one row per hour present, ascending, holding the mean of both counts over that hour's rows |
| StationAnalysis.HourlyMeansCoverHours | youbike_analysis_final2.py:79-82 | an hour has a row exactly when some snapshot was taken in it |
| MapView.PercentOf | youbike_step_final2.py:24-27 | zero capacity gives 0; otherwise the percentage times the capacity is 100 times the count |
| MapView.PercentInRange | youbike_step_final2.py:24-27 | a count between 0 and the capacity gives a percentage in [0, 100] |
| MapView.BikeUsageRate | youbike_step_final2.py:24-25 | zero capacity gives 0; otherwise the rate times the capacity is 100 times the rent bikes; rent bikes within the capacity give a rate in [0, 100] |
| MapView.ReturnAvailabilityRate | youbike_step_final2.py:26-27 | zero capacity gives 0; otherwise the rate times the capacity is 100 times the return docks; return docks within the capacity give a rate in [0, 100] |
| MapView.GroupMetric | youbike_step_final2.py:39-45 | a station's total is its first row's capacity; every other metric is the mean over its rows |
| MapView.Aggregate | youbike_step_final2.py:39-45 | a map station takes its key from its first row and each metric from `GroupMetric` |
| MapView.MapStations | youbike_step_final2.py:39-45 | one map station per (sno, sna, latitude, longitude) key, each aggregated from exactly that key's rows |
| MapView.MapFilter | youbike_step_final2.py:48 | the map keeps exactly the stations whose metric is at least the minimum |
| MapView.Cutoffs | youbike_step_final2.py:64-95 | each metric's lower cutoff is below its upper one |
| MapView.MarkerColour | youbike_step_final2.py:64-95 | orange exactly between the cutoffs; green at or above the upper cutoff and red below the lower, reversed for the usage rate |
| MapView.ColourMonotone | youbike_step_final2.py:64-95 | a larger value never gets a worse colour, and for the usage rate never a better one |
| MapView.MarkerFor | youbike_step_final2.py:111-116 | a station's marker sits at its position, carries its name as tooltip, and is coloured by that station's own metric value |
| MapView.PlaceMarkers | youbike_step_final2.py:62-116 | the marker loop adds one marker per station, in order, coloured by that station's metric |
| MapView.CreateMapMarkers | youbike_step_final2.py:39-116 | the map holds one marker per station whose metric reaches the minimum, in the filtered order, and no other marker |
| MapView.NameMeans | youbike_step_final2.py:239 | one entry per station name, holding the mean of the metric over that name's rows |
| MapView.Top5 | youbike_step_final2.py:239 | `nlargest(5)` keeps min(5, n) entries, largest first, drawn from the ranking, and no entry left out has a larger mean than one kept |
| MapView.PrefixOfDescending | youbike_step_final2.py:239 | a prefix of a list sorted by descending mean holds entries of the list, descending, that no entry outside it beats |
| MapView.DisplayName | youbike_step_final2.py:252 | stripping the prefixes never lengthens a name |
| MapView.DisplayNameUnchanged | youbike_step_final2.py:252 | a name holding neither prefix is displayed unchanged |
| MapView.DisplayNameOfCampusStation | youbike_step_final2.py:252 | `YouBike2.0_臺大` followed by a plain name displays as that plain name |
| MapView.CampusPrefixNotAfterBrand | youbike_step_final2.py:252 | `YouBike2.0_` followed by a name that holds no campus prefix and does not start with `臺大` holds no campus prefix |
| MapView.DisplayNameOfBrandStation | youbike_step_final2.py:252 | `YouBike2.0_` followed by a plain name not starting with `臺大` displays as that plain name |
| MapView.PopularStations | youbike_step_final2.py:239-252 | one line per entry of `nlargest(5)`, in its order: the entry's display name and mean; so at most five lines, means descending, each a ranked station |
| MapView.HourlyRentSums | youbike_step_final2.py:279 | one total per hour present, ascending, the sum of that hour's rent bikes |
| MapView.MeanHourly | youbike_step_final2.py:280 | the mean of the hourly totals lies between the smallest and the largest total |
| MapView.PeakHours | youbike_step_final2.py:283-287 | exactly the hours whose total is at least 1.2 times the mean, each as often as in the totals, largest first; none without data |
| MapView.OffPeakHours | youbike_step_final2.py:284-288 | exactly the hours whose total is at most 0.8 times the mean, each as often as in the totals, smallest first; none without data |
| MapView.PeakAndOffPeakDisjoint | youbike_step_final2.py:283-288 | with a positive mean no hour is both peak and off-peak |
| MapView.IdleHoursArePeakAndOffPeak | youbike_step_final2.py:283-288 | when every hourly total is 0, every hour is both a peak and an off-peak hour |
| MapView.FormatPeriod | youbike_step_final2.py:300 | a period label has 11 characters, `HH:00-HH:00` with four decimal digits, reading back as the hour and the next hour |
| MapView.PeriodLabels | youbike_step_final2.py:299-300 | one label per hour, in order |
| MapView.PeriodsTop2 | youbike_step_final2.py:291-302 | no hours give "無"; one hour gives its label; two or more give the first two labels joined by ", " |
| MapView.NamePasses | youbike_step_final2.py:323-331 | a name with no rows never passes; a name with rows passes exactly when its group's average (first capacity for the total) reaches the minimum |
| MapView.TableRows | youbike_step_final2.py:323-339 | the table keeps every row of the picked stations, or, with none picked, of the stations whose average passes the filter, each as often as the snapshots hold it, and no other row |

## Left out

- Streamlit widgets, pages, messages and caching are not modelled. The metric choice, the minimum value, the selected groups and the picked stations are parameters.
- Plotly charts, chart widths and axis ranges are not modelled, nor are folium maps, popup HTML and the marker cluster. A marker keeps only its name, position and colour.
- File reading, gzip, timestamp parsing, the CSV and HTML downloads and the `streamlit_folium` fallback are not modelled. A row holds its hour of day as an integer in 0..23.
- Rounding (`.round(2)`, `.round(3)`, the `:.1f`/`:.3f` labels and `round(value)`) is not modelled. Every identity holds for exact reals before rounding.
- StationAnalysis.Summarize: the standard deviation is an abstract input function (`Deviation`, with `Undefined` for pandas' NaN), because it needs a square root.
- Group keys come out in order of first appearance. pandas sorts them, so the row order of the station, map and name tables differs from the source's; their content does not.
- Sequences.SortBy: this is a stable insertion sort. pandas' default sort and `nlargest` do not promise an order among equal values, so the order of ties may differ. Because the model's group keys come in a different order from pandas' sorted keys, a tie at fifth place in `nlargest(5)` can also pick a different station in the model than in the source.
- StationAnalysis.UsageRate, StationAnalysis.Ease, StationAnalysis.DeriveStation: these require a positive capacity. The source divides by it unguarded, and a zero capacity would give infinities that the model does not represent.
- StationAnalysis.StationTable, StationAnalysis.StationTableCoversStations: these require a positive capacity in the first row of each station (`FirstRowsStocked`), for the same reason. The capacity of later rows is never read.
- StationAnalysis.VariationCoeff: a nonzero deviation over a zero mean gives 0 here, where pandas gives infinity. This case does arise from data. The source rounds the mean and the deviation to two decimals (youbike_analysis_final2.py:44) before dividing (lines 58-61). For example, one row with 1 rent bike and 299 rows with 0 give a mean of 0.0033, rounded to 0.00, and a deviation of 0.0577, rounded to 0.06. The quotient is then infinite, `fillna(0)` keeps it, and it carries into `stability_index` and `efficiency`. The model does not round, and it has no infinity.
- NaN values other than the empty column's bounds and a singleton's deviation are not modelled. In particular, `min_value` comparisons are against exact numbers.
- Metric choice: `create_map_visualization`'s final `else` branch also catches any column name other than the four the sidebar offers. The model has exactly those four (`Metric`).
- The `None` return of `create_group_selector` (no data or unknown column) is not modelled: its callers unpack the result and would raise. The model's column is always given.
- The `try`/`except` error-reporting wrappers are not modelled.
- The overall statistics panel of the map dashboard (`df[...].mean()`, `nunique()`) is not modelled.
- QuartileGroups.CollectSelected: a station is a row number with its metric value. The other columns travel with the row in the source and are read back from the table in the model.
