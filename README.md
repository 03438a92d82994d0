# Olympic data dashboard: preparation and chart aggregations

This project models the data core of a Streamlit dashboard over an Olympic
athletes dataset, and proves properties of that model.

The first part is `load_data`, which turns two input tables into one:
- it replaces a missing `Medal` with `"No Medal"`;
- it left-joins the athletes (`NOC`) to a reference table of regions (`noc_region`);
- it renames the joined `reg` column to `Country` and drops `noc_region`;
- it adds `Gold`, `Silver` and `Bronze` columns, each holding Python's
  `str.count` of that word in `Medal`.

The second part is the filter and aggregation logic of the seven charts:
- the medal map;
- participating countries per year;
- participants per year by sex;
- the sex, medal and sport sunburst;
- medals over the years;
- medal counts by country and medal;
- the sorted top countries.

Widget selections are parameters of these functions. Figure construction is
not modelled.

Modules:
- `Frame` (frame.dfy) holds the dataframe operations the code relies on.
  A grouped table is a sequence of (key, value) entries. A key function
  returning `None` puts a row in no group, as `groupby` does with a NaN key.
  The operations are `groupby(...).count()` (`Aggregate`), `.size()`
  (`Tally`), `.nunique()` (`NUnique`) and a descending `sort_values`
  (`SortByValue`).
- `PyStr` (pystr.dfy) is `str.count` and `in` on strings.
- `Preprocess` (preprocess.dfy) is `load_data`. The medal fill is a method
  working in place on an array, as the source's `inplace=True` fill does.
  The join, the rename/drop and the indicator columns change the shape of a
  row, so they are functions on sequences of records. `LoadData` chains them
  and is proved equal to the specification function `Prepare`.
- `Vis` (vis.dfy) is the chart logic. A boolean mask is a `Mask` value: one
  column comparison, or `&` of two masks. `Where` is `df[mask]`.
- `Scenarios` (scenarios.dfy) proves the results of the same functions on
  small concrete tables.

Missing values are `Option`. `astype(str)` of a missing country is modelled
as the fixed text `"nan"` (`Vis.MissingText`).

In these cases the code does something a reader might not expect, and the
model follows the code:
- The indicator columns use `str.count`, not a containment test. So
  `Gold > 0` holds exactly when `Medal` contains "Gold"
  (`Preprocess.WithIndicators`). That each indicator is 0 or 1, with at most
  one of them 1, is proved for the four categories of the data
  (`Preprocess.PreparedIndicators`). For another text, such as "GoldGold",
  an indicator can be 2 (`PyStr.CountExamples`).
- The left join keeps one row for every matching reference row
  (`Preprocess.JoinRowMatches`). So the
  prepared table has at least as many rows as the primary table. It has
  exactly as many when the reference keys are unique (`Preprocess.PrepareUnique`).
- The participants chart counts the rows that have an `ID`, not distinct IDs
  (`Vis.ParticipantsPerYear`).

## Model

| member | source | states |
|---|---|---|
| Frame.Aggregate | vis.py:28 | groupby then count: keys without repeats, exactly the present keys of the rows; each value is that key's number of counted rows; the values sum to the counted rows with a key |
| Frame.Tally | vis.py:159 | groupby then size: the same, counting every row, and no group is empty |
| Frame.CountKeyWhereAtMost | vis.py:28 | a group's count() never exceeds its size() |
| Frame.CountKeyPositive | vis.py:159 | a key's size is positive exactly when some row has that key |
| Frame.CountPresentAll | vis.py:28 | when every keyed row's counted column is present, the total count() equals the total size() |
| Frame.CountKeyAll | vis.py:28 | the same for a single group |
| Frame.CountPresentEverywhere | vis.py:159 | when every row has a key, the group sizes add up to the number of rows |
| Frame.Values | vis.py:64 | the distinct present values of a column in one group, never more than the group's rows |
| Frame.NUnique | vis.py:64 | groupby then nunique: the same keys as the group sizes, each valued by its number of distinct present values, never more than the group's size |
| Frame.InsertByValue | vis.py:246 | inserting into a list sorted descending by value keeps it sorted and adds exactly that entry |
| Frame.SortByValue | vis.py:246 | sort_values descending: the values never increase, and the result is a permutation of the input |
| Frame.SameKeys | vis.py:64 | a table relabelled position by position keeps its key set, without repeats if the original had none |
| Frame.PermutationKeys | vis.py:243-246 | a permutation of a grouped table has the same keys without repeats, with the same value for each |
| PyStr.Count | data_load_preprocess.py:23-25 | str.count: the non-overlapping occurrences fit in the string |
| PyStr.CountPositiveIffContains | data_load_preprocess.py:23-25 | the count is positive exactly when the word occurs in the text |
| PyStr.CountExamples | data_load_preprocess.py:23-25 | `str.count` counts occurrences without overlap: "Gold" twice in "GoldGold", "aa" once in "aaa" |
| PyStr.CountSelf | data_load_preprocess.py:23-25 | a word counts itself once |
| Preprocess.Filled | data_load_preprocess.py:11 | fillna: same length, no missing medal, a present medal is unchanged, a missing one becomes "No Medal", and nothing else changes |
| Preprocess.FillMedalInPlace | data_load_preprocess.py:11 | the in-place fill leaves the array equal to the filled table |
| Preprocess.Matches | data_load_preprocess.py:14 | the reference rows whose key equals the code, and only those |
| Preprocess.MatchesMultiplicity | data_load_preprocess.py:14 | each reference row with the code is matched as often as it occurs in the reference table, and no other row is matched |
| Preprocess.MatchesConcat | data_load_preprocess.py:14 | matching keeps the reference order: the matches in two reference tables put together are the two match lists put together |
| Preprocess.JoinRow | data_load_preprocess.py:14 | a left-join row yields at least one output row, each carrying it |
| Preprocess.JoinRowMatches | data_load_preprocess.py:14 | an unmatched left row yields exactly one row with both reference columns missing; a matched one yields one row per matching reference row, in reference order, with the code and that row's reg |
| Preprocess.Merge | data_load_preprocess.py:14 | the left join has at least as many rows as the left table |
| Preprocess.MergeCovers | data_load_preprocess.py:14 | every left row has a joined row carrying it |
| Preprocess.MergeRows | data_load_preprocess.py:14 | the left join has at least as many rows as the left table, each from a left row; an unmatched row has no reference values; a matched row carries a reference row with its code |
| Preprocess.MergeConcat | data_load_preprocess.py:14 | the join of two tables put together is the two joins put together, so the left order is kept |
| Preprocess.MatchesAtMostOne | data_load_preprocess.py:14 | with unique reference keys a code matches at most one reference row |
| Preprocess.RegionOf | data_load_preprocess.py:14-17 | the region name a code gets: missing when no reference row matches, and otherwise the reg of a reference row with that code |
| Preprocess.RegionOfMatch | data_load_preprocess.py:14-17 | with unique keys, a code's region name is the reg of the reference row with that code |
| Preprocess.JoinRowUnique | data_load_preprocess.py:14 | with unique keys each left row yields exactly one row, carrying its RegionOf |
| Preprocess.MergeUnique | data_load_preprocess.py:14 | with unique keys the join has exactly one row per left row, in order, whose reg is the left row's RegionOf |
| Preprocess.RenameAndDrop | data_load_preprocess.py:17-20 | same rows, primary columns unchanged, Country holds what reg held, and noc_region is gone |
| Preprocess.WithIndicators | data_load_preprocess.py:23-25 | same rows and other columns; each indicator is its word's count in the medal, and is positive exactly when the medal contains the word |
| Preprocess.WordCount | data_load_preprocess.py:23-25 | a category counts a medal word once if it is that word, and otherwise never |
| Preprocess.CategoryIndicators | data_load_preprocess.py:23-25 | for Gold, Silver, Bronze and No Medal, the indicator of the category's own word is 1 and every other indicator is 0 |
| Preprocess.IndicatorRow | data_load_preprocess.py:23-25 | one row's indicators: the other columns are kept, and each indicator is positive exactly when the medal contains its word |
| Preprocess.Joined | data_load_preprocess.py:11-20 | the filled, joined and renamed table has at least as many rows as the primary table, each carrying a filled primary row |
| Preprocess.Prepare | data_load_preprocess.py:10-25 | at least as many prepared rows as primary rows; the fill runs before the indicators, so every row has a medal; every row's primary columns are those of a filled primary row; each indicator is its word's count in the medal |
| Preprocess.PrepareCovers | data_load_preprocess.py:11-25 | every primary row, filled, has a prepared row |
| Preprocess.PrepareCountry | data_load_preprocess.py:14-20 | a prepared row's Country is missing when its code has no reference row, and is otherwise the reg of a reference row with that code |
| Preprocess.FilledConcat | data_load_preprocess.py:11 | the fill works row by row, so it distributes over putting two tables together |
| Preprocess.RenameAndDropConcat | data_load_preprocess.py:17-20 | the rename and the drop work row by row, so they distribute over putting two joined tables together |
| Preprocess.JoinedConcat | data_load_preprocess.py:11-20 | fill, join and rename keep the primary order: two tables put together give the two results put together |
| Preprocess.IndicatorsConcat | data_load_preprocess.py:23-25 | the indicator columns are derived row by row, so they distribute over putting two tables together |
| Preprocess.PrepareConcat | data_load_preprocess.py:10-25 | preparation keeps the primary order: preparing two tables put together gives the two prepared tables put together |
| Preprocess.PrepareUnique | data_load_preprocess.py:14-20 | with unique reference keys: one prepared row per primary row, in order, with the filled primary columns and Country equal to its code's region name |
| Preprocess.PreparedIndicators | data_load_preprocess.py:11-25 | on the dataset's categories each indicator is 0 or 1, at most one is 1, and "No Medal" gives 0/0/0 |
| Preprocess.LoadData | data_load_preprocess.py:5-30 | fill in place, join, rename, drop and derive indicators; the result equals Prepare |
| Vis.WhereMembers | vis.py:22-25 | df[mask] holds exactly the rows of df that pass the mask |
| Vis.CountryText | vis.py:122-125 | `astype(str)` of a country: a present name is itself, and the text is "nan" exactly when the country is missing or is the name "nan" |
| Vis.Holds | vis.py:22-25 | the mask comparisons keep pandas' rules: `isin` of an empty set and an absent season choice match nothing, a missing medal passes `!=`, and a missing country compares equal to "nan" only (the same comparisons recur at vis.py:86, 125, 156 and 194) |
| Vis.Where | vis.py:22-25 | df[mask] only removes rows |
| Vis.WhereAll | vis.py:22-25 | a mask that every row passes keeps the whole table |
| Vis.WhereNone | vis.py:153 | a mask that no row passes keeps nothing |
| Vis.WhereConcat | vis.py:60-61 | selection keeps row order: selecting from two tables put together concatenates the two selections |
| Vis.WhereMultiplicity | vis.py:60-61 | a passing row is kept as often as it occurs, and a failing row never |
| Vis.WhereAnd | vis.py:153-156 | filtering by one mask and then by another is filtering by their conjunction |
| Vis.Selection | vis.py:60-61 | the season/type mask holds exactly when the season and the type were both selected |
| Vis.Selected | vis.py:60-61 | the season/type filter keeps exactly the rows whose season and type were selected |
| Vis.EmptySelection | vis.py:60-61 | an empty season or type selection keeps no row |
| Vis.YearRange | vis.py:24-25 | the year slider's mask includes both ends |
| Vis.YearStep | vis.py:187-194 | the single-year filter runs only when the offered year set is not empty |
| Vis.MapRows | vis.py:22-25 | the map keeps exactly the selected rows with lo <= Year <= hi |
| Vis.MedalMap | vis.py:28 | one entry per country of a kept row, valued by that country's kept rows with a medal; the values sum to the kept rows with both |
| Vis.MedalMapTotal | vis.py:28 | when every medal is present, the map's counts sum to the kept rows that have a country |
| Vis.CountriesPerYear | vis.py:64 | one entry per year of a selected row, valued by its number of distinct present countries, never more than that year's rows |
| Vis.SexRows | vis.py:86-89 | the rows of one sex kept by the season/type filter |
| Vis.ParticipantsPerYear | vis.py:86-93 | each series lists each year once, exactly the years of selected rows of its sex, and counts, per year, the selected rows of its sex that have an ID; for every year males plus females never exceed that year's selected rows |
| Vis.CountSelection | vis.py:86-93 | counting a year's rows after `df[mask]` equals counting, over the whole table, the year's rows that pass the mask and are counted |
| Vis.SexesOfRow | vis.py:86-89 | a row passes at most one of the two sex masks, and only if it passes the shared mask |
| Vis.SexesWithinYear | vis.py:86-93 | for every year and mask, the ID rows of the two sexes together are at most that year's rows |
| Vis.SunburstRows | vis.py:115-125 | the selected rows, narrowed to the chosen country (compared as text) unless "All Countries" is chosen; the year is not a parameter |
| Vis.SunburstChart | vis.py:118-134 | the chosen year only goes into the title, the rows are SunburstRows, there is one leaf for each (Sex, Medal, Sport) path of those rows and no other, and each leaf's positive count is its number of rows |
| Vis.MedalRows | vis.py:153-156 | the scatter plot keeps exactly the selected rows whose medal is not "No Medal" |
| Vis.MedalsOverYears | vis.py:156-159 | no key has medal "No Medal"; every key is the (Year, Medal) of a kept row; the counts sum to the kept rows with a medal |
| Vis.MedalsOverYearsTotal | vis.py:156-159 | when every medal is present, the counts sum to the number of kept rows |
| Vis.EveryEighth | vis.py:168 | `range(lo, hi + 1, 8)`: the i-th tick is lo + 8i, none passes hi, there is one exactly when lo <= hi, and the last is within eight years of hi |
| Vis.FirstYear | vis.py:168 | `min` of a non-empty Year column: no larger than any year, and one of them |
| Vis.LastYear | vis.py:168 | `max` of a non-empty Year column: no smaller than any year, and one of them |
| Vis.TicksAsWritten | vis.py:168 | the tick computation as written fails exactly when the scatter table is empty, and otherwise starts at the earliest year |
| Vis.EmptySelectionBreaksTicks | vis.py:153-168 | with no season selected, the widgets' initial state, the ticks as written fail |
| Vis.Ticks | vis.py:168 | corrected ticks: none exactly for an empty table; otherwise the same ticks as written, so every eighth year from the first tick, each at most some plotted year, and every plotted year within their span |
| Vis.EmptySelectionTicks | vis.py:153-168 | with no season selected, the scatter table and the corrected ticks are both empty |
| Vis.SeasonYears | vis.py:184-185 | the years offered are exactly those of selected rows in the chosen season; with no chosen season there are none |
| Vis.CountryMedalRows | vis.py:181-194 | selected rows, further restricted to the slider's year only when the chosen season offers a year |
| Vis.MedalsByCountry | vis.py:197 | every key is the (Country, Medal) of a kept row, No Medal included; the counts sum to the kept rows with both |
| Vis.SeasonsYears | vis.py:227-230 | the years offered are exactly those of selected rows in one of the chosen seasons |
| Vis.TopRows | vis.py:224-240 | selected rows, of the slider's year only when the chosen seasons offer a year, and never "No Medal" |
| Vis.TopCountries | vis.py:243-246 | counts never increase down the list; the list is a permutation of the per-country counts, lists each country once, and holds exactly the countries of kept rows with their row counts |
| Scenarios.UnrecordedMedal | data_load_preprocess.py:11-25 | a USA row with no medal, joined to "United States", becomes "No Medal", "United States", 0/0/0 |
| Scenarios.TopRowsOfTable | vis.py:224-240 | three USA gold rows and one France silver row of 2000 all pass the top-countries filters |
| Scenarios.TopTallyOfTable | vis.py:243 | that table groups to USA 3 and France 1 |
| Scenarios.SortedTally | vis.py:246 | USA with 3 before France with 1 is already sorted by count |
| Scenarios.TopCountriesOfTable | vis.py:224-246 | the top-countries chart of that table is USA with 3, then France with 1 |
| Scenarios.ScatterRowsOfTable | vis.py:153-156 | of two "No Medal" rows and three gold rows, the scatter plot keeps the three gold rows |
| Scenarios.ScatterTally | vis.py:159 | three gold rows of 2004 group to one (2004, Gold) entry of 3 |
| Scenarios.MedalsOverYearsOfTable | vis.py:153-159 | two "No Medal" rows and three gold rows of 2004 give only the 2004 gold group, with count 3 |

## Left out

- Reading the two CSV files and the `@st.cache_data` memoisation
  (data_load_preprocess.py:4-8) are file I/O and framework caching. The
  input tables are parameters, and preparation is a function of them.
- Streamlit widgets, headers and `st.plotly_chart` calls are user interface.
  Their selections are parameters: season and type sets, the year range, the
  chosen year, the chosen season, the chosen seasons and the chosen country.
  The slider's bounds are not preconditions, because the filters do not
  depend on them.
- Plotly figure construction, colours, layout and geo settings are
  rendering only. Of the scatter plot's settings only the 8-year tick list
  (vis.py:168) is modelled, because it can fail (see Findings).
- The sunburst's inner rings are sums that the plotting library computes
  from the leaves, so only the leaves are modelled.
- app.py is page dispatch with no data logic, and it is not part of this model.
- Columns the aggregations never read (Age, Height, Weight and the other
  reference columns) are left out. `NaN` becomes `Option`. The join key
  `NOC` is always present in the model, so pandas' matching of NaN keys in
  a merge is not modelled.
- The columns `Name`, `Sex`, `Year`, `Season`, `Type`, `Sport` and `Event`
  are always present in the model (plain `string` and `int`). Only `ID`,
  `Medal`, `reg` and `Country` can be missing. So pandas' handling of NaN in
  these columns by `isin`, `==`, `groupby` and `px.sunburst` is not modelled.
- Frame.Aggregate: pandas `groupby` returns the groups sorted by key. The
  model keeps the keys in order of first appearance. No contract depends on
  that order except `Scenarios.TopTallyOfTable`'s, which lists USA before
  France where pandas would list France first.
- The sunburst model drops a row whose medal is missing (`Vis.PathOf`),
  where plotly's `px.sunburst` would reject such a row. No such row reaches
  the charts, because app.py:7 passes the filled table from `load_data` to
  every view.
- Frame.SortByValue: pandas' default sort is not stable, so it gives no order
  among equal counts. The model keeps their input order, and its contract
  promises nothing about ties.
- Preprocess.RenameAndDrop, Preprocess.WithIndicators: the source renames,
  drops and adds columns in place. The model builds a new sequence of rows
  with a different record type, so it does not capture updating the frame in
  place or aliasing of the frame.
- Preprocess.FillMedalInPlace: the model assumes the chained
  `df['Medal'].fillna(..., inplace=True)` updates `df`. That is true for
  pandas before copy-on-write. With copy-on-write the fill is not applied,
  and `x.count` then fails on a NaN medal.
- Vis.ParticipantsPerYear: the two series are not aligned to a common year
  axis, as in the source. A year missing from one series has no entry in it,
  and `Lookup` reads that as 0.
- Errors for a missing file or a missing column abort startup. They are not
  modelled because the model's inputs are typed records.

## Findings

| source | as written | input that shows it | evidently intended | confidence | as-written member | corrected member |
|---|---|---|---|---|---|---|
| vis.py:168 | the tick list takes Python's `min` and `max` of the scatter table's `Year` column, which raise `ValueError` when the table is empty | no season selected (the multiselect's initial state), or no type selected, or only "No Medal" rows selected | an empty selection renders an empty chart with no ticks, rather than failing | high; not executed | Vis.TicksAsWritten | Vis.Ticks |

`Vis.EmptySelectionBreaksTicks` proves that the ticks as written fail for
any table when no season is selected. `Vis.EmptySelectionTicks` proves that
the corrected ticks are empty in the same case.
