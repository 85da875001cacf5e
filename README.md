# Olympic Games analytics: the data-shaping layer in Dafny

This project models the data-shaping layer of a small Olympic Games analytics
dashboard: the preprocessing step that turns the raw athlete-event records and
the NOC-to-region lookup into one canonical table, and the aggregation
functions that derive every view the dashboard shows from that table (medal
tally, selector lists, participation over time, athlete leaderboard, a
country's medals per year and per sport and year, the athlete
weight/height extract and the men/women participation series).

Each operation is a pure Dafny function over a sequence of rows, because the
source is a set of pandas expressions with no state of its own. Each pandas
step becomes a named function: a row mask is `Seqs.Filter` or `Seqs.Select`,
`drop_duplicates(subset=…)` is `Seqs.DedupBy` (first row per key),
`groupby(…).sum()/count()` is one entry per distinct key in ascending key
order, and `sort_values(…, ascending=False)` is `Seqs.SortDesc`. The lemmas
state what each view means in terms of the table it was computed from.

Files (modules):

- `wrappers.dfy`: `Option`, `Result` and the `ValueError` raised by `int()`.
- `seqs.dfy`: filtering, selection by key, first-occurrence de-duplication, column sums, group-count partition lemmas and a descending sort.
- `order.dfy`: strict total orders, sorted de-duplicated key lists, integer order and code-point string order.
- `text.dfy`: lower-casing, substring search and Python's `int()` on text.
- `table.dfy`: the record, lookup entry, joined row and canonical row, plus column access.
- `preprocessing.dfy`: `preprocess` from preprosesing.py.
- `grouping.dfy`: distinct regions and years in ascending order, and selection of one region's or one year's rows.
- `tally.dfy`: `fetch_medal_tally` and `country_year_list`.
- `trends.dfy`: `data_over_time`.
- `leaderboard.dfy`: `most_successful`.
- `countryview.dfy`: `yearwise_medal` and `country_event_heatmap`.
- `athletes.dfy`: `weight_height` and `men_women`.

## Model

| member | source | states |
|---|---|---|
| Preprocessing.SummerRecords | preprosesing.py:10 | only Summer records remain, and each Summer record keeps its multiplicity |
| Preprocessing.JoinRecord | preprosesing.py:13 | a record yields at least one joined row; each one carries the record plus the region and notes of a lookup entry for its NOC, or NaN when no entry matches |
| Preprocessing.SummerInOrder | preprosesing.py:10 | the Summer rows are a subsequence of the file, in file order |
| Preprocessing.LeftJoin | preprosesing.py:13 | the join has at least as many rows as records; every joined row comes from some record and is joined correctly |
| Preprocessing.LeftJoinKeepsRecords | preprosesing.py:13 | the left join never loses a record: every record yields at least one joined row |
| Preprocessing.LeftJoinUniqueNocs | preprosesing.py:13 | when the lookup has one row per NOC, the join keeps row count and order, and row i is record i with its entry's region and notes |
| Preprocessing.MatchesUnique | preprosesing.py:13 | with one lookup row per NOC, a NOC matches either nothing or exactly its first entry |
| Preprocessing.DropDuplicateRows | preprosesing.py:16 | full-row de-duplication leaves exactly the same rows, no two equal, and never more rows |
| Preprocessing.DropDuplicatesInOrder | preprosesing.py:16 | `drop_duplicates()` keeps the first occurrence of each row: the kept rows sit at increasing positions of the joined table, and no earlier position holds the same row |
| Preprocessing.DropDuplicatesOnce | preprosesing.py:16 | after de-duplication every row that was present occurs exactly once |
| Preprocessing.OneHot | preprosesing.py:18-22 | the Gold, Silver and Bronze columns are 1 exactly for the matching medal and 0 otherwise; the other columns are unchanged |
| Preprocessing.OneHotAll | preprosesing.py:19-22 | the indicator columns are added row by row: same number of rows, row i is joined row i with its indicators |
| Preprocessing.OneHotAllRows | preprosesing.py:19-22 | adding the indicator columns is one-to-one: distinct rows stay distinct and each output row comes from one joined row |
| Preprocessing.Preprocess | preprosesing.py:6-24 | the canonical table holds only Summer rows with consistent medal indicators and no duplicate rows; a row is in it exactly when its joined row is in the Summer left join; every row comes from an input record and a correct join |
| Preprocessing.PreprocessInOrder | preprosesing.py:6-24 | the canonical table is the first occurrence of each row of the Summer left join, in join order, each with its indicator columns |
| Seqs.Filter | helper.py:53 | a mask keeps exactly the rows that satisfy it, each as often as in the input |
| Seqs.FilterInOrder | helper.py:53 | a mask keeps the input order: its result is a subsequence of the input |
| Seqs.SelectInOrder | helper.py:11 | selecting the rows with one key keeps the input order |
| Seqs.SelectMultiplicity | helper.py:11 | selecting the rows with one key keeps each such row as often as in the input, and no other row |
| Seqs.DedupBy | helper.py:79-82 | de-duplication on a key keeps one row per key, all keys survive, and each kept row is the first row with its key |
| Seqs.DedupByInOrder | helper.py:79-82 | de-duplication on a key keeps the first-occurrence positions of the keys, in input order |
| Seqs.SortDesc | helper.py:8 | the descending sort is a permutation with scores never increasing |
| Seqs.IndicatorSum | helper.py:8 | summing a 0/1 column counts the rows where it is 1 |
| Seqs.CountsOverPartition | helper.py:85 | group sizes over distinct keys covering every row add up to the number of rows |
| Grouping.SortedRegions | helper.py:30 | the distinct non-null regions, strictly ascending, exactly the regions present |
| Grouping.SortedYears | helper.py:27 | the distinct years, strictly ascending, exactly the years present |
| Grouping.YearCountsTotal | helper.py:85 | per-year counts over all years of the rows add up to the number of rows |
| Tally.RegionGroups | helper.py:8 | `groupby('region').sum()`: one entry per non-null region, ascending, each holding that region's indicator sums |
| Tally.YearGroups | helper.py:12 | `groupby('Year').sum()`: one entry per year, ascending, each holding that year's indicator sums |
| Tally.WithTotal | helper.py:22 | the Total column is added and the other columns are kept |
| Tally.FetchMedalTally | helper.py:5-23 | the tally fails exactly when the year is neither 'Overall' nor integer text; otherwise every row's Total is Gold + Silver + Bronze |
| Tally.SortedRegionTally | helper.py:8 | sorting the region groups by Gold keeps one row per region with its sums, Gold never increasing |
| Tally.TallyOverallCountries | helper.py:6-16 | with country 'Overall', the tally has one row per region of the selected year's rows (all rows for 'Overall'), Gold never increasing |
| Tally.TallyOverallYears | helper.py:10-12 | with year 'Overall', the tally has one row per year of the country's rows, ascending, each with that year's sums |
| Tally.TallyYearAndCountry | helper.py:18-20 | with both fixed, the tally has one row (the country, its sums for that year) when the country has rows that year, and none otherwise |
| Tally.SingleRegion | helper.py:19-20 | rows already restricted to one region group into exactly that region |
| Tally.IndicatorSumsCountMedals | helper.py:8 | on the canonical table the Gold, Silver and Bronze sums are the numbers of rows with that medal |
| Tally.YearSelectors | helper.py:27-28 | 'Overall' comes first, then the years in the given order; a year is offered exactly when it is in the list |
| Tally.CountryYearList | helper.py:26-33 | both lists start with 'Overall', followed by the distinct regions or years in strictly ascending order, exactly those present |
| Tally.SelectorsNeverFail | helper.py:14-19 | every year the selector list offers gives a tally, never the `int()` error |
| Text.ParseInt | helper.py:15 | `int()` on text succeeds only on text made of whitespace, a sign and digits |
| Text.ParseIntToString | helper.py:15 | `int()` reads back the decimal text of any integer |
| Text.LowerEqualIffIgnoringCase | helper.py:56 | two texts are equal after lower-casing exactly when they differ only in the case of ASCII letters |
| Text.Contains | helper.py:60 | the substring test holds exactly when the needle occurs at some position |
| Trends.DataOverTime | helper.py:36-44 | one row per edition, editions strictly ascending and covering every year; each count is the number of distinct values of the column in that year; the counts add up to the number of distinct (Year, value) pairs |
| Trends.EditionCountsFacts | helper.py:38-43 | the editions are exactly the years of the table, each counted by its distinct values |
| Trends.DistinctValuesCount | helper.py:38-39 | after de-duplicating on (Year, column), a year has one row per distinct value of the column |
| Trends.YearCellsAreValues | helper.py:38 | the values kept for a year are exactly the values that year has |
| Trends.EditionTotal | helper.py:38-39 | the edition counts add up to the number of distinct (Year, value) pairs |
| Leaderboard.MatchingMedalRows | helper.py:53-60 | medal rows only; for 'sport' (unless 'Overall') exactly the rows whose sport matches ignoring case; for 'country' exactly the rows whose region contains the text ignoring case, NaN never matching; otherwise every medal row |
| Leaderboard.MatchingMedalRowsExactly | helper.py:53-60 | the matching rows are the wanted rows of the table (the sport test being equality up to ASCII case), each as often as in the table and in table order |
| Leaderboard.NameCounts | helper.py:67 | `value_counts()`: one entry per distinct name, names distinct, each with its number of rows |
| Leaderboard.Head | helper.py:67 | `head(n)` is the prefix of length min(n, size) |
| Leaderboard.MergeInfo | helper.py:71-72 | the left merge keeps every leaderboard row in order, adding sport and region |
| Leaderboard.MostSuccessful | helper.py:46-74 | at most 10 rows, and empty exactly when no medal row matches the filter |
| Leaderboard.HeadOfRanked | helper.py:67 | the ten best counts are min(10, n) entries taken from the counts, names distinct, counts never increasing |
| Leaderboard.HeadOfRankedIsTop | helper.py:67 | an entry left out of the ten best has no higher count than the tenth |
| Leaderboard.TopTen | helper.py:67 | the top ten has min(10, distinct names) entries, distinct names, counts never increasing, each the name's number of medal rows |
| Leaderboard.TopTenIsTop | helper.py:67 | a name missing from the top ten has no more medals than the tenth entry |
| Leaderboard.LeaderboardRanking | helper.py:46-74 | the leaderboard has min(10, distinct athletes) rows with distinct names, medals never increasing, each athlete's medals the number of their matching medal rows |
| Leaderboard.LeaderboardIsTop | helper.py:46-74 | no athlete left off the leaderboard has more matching medals than its last row |
| Leaderboard.LeaderboardInfo | helper.py:71-72 | each leaderboard row shows the sport and region of that athlete's first row in the unfiltered table |
| CountryView.MedalRows | helper.py:78 | `dropna(subset=['Medal'])`: exactly the rows with a medal |
| CountryView.MedalRowsExactly | helper.py:78 | the medal rows keep each row with a medal as often as in the table, in table order |
| CountryView.CountryMedals | helper.py:78-84 | the region's medal rows, no two sharing (Team, NOC, Games, Year, City, Sport, Event, Medal) |
| CountryView.CountryMedalsKeepFirst | helper.py:79-84 | a team medal counts for the region exactly when the first medal row with that key belongs to the region |
| CountryView.YearwiseMedal | helper.py:77-86 | one entry per year, ascending, exactly the years the region won medals, each count positive and equal to that year's medals; the counts add up to all the region's medals; empty exactly when there are none |
| CountryView.SortedSports | helper.py:98-99 | the pivot's rows are the distinct sports, strictly ascending |
| CountryView.Grid | helper.py:98-103 | one cell per sport and year, holding the number of medals in that sport that year |
| CountryView.CountryEventHeatmap | helper.py:89-105 | rows are the region's sports ascending, columns its years ascending, each cell its medal count in that sport and year |
| CountryView.EmptyCell | helper.py:103 | a cell is 0 exactly when no row has its sport and year |
| CountryView.HeatmapZeroCells | helper.py:103 | a heatmap cell is 0 exactly when the region won no medal in that sport that year |
| CountryView.HeatmapAgreesWithYearwise | helper.py:85-103 | the heatmap's cells add up to the year-wise series' total |
| Athletes.AthleteRows | helper.py:109 | one row per (Name, region) athlete, the athlete's first row |
| Athletes.FillMedal | helper.py:110 | after `fillna('No Medal')` the Medal is never NaN; a present medal is unchanged |
| Athletes.FillMedals | helper.py:110 | the Medal column is filled row by row: same number of rows, row i is row i filled |
| Athletes.FillMedalsKeepsAthletes | helper.py:110 | filling the Medal column keeps the athletes distinct |
| Athletes.WeightHeight | helper.py:108-115 | every row has a Medal, no athlete appears twice, and for a sport other than 'Overall' every row is in that sport |
| Athletes.WeightHeightAthletes | helper.py:109-115 | an athlete appears exactly when the sport is 'Overall' or their first row is in that sport |
| Athletes.WeightHeightRows | helper.py:109-115 | every row is some athlete's first row with the Medal filled |
| Athletes.SexCounts | helper.py:121-124 | the outer merge has one entry per year either side has, ascending, each holding both sides' counts for that year |
| Athletes.SexCountsYears | helper.py:124 | the merge has exactly the years of either side and no all-zero entry |
| Athletes.SexColumnsTotal | helper.py:121-124 | the Male and Female columns add up to the sizes of their sides |
| Athletes.MenWomen | helper.py:118-127 | one entry per year that has a male or a female athlete, years strictly ascending, each holding the number of male and of female athletes whose first row is in that year |
| Athletes.MenWomenColumns | helper.py:118-127 | the Male column totals the male athletes, the Female column the female athletes, and every year has at least one of them |
| Athletes.MenWomenCountsAthletesOnce | helper.py:118-127 | all counts together never exceed the number of distinct (Name, region) athletes |

## Left out

- Reading athlete_events.csv and noc_regions.csv, and the load failure when they cannot be read: the model takes both tables as parameters.
- The presentation layer (app.py, charts, widgets): it only displays these results.
- Ages, heights and weights are carried through as opaque optional reals; no arithmetic is done on them.
- pandas dtypes are not modelled: `fillna(0)` leaving float counts, `astype(int)`, `numeric_only=True` and the column order of results. Counts are natural numbers throughout.
- `pd.get_dummies` creates a column only for medal values that occur. The model always has the Gold, Silver and Bronze columns, which matches the dataset, where all three occur.
- Seqs.SortDesc: the order among rows with equal scores is not stated. pandas' default quicksort is not stable, so the model picks a stable insertion sort, and the contracts state only the descending order and the permutation.
- Leaderboard.MostSuccessful: ties at the tenth place are not pinned to pandas' `value_counts` order.
- Leaderboard.MatchingMedalRows: `str.contains(case=False)` is a regular-expression search. The model treats the text as a literal substring and lower-cases ASCII letters only.
- Text.ParseInt: Python's `int()` also accepts Unicode digits and whitespace and underscores between digits. The model accepts ASCII whitespace, one sign and ASCII digits.
- Athletes.FillMedal: `athlete_df['Medal'].fillna('No Medal', inplace=True)` at helper.py:110 is a chained in-place call, which under pandas copy-on-write may leave `athlete_df` unfilled. The model assumes the fill takes effect.
- Text.Lower: lower-cases ASCII letters only, with no Unicode case folding.
- A NaN athlete name is not modelled: Name is a plain string, so `value_counts` never drops a row and `groupby(...).count()['Name']` counts every row.
- CountryView.CountryEventHeatmap: pandas' behaviour on a pivot of zero rows (a region with no medals) is not modelled. The model returns an empty grid.
- The medal tally with a year selector that is an integer rather than text is modelled by `YearNum`. `int()` of an integer is the integer itself.
