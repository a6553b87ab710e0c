# Barcelona open-data dashboard: the data-preparation core

This project models, in Dafny, the table-building code behind a dashboard of
Barcelona open data. It covers the stage that turns the city's CSV files into
the tables the maps and charts draw. The modelled parts are listed below.

- `convert_wkt_to_geometry` parses a table's well-known-text column into
  shapes. It writes the new `geometry` column into the caller's frame and
  returns a geo-table without the text column (module `Geometry`).
- `load_air_data` works on the NO2, PM2.5 and PM10 street-segment files:
  - it converts each file's shapes;
  - it inner-merges the three band columns on the segment id `TRAM`;
  - it fixes each band column's category order with `reorder_categories`;
  - it reprojects the shapes (module `AirQuality`).
- `load_transport_age_data` and `load_transport_type_data` do the following
  (module `Transport`):
  - they sum vehicles per district, in total and for one selection: vehicles
    over 20 years old, or electric and hybrid vehicles;
  - they left-merge the two sums and compute the percentage, formatted with
    `"{:,.2f}"`;
  - the age table alone drops the "No consta" district and reads the
    percentage back as a float;
  - both left-merge the result onto the district geometries.
- `load_kmeans_data` copies the two transport tables and keeps the district
  and percentage columns. It left-merges the two on the district name, labels
  each row with one of three k-means clusters, and left-merges the result
  onto the district geometries.
- The two city-wide percentages are ratios of column sums, computed when the
  module is loaded.
- `trees_df` (module `Trees`) works in these steps:
  - it counts the trees of the street-tree file, read twice, and of the
    zone-tree file per (`codi_districte`, `nom_districte`) pair;
  - it sorts the counts in descending order and appends a TOTAL row;
  - it inner-joins the result with the hard-coded table of district areas and
    computes trees per km².

## How the model is built

- **Tables.** Each table is a sequence of a datatype whose fields are the
  columns the code reads.
- **Geometry** is a type parameter `G`, and shapely's WKT parser is the
  function `parse: string -> Result<G, string>`, which returns a shape or the
  error it raises. The CRS change `set_crs(25831).to_crs(4326)` is a function
  `toWgs84: G -> G`.
- **Generic relational operations** live in the `Tables` module, with proofs
  of their row-level meaning:
  - `df[mask]`;
  - `groupby().sum()`;
  - left merge and inner merge on a key;
  - distinct keys.
- **Floats.** `Numbers` models the float64 values that arise from ratios of
  counts, with NaN and infinity. It models Python's `"{:,.2f}"` with
  thousands separators, and a number parser for `astype(float)`.
- **Where the code works step by step**, the model is imperative:
  - `convert_wkt_to_geometry` assigns a column of the caller's DataFrame in
    place. It is a class `Geometry.WktFrame` with a method that `modifies`
    the frame.
  - `load_air_data` builds its list by comprehension and folds the merges in
    a `for` loop. These are methods with loops, proved against the functions
    `ConvertAll`, `MergeAll` and `AirQuality`.
- **Everything else** is modelled as functions, with lemmas stating what
  they compute. Several of these steps assign a column or a row into a local
  frame in place; each such frame is a value here (see "## Left out").

Quirks of the code that are kept as written:

- **Old-vehicle percentage:**
  - A district with vehicles but none over 20 years old gets a null old-vehicle
    count and a NaN percentage, not 0.
  - The age class is compared with the literal `"MÃ©s de 20 anys"`, exactly
    as written. This is "Més de 20 anys" whose UTF-8 bytes were decoded as
    Latin-1, so it matches only records spelled the same way.
- **Green-vehicle table:**
  - Its percentage stays a formatted string.
  - Its "No consta" district is not removed.
- **Tree counts:**
  - The street-tree file is counted twice.
  - TOTAL counts every concatenated record, so it is twice the street trees
    plus the zone trees. Records with an empty key are included in TOTAL,
    although `value_counts` drops them from the district rows.

## Model

| member | source | states |
|---|---|---|
| Geometry.WktToGeometry | data/load_and_process_data.py:12-17 | Succeeds iff every row's text parses. Then it gives one geometry row per input row, in order, with the row's other columns and its parsed shape. On failure the error is that of the first malformed row. |
| Geometry.ConvertWktToGeometry | data/load_and_process_data.py:12-17 | Its result is the conversion above. On success the caller's frame gains a `geometry` column with one shape per row, and its rows (the text column included) are unchanged. On failure the frame is untouched. |
| Geometry.WktFrame.constructor | data/load_and_process_data.py:12 | A frame holds the given rows and no geometry column yet. |
| AirQuality.AsCategory | data/load_and_process_data.py:29 | `astype("category")`: unordered, without repeats, and holding exactly the bands that occur in the file. |
| AirQuality.ReorderCategories | data/load_and_process_data.py:47-76 | On success the categories are exactly the new list, in its order, and marked ordered. |
| AirQuality.ReorderIffSameBands | data/load_and_process_data.py:47-76 | For lists without repeats, the reorder succeeds iff the new list holds the same set of bands as the old categories. Otherwise it raises. |
| AirQuality.BandListsDistinct | data/load_and_process_data.py:49-73 | The three hard-coded band lists have no repeats. |
| AirQuality.Base | data/load_and_process_data.py:43 | `gdfs[0][["TRAM", "geometry"]]`: one row per NO2 row, with its segment and shape and no band yet. Its properties are stated by `MergeAllRows` and `MergeAllKey`. |
| AirQuality.MergeTram | data/load_and_process_data.py:45 | Defines one inner merge on `TRAM` adding the merged table's band; `MergeTramRows`, `MergeTramKeys` and `MergeTramUnique` state what it keeps. |
| AirQuality.MergeAll | data/load_and_process_data.py:44-45 | Defines the loop's fold of those merges; `MergeAllRows`, `MergeAllKey` and `MergeAllUnique` state its rows, keys and uniqueness, and `MergeFiles` ties the loop to it. |
| AirQuality.Reproject | data/load_and_process_data.py:78 | Defines the CRS change applied to every shape, other columns untouched; `AirQualityRows` and `MergedKey` state its effect on the result. |
| AirQuality.AirQuality | data/load_and_process_data.py:23-78 | Defines what `load_air_data` returns; `AirQualitySucceeds`, `AirQualityRows`, `AirQualityTrams` and `AirQualityUnique` state its properties, and `LoadAirData` ties the method to it. |
| AirQuality.ConvertAll | data/load_and_process_data.py:42 | Converting the list of files succeeds iff each file converts. Then it gives one table per file, in order. |
| AirQuality.ConvertAllFailsEarly | data/load_and_process_data.py:42 | If a file in a prefix fails, converting the whole list fails too. |
| AirQuality.ConvertFiles | data/load_and_process_data.py:42 | The comprehension, through `convert_wkt_to_geometry` on a fresh frame per file, equals `ConvertAll`. |
| AirQuality.MergeFiles | data/load_and_process_data.py:43-45 | The merge loop equals the fold `MergeAll` of the inner merges on `TRAM`, starting from the NO2 segments and shapes. |
| AirQuality.LoadAirData | data/load_and_process_data.py:23-78 | `load_air_data` equals `AirQuality`: convert, merge, reorder the three columns (the first failing reorder's error is raised), reproject. |
| AirQuality.MergeTramRows | data/load_and_process_data.py:45 | A row of one inner merge comes from a running row and a row of the table with the same `TRAM`, and adds that row's band. |
| AirQuality.MergeTramKeys | data/load_and_process_data.py:45 | A merge keeps a segment iff both sides have it. |
| AirQuality.MergeTramKeyFrom | data/load_and_process_data.py:45 | A segment in the merge is in both the running table and the merged file. |
| AirQuality.MergeTramKeyTo | data/load_and_process_data.py:45 | A segment in both the running table and the merged file is in the merge. |
| AirQuality.MergeTramUnique | data/load_and_process_data.py:45 | When both sides have unique segments, so does the merge. |
| AirQuality.MergeAllRows | data/load_and_process_data.py:44-45 | Each folded row carries one band per table, in table order, each band from a row of that table with the same segment; its shape is a base row's. |
| AirQuality.MergeAllKey | data/load_and_process_data.py:44-45 | The fold keeps a segment iff the base and every table have it. |
| AirQuality.MergeAllUnique | data/load_and_process_data.py:44-45 | Unique segments in the base and in every table give unique segments after the fold. |
| AirQuality.AirQualitySucceeds | data/load_and_process_data.py:42-76 | `load_air_data` succeeds iff all shapes parse and each file's set of bands equals its hard-coded list. Its three band columns are then ordered categoricals in the hard-coded order. |
| AirQuality.AirQualityRows | data/load_and_process_data.py:43-78 | Every result row has three bands, each read from a row of the right file with the same `TRAM` and lying in that pollutant's list. Its shape is the reprojected NO2 shape of that segment. |
| AirQuality.MergedRows | data/load_and_process_data.py:43-45 | Every row of the three-table merge has one band per table, each read from a row of that table for its segment. Its shape is the reprojected shape of a row of the first table with the same segment. |
| AirQuality.MergedUnique | data/load_and_process_data.py:43-45 | Three tables without repeated segments merge into a table without repeated segments. |
| AirQuality.AirQualityParts | data/load_and_process_data.py:42-78 | A successful result is the reprojected fold over the three converted files. |
| AirQuality.MergedKey | data/load_and_process_data.py:43-45 | After the three merges and the reprojection, a segment is present iff all three tables have it. |
| AirQuality.AirQualityTrams | data/load_and_process_data.py:43-45 | The result holds exactly the segments present in all three files. |
| AirQuality.AirQualityUnique | data/load_and_process_data.py:43-45 | Files without repeated segments give a result without repeated segments. |
| Numbers.Percent | data/load_and_process_data.py:112 | `(part / total) * 100` in float64: finite iff the part is present and the total positive, and then its value times the total is 100 × the part. It is infinite iff the total is 0 and the part positive. A part no larger than a positive total gives a value in [0, 100]. |
| Numbers.RoundCents | data/load_and_process_data.py:113 | The whole number of hundredths nearest the value, halves up. |
| Numbers.Rounded | data/load_and_process_data.py:113 | Rounding to two decimals keeps NaN, infinity and finiteness; a finite result is within half a hundredth of the value and a whole number of hundredths. |
| Numbers.DigitsRoundTrip | data/load_and_process_data.py:113 | Reading back the decimal digits of a number gives the number. |
| Numbers.PaddedRoundTrip | data/load_and_process_data.py:113 | The same for the zero-padded two-digit fraction. |
| Numbers.Grouped | data/load_and_process_data.py:113 | The `,` option writes digits and commas only. Below 1000 that is just the digits; from 1000 on a comma is present. |
| Numbers.FormatFixed2 | data/load_and_process_data.py:113 | Defines `"{:,.2f}".format`: "nan", "inf" or the rounded value with grouped thousands; `Rounded`, `Grouped`, `CentsText` and `LargeCentsText` state its properties. |
| Numbers.ParseFloat | data/load_and_process_data.py:115 | Defines `astype(float)` on such texts; `ParseDecimal` and `ParseFormatted` state what it reads and where it raises. |
| Numbers.ParseDecimal | data/load_and_process_data.py:115 | `astype(float)` reads `whole.frac` as its decimal value when `whole` is all digits. It raises when `whole` holds a thousands comma. |
| Numbers.CentsText | data/load_and_process_data.py:113-115 | A whole number of cents below 1,000.00, written as `"{:,.2f}"` writes it, reads back as exactly that many hundredths. |
| Numbers.LargeCentsText | data/load_and_process_data.py:113-115 | From 1,000.00 on, the written text holds a thousands comma, and reading it back raises. |
| Numbers.ParseFormatted | data/load_and_process_data.py:113-115 | Formatting with `"{:,.2f}"` and reading back gives the value rounded to two decimals. The one exception is a finite value of 1000 or more, whose text has a comma: reading it raises. |
| Tables.Filter | data/load_and_process_data.py:102 | `df[mask]` keeps only rows that satisfy the mask, and every row that does is kept. Multiplicity and order are `FilterCount` and `FilterAppend`. |
| Tables.FilterCount | data/load_and_process_data.py:102 | Each row occurs in `df[mask]` as often as in the table when it satisfies the mask, and not at all otherwise. |
| Tables.FilterAppend | data/load_and_process_data.py:102 | Masking a concatenation masks each part and keeps them in order, so `df[mask]` keeps the table's row order. |
| Tables.FilterSumOfExact | data/load_and_process_data.py:101-106 | A group's sum over the masked rows is exactly its sum over all rows with unselected rows counted as 0. |
| Tables.SumOf | data/load_and_process_data.py:96-98 | Defines a group's sum; `GroupSum`, `FilterSumOf` and `FilterSumOfExact` state how it relates to the grouped table. |
| Tables.FilterSumOf | data/load_and_process_data.py:101-106 | A group's sum over the selected rows is at most its sum over all rows. |
| Tables.KeysOf | data/load_and_process_data.py:97 | The distinct keys, each once: exactly the keys that occur. |
| Tables.GroupSum | data/load_and_process_data.py:96-98 | `groupby(key).sum().reset_index()`: one row per key that occurs, no key twice, each with its group's sum. |
| Tables.Matches | data/load_and_process_data.py:120 | The rows with a given key, and no others. |
| Tables.MatchesIsFilter | data/load_and_process_data.py:120 | The rows matching a key are exactly `df[df.key == k]`, with the multiplicity and order `FilterCount` and `FilterAppend` state. |
| Tables.Find | data/load_and_process_data.py:120 | Finds a row with the key iff one exists. |
| Tables.FindUnique | data/load_and_process_data.py:120 | Under unique keys, the row found for a row's key is that row. |
| Tables.MatchesUnique | data/load_and_process_data.py:120 | Under unique keys, a key matches at most the one row found for it. |
| Tables.LeftJoinUnique | data/load_and_process_data.py:109-111 | A left merge onto unique right keys gives one row per left row, in order, paired with its match or null. |
| Tables.LeftJoinIgnoresOrder | data/load_and_process_data.py:120 | The result of such a merge does not depend on the order of the right table's rows, so the order groupby leaves its groups in is not visible. |
| Tables.LeftJoin | data/load_and_process_data.py:109-111 | A left merge: at least one row per left row, each pairing a left row with a right row of the same key or with null. `LeftJoinUnique` states the exact result under unique right keys. |
| Tables.InnerJoinUnique | data/load_and_process_data.py:45 | An inner merge onto unique right keys keeps exactly the matching left rows, in order, each paired with its key's right row. |
| Tables.InnerJoin | data/load_and_process_data.py:45 | An inner merge: every row pairs a left and a right row of the same key, and every such pair of rows appears. |
| Tables.FilterUnique | data/load_and_process_data.py:114 | Dropping rows keeps keys unique. |
| Tables.FilterHasKey | data/load_and_process_data.py:114 | A key survives a mask iff some row with that key satisfies it. |
| Tables.SemijoinUnique | view/nature.py:33 | Keeping only matching rows keeps keys unique. |
| Tables.SemijoinKeeps | view/nature.py:33 | Every row whose key has a match is kept. |
| Tables.SemijoinAppend | view/nature.py:33 | Keeping matching rows distributes over concatenation. |
| Tables.SemijoinKeepsOrder | view/nature.py:33 | Any order relation between the rows survives dropping rows. |
| Tables.Semijoin | view/nature.py:33 | Only left rows whose key has a match are kept; `SemijoinKeeps` states every such row is. |
| Transport.SharesFacts | data/load_and_process_data.py:96-111 | The two sums, left-merged: one row per district with records, no district twice, each with the district's total and its selected sum. The selected sum is null when the district has no selected record. |
| Transport.Shares | data/load_and_process_data.py:96-111 | Defines the two sums left-merged; `SharesFacts`, `PartSumExact` and `PartAtMostTotal` state its rows. |
| Transport.Drafts | data/load_and_process_data.py:112-113 | Defines the percentage column, formatted; `DraftsFacts` and `PercentOfShare` state its rows. |
| Transport.PartAtMostTotal | data/load_and_process_data.py:101-106 | A district's selected sum never exceeds its total. |
| Transport.PartSumExact | data/load_and_process_data.py:101-111 | A district's selected sum is present iff the district has a selected record, and then equals the sum of its selected records' counts. |
| Transport.PercentOfShare | data/load_and_process_data.py:112-115 | The formatted percentage reads back as the rounded ratio. It is NaN iff there is no selected vehicle or the total is 0. Otherwise it lies in [0, 100], within half a hundredth of 100·part/total. |
| Transport.ReadPercentages | data/load_and_process_data.py:115 | Reading back succeeds iff every text is a number. Then each row keeps its fields and holds the number read; on failure the error is that of an unreadable text. |
| Transport.DraftsFacts | data/load_and_process_data.py:96-113 | One formatted row per district with vehicle records, no district twice, each holding its sums and their formatted percentage. |
| Transport.KnownDraftsFacts | data/load_and_process_data.py:114 | After "No consta" is dropped, a district is present iff it is not "No consta" and has records. Each row's text reads back as the rounded ratio. |
| Transport.ReadKnownDrafts | data/load_and_process_data.py:115 | The kept rows always read back, keep their districts, and hold their district's sums and rounded percentage. |
| Transport.AgeSummaryFacts | data/load_and_process_data.py:96-115 | The age summary never raises. It has one row per district other than "No consta" with records, no district twice, each with its total, old-vehicle sum and rounded percentage. |
| Transport.AgeRowBounds | data/load_and_process_data.py:101-115 | A summary row's old count is null iff the district has no old record, and is at most the total. The percentage is NaN iff the count is null or the total is 0. Otherwise it lies in [0, 100], within half a hundredth of the exact ratio. |
| Transport.AgeSummary | data/load_and_process_data.py:96-115 | Defines `merged` at line 115; `AgeSummaryFacts` and `AgeRowBounds` state what it holds. |
| Transport.TypeSummaryFacts | data/load_and_process_data.py:133-153 | The green summary has one row per district with records, "No consta" included, no district twice, each with its sums and formatted percentage. |
| Transport.TypeRowBounds | data/load_and_process_data.py:138-153 | The green count is null iff the district has no electric or hybrid record, and is at most the total. The text reads back as the rounded ratio. It is "nan" when the count is null or the total 0, and otherwise lies in [0, 100]. |
| Transport.TypeSummary | data/load_and_process_data.py:133-153 | Defines `merged` at line 153; `TypeSummaryFacts` and `TypeRowBounds` state what it holds. |
| Transport.GeoMergeRows | data/load_and_process_data.py:117-120 | Left-merging a summary with unique districts onto the geometries gives one row per geometry row, in order, with that district's summary row or null. |
| Transport.LoadTransportAgeRows | data/load_and_process_data.py:88-122 | Fails iff a district shape is malformed. Otherwise it gives one row per district-geometry row, in order. The row has the summary of its district iff the district is not "No consta" and has vehicle records; that summary is its district's row. |
| Transport.LoadTransportAgeData | data/load_and_process_data.py:88-122 | Defines what `load_transport_age_data` returns; `LoadTransportAgeRows` states its rows. |
| Transport.LoadTransportTypeRows | data/load_and_process_data.py:125-160 | Fails iff a district shape is malformed. Otherwise it gives one row per district-geometry row, in order. The row has the green summary of its district iff the district has vehicle records. |
| Transport.LoadTransportTypeData | data/load_and_process_data.py:125-160 | Defines what `load_transport_type_data` returns; `LoadTransportTypeRows` states its rows. |
| Transport.GreenFeaturesFacts | data/load_and_process_data.py:170-173 | The green column table keeps the district names and their uniqueness. |
| Transport.FeaturesRows | data/load_and_process_data.py:166-178 | The fit sees one row per row of the age table, in order. Each row holds that district's age percentage and the type table's green percentage for the same name, or null. |
| Transport.Fused | data/load_and_process_data.py:175 | Defines the merge of the age and green columns; `FeaturesRows` states its rows. |
| Transport.Clustered | data/load_and_process_data.py:181 | Defines the `Cluster` column: each row gets the label at its position; `LoadKMeansRows` states the labels the result carries. |
| Transport.LoadKMeansRows | data/load_and_process_data.py:163-192 | Fails iff the fit fails, returns a label count other than the row count, or a shape is malformed. Otherwise it gives one row per district-geometry row, in order. The row carries the clustered row of the same district iff the age table has that district, with its age percentage, the type table's green percentage for that name (null when it has none) and the label at its position. |
| Transport.LoadKMeansData | data/load_and_process_data.py:163-192 | Defines what `load_kmeans_data` returns; `LoadKMeansRows` states its rows. |
| Transport.LoadersUniqueNames | data/load_and_process_data.py:195-199 | A district file naming each district once makes both merged tables do so. This meets the uniqueness `LoadKMeansRows` assumes. |
| Transport.AgeLoaderUniqueNames | data/load_and_process_data.py:117-120 | A district file naming each district once gives an age table naming each district once. |
| Transport.TypeLoaderUniqueNames | data/load_and_process_data.py:155-158 | The same for the type table. |
| Transport.SumPresent | data/load_and_process_data.py:201-210 | Defines `Series.sum()`, nulls skipped; `SumPresentBelow` states its order property. |
| Transport.SumPresentBelow | data/load_and_process_data.py:201-210 | If each part is at most its row's total, the column sums keep that order. |
| Transport.CityPercentageBounds | data/load_and_process_data.py:201-210 | A ratio of such sums is NaN iff the totals sum to 0, and otherwise lies in [0, 100]. |
| Transport.CityOldPercentage | data/load_and_process_data.py:201-205 | Defines `pourcentage_vehicules_20_ans`; `CityOldPercentageBounds` states its range. |
| Transport.CityGreenPercentage | data/load_and_process_data.py:206-210 | Defines `pourcentage_vehicules_verts`; `CityGreenPercentageBounds` states its range. |
| Transport.CityOldPercentageBounds | data/load_and_process_data.py:201-205 | The city-wide share of old vehicles is NaN iff the totals sum to 0, and otherwise lies in [0, 100]. |
| Transport.CityGreenPercentageBounds | data/load_and_process_data.py:206-210 | The city-wide share of green vehicles is NaN iff the totals sum to 0, and otherwise lies in [0, 100]. |
| Trees.DistrictAreasFacts | view/nature.py:26-30 | The area table names each district once and every area is positive. Its last row is TOTAL with 101.36 km², the sum of the ten district areas. |
| Trees.PairsOf | view/nature.py:18-21 | Defines the pairs `value_counts` counts: the records with both keys, in order; `PairsOfAppend` and `PairsOfComplete` state its properties. |
| Trees.PairsOfAppend | view/nature.py:18-21 | The counted pairs of concatenated files are those of each file, in order. |
| Trees.CountPairAppend | view/nature.py:18-21 | A pair's count over concatenated files is the sum of its counts over each. |
| Trees.OccurrencesPositive | view/nature.py:21 | A pair occurs iff it is present. |
| Trees.PairsOfComplete | view/nature.py:21 | When every record has both keys, no record is dropped from the count. |
| Trees.Remove | view/nature.py:21 | Removing a pair takes away exactly its occurrences and leaves the other pairs' counts unchanged. |
| Trees.Dedup | view/nature.py:21 | The distinct pairs, each once: exactly the pairs that occur. |
| Trees.SumOverDedup | view/nature.py:21 | The counts of the distinct pairs add up to the number of counted records. |
| Trees.CountedOverRows | view/nature.py:21 | One count row per distinct pair, holding that pair's number of occurrences. |
| Trees.Insert | view/nature.py:21 | Inserting into a descending list keeps it descending and adds exactly one row. |
| Trees.SortDesc | view/nature.py:21 | Sorting gives a descending permutation of the rows. |
| Trees.MultisetDistinct | view/nature.py:21 | A permutation of rows with distinct pairs has distinct pairs. |
| Trees.ValueCountsFacts | view/nature.py:21 | `value_counts(sort=1)`: rows in descending order of count, each pair once, each with its number of records. Every pair with a record has a row, and the counts add up to the number of records with both keys. |
| Trees.ValueCounts | view/nature.py:21 | Defines `value_counts(sort=1)`; `ValueCountsFacts` states its rows. |
| Trees.AreaJoinRows | view/nature.py:23-33 | Inner-joining the counts plus TOTAL with the area table gives, in order, the count rows whose district has an area, each with its own district's area, then TOTAL with its area. |
| Trees.Kept | view/nature.py:33 | Defines the count rows the area join keeps; `KeptOrder`, `KeptCounts` and `KeptLists` state its properties. |
| Trees.KeptOrder | view/nature.py:33 | The join keeps the descending order and the distinct pairs. |
| Trees.KeptCounts | view/nature.py:33 | Each kept row still holds its pair's count. |
| Trees.KeptLists | view/nature.py:33 | A counted pair whose district has an area keeps its row. |
| Trees.KeptFacts | view/nature.py:21-33 | The kept count rows are sorted, distinct and correct, and include every counted pair whose district has an area. |
| Trees.CountAll | view/nature.py:14-18 | Reading the street-tree file twice counts each of its trees twice. |
| Trees.Joined | view/nature.py:18-33 | Defines the lines up to the area join; `AreaJoinRows`, `JoinedAreas` and the `TreesDf` lemmas state its rows. |
| Trees.JoinedAreas | view/nature.py:33 | Every joined row carries its own district's area, and it is positive. |
| Trees.WithDensity | view/nature.py:34 | The density column: trees per km², count divided by a positive area; `TreesDf` states it for every row. |
| Trees.TreesDf | view/nature.py:12-36 | Every row's district and area come from the area table; the area is positive and the density is count / area. |
| Trees.TreesDfRows | view/nature.py:21-34 | The table lists the kept count rows in order, then TOTAL. |
| Trees.TreesDfTotal | view/nature.py:23-34 | The table ends with TOTAL: code '0', a count of twice the street trees plus the zone trees, area 101.36, and that density. |
| Trees.TreesDfCounts | view/nature.py:14-22 | Each district row counts its pair twice over the street trees and once over the zone trees, and that count is positive. |
| Trees.TreesDfOrder | view/nature.py:21 | The district rows come in descending order of count, one per pair. |
| Trees.TreesDfCovers | view/nature.py:21-33 | Every pair that has a tree in either file, and whose district the area table names, has a row. |
| Trees.TotalIsSumOfCounts | view/nature.py:21-23 | When every record has both keys, TOTAL's count equals the sum of the district counts before the join. |

## Left out

- **Reading inputs.**
  - Reading the CSV files is not modelled: each loader takes the files' rows as
    arguments.
  - File paths, column renames and the `DATA_PATH` constant are not modelled.
  - Only the columns the code uses are kept; other columns ride along as the
    `columns` field or are dropped.
- **Shapes.**
  - Shapely's WKT parser and the CRS transformation are parameters, because
    they are foreign code.
  - Parsing is assumed to be a function of the text.
- **Output.** `to_json`, `json.loads` and the GeoJSON strings are not
  modelled. Neither are the module-level globals beyond the two city-wide
  percentages.
- **Views.** `trees_map` and the other view and page functions are not part
  of this model.
- **k-means.**
  - The fit is a parameter returning labels or an error, because scikit-learn
    is foreign code; the model does not know its clustering.
  - The copies at lines 166-167 hold by construction: the model works on
    values, so the caller's tables cannot change.
- Transport.LoadKMeansRows: assumes district names unique in both tables.
  `Transport.LoadersUniqueNames` discharges that from a district file with
  unique names.
- **Floats.**
  - They are modelled as non-negative reals with NaN and infinity, because
    every value here is a ratio of counts.
  - Binary rounding error is not modelled.
  - `"{:.2f}"` rounds half up on the exact real. Python rounds the binary
    value half-to-even, which can differ on values whose binary expansion
    lies just next to a half hundredth.
- **Reading numbers back.** The parser for `astype(float)` accepts only what
  `"{:,.2f}"` can produce: plain decimals, "nan" and "inf". Signs, exponents
  and whitespace are not modelled.
- **Row order from pandas.**
  - groupby's sorted key order is not modelled. `Tables.LeftJoinIgnoresOrder`
    shows it cannot be seen after the merge onto the geometries.
  - The order of rows `value_counts` leaves between equal counts is not
    modelled. Ties are kept in order of first occurrence, a stable sort.
- **Categories.** The category order `astype("category")` picks is not
  modelled. Only the set matters to `reorder_categories`, and afterwards
  the order is the hard-coded one.
- **The inner merges** in load_air_data are modelled as a nested loop: left
  order, then right order within a key. With repeated segments pandas may
  order the rows differently; the set of segment keys is the same.
- **Keys and counts.**
  - Null join keys are not modelled in the transport tables, and null vehicle
    counts are not modelled either.
  - Tree records may lack either key; such records drop out of `value_counts`
    but stay in TOTAL.
- **Types.**
  - `codi_districte` is read by pandas as an integer while TOTAL's code is the
    string '0'. The model keeps all codes as strings.
  - The mixed column type is not modelled.
- **In-place updates of local frames.** These are modelled as functions that
  build a new table:
  - in `trees_df`, the column rename (nature.py line 22), the `.loc` append of
    TOTAL (line 23) and the density column (line 34);
  - in the transport loaders, the `.columns` renames (lines 99, 107, 136 and
    147) and the `Percentage` reassignments (lines 112-115 and 152-153);
  - in `load_air_data`, the `reorder_categories` assignments (lines 47, 60
    and 65);
  - in `load_kmeans_data`, the `Cluster` column (line 181).

  Each of these frames is created in its function and never shared, so the
  model does not capture the update in place or any aliasing. Only the final
  contents are modelled. `convert_wkt_to_geometry`, whose frame belongs to the
  caller, stays a method on a class.
- **Errors and warnings.** Pandas' `SettingWithCopyWarning` on the filtered
  age table and numpy's division warnings are not modelled.
