# Weather-station pipeline and station query, modelled in Dafny

The system turns global weather-station reference files into a station table
and per-station temperature tables, and answers "which stations are near this
point" for an exploration front-end. This project models the two pure cores
under the pandas and Dash plumbing:

- **The station pipeline of `clean_data.py`.**
  - The inventory is reduced to its TMAX and TMIN rows.
  - Station names from the registry are attached through two left merges.
  - The result is de-duplicated on (Station_ID, Element), first occurrence winning.
  - It is then grouped by Station_ID into the station table, taking the first position and name, the latest FirstYear and the earliest LastYear.
  - Per station, `clean_station_data` keeps the TMAX and TMIN daily rows, converts tenths of a degree to degrees and drops the flag columns.
  - `create_monthly_averages` builds one row per (Year, Month) with the mean TMAX and TMIN.
  - `create_yearly_averages` builds one row per Year with the mean of the monthly means.
- **The query side of `main.py`.**
  - `validate_years` clamps and reconciles the two year inputs.
  - `update_stations_selection` picks the stations to show. It keeps those whose coverage overlaps the year window and that lie within the radius, then takes the `count` nearest, nearest first, with ties in table order.

Tables are sequences of immutable records. A cell that may be NaN is an
`Option`. A step that the source wraps in `try ... except: return False` returns
a `Result`. The great-circle distance is a function parameter: the selection is
proved for whatever distance function is supplied.

Modules, one per file:

- `Tables` (tables.dfy) holds the generic table operations with pandas' meaning:
  - boolean-mask selection (`Filter`);
  - left merge (`JoinRow`, `LeftJoin`, `JoinOrigins`);
  - `drop_duplicates(keep='first')` (`DropDuplicates`).
- `Ordering` (ordering.dfy) holds the orders involved:
  - group-key order (`SortedKeys`);
  - Python's string order (`StrLt`);
  - the stable order of `nsmallest` (`StableSort`).
- `Stats` (stats.dfy) holds `max`, `min`, `mean`, and `mean` with NaN skipped.
- `Inventory` (inventory.dfy) covers the inventory normalisation (clean_data.py:11-95).
- `Stations` (stations.dfy) covers the station table (clean_data.py:97-115).
- `Observations` (observations.dfy) covers `clean_station_data`.
- `Averages` (averages.dfy) covers the monthly and yearly means.
- `Query` (query.dfy) covers `validate_years` and the station selection.

Behaviour of the code that a reader might not expect:

- A raw value of `-9999` is converted like any other, to -999.9. It is not dropped (`Observations.CelsiusExamples`).
- Observations are read from CSV tables (clean_data.py:133). There is no fixed-width decoding step.
- The monthly table has a row for every (Year, Month) with any reading, including months whose readings are all of other elements. Such a month gets two absent cells.

## Model

| member | source | states |
|---|---|---|
| Tables.FilterSelectsExactly | clean_data.py:20 | A mask selection keeps exactly the rows satisfying the mask, unchanged and in their original order. |
| Tables.FilterEmpty | clean_data.py:136 | A mask selection is empty exactly when no row satisfies the mask. |
| Tables.JoinRow | clean_data.py:74-77 | One left row of a left merge yields at least one row, all carrying it. The first carries the first right row with the same key, or is absent exactly when no right row has that key. |
| Tables.JoinRowFanout | clean_data.py:74-77 | A left row yields one row per right row with its key, so one per partner, each matching right row once and in right-table order. With no partner it yields exactly one row. |
| Tables.JoinOriginsCount | clean_data.py:48-51 | In a left merge, each left row is the origin of exactly as many rows as it has partners, or of one when it has none. |
| Tables.JoinOrigins | clean_data.py:48-51 | A left merge keeps every left row, in order: the origins of the output rows are nondecreasing and cover every left position. |
| Tables.LeftJoinPartners | clean_data.py:74-77 | Each row of a left merge pairs its left row with a right row of the same key, or with none exactly when the right table has no such key. |
| Tables.DropDuplicates | clean_data.py:79 | `drop_duplicates(keep='first')`. The key set is unchanged and keys are unique. Every survivor is the first row with its key, and survivors keep their input order. |
| Tables.DropDuplicatesOfSeen | clean_data.py:79 | Appending rows whose keys were all seen already does not change the de-duplicated table. |
| Tables.DropDuplicatesOfRepeats | clean_data.py:79 | A row followed only by repeats of its key leaves that row, or nothing when its key was seen before. |
| Ordering.SortedKeys | clean_data.py:103 | Group keys: the distinct keys of a column in ascending order. |
| Ordering.AscendingUnique | clean_data.py:103-109 | Two ascending key lists with the same elements are equal, so "one row per key, ascending" determines the grouped table's key column. |
| Ordering.StrLtIsStrictTotal | clean_data.py:103 | Python's lexicographic string comparison, used to sort Station_ID groups, is a strict total order. |
| Ordering.StableSort | main.py:287 | Sorting by distance gives a nondecreasing table that is a permutation of its input. |
| Ordering.StableSortKeepsTies | main.py:287 | The sort is stable: rows with equal distance keep their table order. |
| Stats.MaxOf | clean_data.py:106 | `max` of a group's FirstYear is one of its values and bounds all of them. |
| Stats.MinOf | clean_data.py:107 | `min` of a group's LastYear is one of its values and is below all of them. |
| Stats.Mean | clean_data.py:171 | `mean` times the number of values is their sum. |
| Stats.MeanWithin | clean_data.py:171 | A mean lies within any bounds that hold for all the values it averages. |
| Stats.MeanOfPresent | clean_data.py:221-222 | A NaN-skipping mean is absent exactly when every cell is absent, else the mean of the present cells. |
| Stats.MeanOfPresentWithin | clean_data.py:221-222 | A NaN-skipping mean lies within any bounds of the present cells. |
| Inventory.KeepTemperatureRows | clean_data.py:20 | Exactly the rows whose Element is TMAX or TMIN are kept, in input order, with every column unchanged. |
| Inventory.RelevantStations | clean_data.py:48-51 | The registry left-merged with the temperature inventory keeps every registry row, in order. Each appears once per temperature row of its station, or once when there is none. Only Station_ID and Station_Name are read back. |
| Inventory.AttachNames | clean_data.py:74-77 | The second merge keeps every inventory row, in order, with its columns unchanged, once per relevant-station row of its station or once when there is none. A present name comes from a registry row of the same station. An absent name means the registry lacks the station or lists it with an absent name. |
| Inventory.DedupeAbsorbsFanOut | clean_data.py:74-79 | De-duplicating the merged rows equals attaching the first matching name to the de-duplicated inventory, however many rows the merge fanned out. |
| Inventory.RelevantStationsFirstName | clean_data.py:48-51 | The first relevant-station row of a station is its first registry row, so the first merge's fan-out changes no name. |
| Inventory.StationsInventoryFirstWins | clean_data.py:20-79 | The canonical station inventory equals the de-duplicated temperature inventory with each station's first registry name attached. |
| Inventory.StationsInventoryContents | clean_data.py:20-79 | The canonical inventory has exactly the (Station_ID, Element) pairs of the temperature rows, each once. Each carries the columns of the first temperature row for its pair and the first registry name of its station. |
| Stations.Summarise | clean_data.py:103-109 | A station row is the aggregate of its group. Position comes from the group's first row, FirstYear is the group's max and LastYear its min, each attained. The name is the first present one, or absent when the whole group has none. |
| Stations.AggregateStations | clean_data.py:103-109 | One row per Station_ID in ascending order, each station of the inventory present, each row the aggregate of its group. |
| Stations.AggregateStationsUnique | clean_data.py:103-109 | No Station_ID appears twice, and the identifier column is the only ascending listing of the inventory's stations. |
| Stations.StationCoverage | clean_data.py:74-109 | Built from the raw inventory, a station's [FirstYear, LastYear] lies inside the first recorded range of each of its elements, and each end is attained by one of them. |
| Stations.CoverageOfAggregate | clean_data.py:79-109 | The coverage bound for any aggregate of a de-duplicated inventory whose rows carry their pair's first record. |
| Observations.CelsiusRoundTrip | clean_data.py:139 | Converting tenths of a degree to degrees loses nothing: the raw reading is recovered. |
| Observations.CelsiusMonotone | clean_data.py:139 | The conversion preserves the order and the equality of readings. |
| Observations.CelsiusHasTwoDecimals | clean_data.py:139 | A converted reading is a whole number of hundredths, that is at most two decimals, so rounding it to two places leaves it unchanged. |
| Observations.CelsiusExamples | clean_data.py:139 | 350 becomes 35.0, -157 becomes -15.7, and the sentinel -9999 becomes -999.9. |
| Observations.DropFlagsRoundTrip | clean_data.py:139-142 | Cleaning a row removes exactly the three flags: with them, the raw row is restored, so every other column is unchanged. |
| Observations.CleanRows | clean_data.py:136-142 | The cleaned table holds exactly the TMAX and TMIN rows, in order, each with its value converted and its flags dropped. |
| Observations.CleanRowsAppend | clean_data.py:136-142 | Cleaning works row by row: it distributes over concatenation. |
| Observations.CleanRowsOnlyTemperatures | clean_data.py:136 | Every cleaned row is a TMAX or TMIN reading. |
| Observations.CleanStationData | clean_data.py:130-151 | A read failure is reported as failure, never raised. Otherwise the result is the cleaned table. |
| Averages.YearMonthLtIsStrictTotal | clean_data.py:171-178 | The (Year, Month) group order is a strict total order. |
| Averages.MonthlyMean | clean_data.py:171-178 | A monthly cell is absent exactly when the month has no reading of that element. Otherwise it is the mean of those readings. |
| Averages.MonthlyMeanWithin | clean_data.py:171 | A monthly mean lies between bounds of the readings it averages. |
| Averages.MissingElements | clean_data.py:174-187 | The missing pivot columns are exactly the elements without any reading. |
| Averages.MonthlyTable | clean_data.py:171-187 | Fails, naming the missing columns, exactly when there is no TMAX or no TMIN reading. Otherwise there is one row per month with a reading, ascending, each with the station's identifier and that month's TMAX and TMIN means. |
| Averages.CreateMonthlyAverages | clean_data.py:165-197 | Fails exactly when the file cannot be read or has no TMAX or no TMIN reading. A read failure keeps its error and a missing column is named. Otherwise there is one row per month with a reading, ascending, each with the station identifier and that month's TMAX and TMIN means. |
| Averages.YearlyMean | clean_data.py:219-223 | A yearly cell is absent exactly when all of the year's monthly cells are absent. Otherwise it is the mean of the present monthly means. |
| Averages.YearlyMeanWithin | clean_data.py:219-223 | A yearly mean lies between the smallest and the largest present monthly mean of its year. |
| Averages.YearlyRowFor | clean_data.py:219-223 | Station_ID comes from the first monthly row of the year. Each of TMAX and TMIN is absent exactly when all of the year's monthly cells in that column are absent, and is otherwise the mean of the present ones. |
| Averages.YearlyTable | clean_data.py:219-229 | One row per Year of the monthly table, in ascending order, each the yearly row of its year. |
| Averages.CreateYearlyAverages | clean_data.py:213-239 | Succeeds exactly when the file can be read, and a read failure keeps its error. Otherwise there is one row per year of the monthly table, ascending, each the yearly row of its year. |
| Averages.YearlyKeepsStation | clean_data.py:184-220 | Yearly rows built from a station's monthly table carry that station's identifier. |
| Averages.MonthlyExample | clean_data.py:171 | January TMAX readings 20.0, 22.0 and 21.0 give a monthly mean of 21.0. |
| Averages.YearlyExample | clean_data.py:219-223 | Monthly means 21.0 and 18.0 give a yearly mean of 19.5. |
| Query.Clamp | main.py:353-354 | The clamped year lies in [0, 2024]; a year inside is kept, one below becomes 0, one above becomes 2024. |
| Query.ValidateYears | main.py:349-365 | Both outputs lie in [0, 2024]. The input that fired keeps its cleaned value and the window is ordered. The other year moves only when the two would cross, and then onto the fired one. Outputs are year-to first. |
| Query.ValidateYearsDefaults | main.py:353-354 | Empty inputs give the window [0, 2024], and an explicit year-to of 0 becomes 2024. |
| Query.ValidateYearsStable | main.py:349-365 | A returned window is returned unchanged when fed back, whichever input fires, unless its year-to is 0. |
| Query.ValidateYearsZeroNotStable | main.py:353-365 | A year-to below 0 is returned as 0, and a year-to of 0 entered directly becomes 2024. |
| Query.TakeCount | main.py:287 | `nsmallest(n)` returns min(n, rows) rows, and none when n is not positive. |
| Query.NSmallest | main.py:287 | `nsmallest(n, key, keep='first')`: the right number of rows, ascending by key, a sub-multiset of the input. Every row left out is at least as large as every row taken, and equal keys are taken as a prefix of their table order. |
| Query.SelectStations | main.py:278-287 | An empty year or radius input selects nothing. Otherwise every selected station overlaps the year window, lies within the radius and carries its distance to the query point. There are min(count, qualifying) of them, nearest first, ties in table order, and no qualifying station left out is nearer than a selected one. |
| Query.EmptyInputSelectsNothing | main.py:283-286 | An empty year or radius input makes every comparison of the mask false, so no station qualifies. |
| Query.UpdateStationsSelection | main.py:274-303 | The figure is passed through. Whatever the click count, the selection is empty when a year or the radius is empty, and is otherwise the min(count, qualifying) nearest qualifying stations, nearest first, ties in table order. |
| Query.InitialCallAgrees | main.py:276-303 | The initial call (`n_clicks is None`) and a click give the same result. |

## Left out

- `data_loader.py` is not part of this model. It downloads files and checks whether they exist (network and file I/O).
- CSV reading and writing, the `os.path.isfile` guards, `os.remove` and the progress messages in clean_data.py are I/O. The steps take the parsed table, or a `Result` carrying a read failure.
- Schema errors other than the TMAX/TMIN pivot columns are not modelled, because the typed records always have every column. These are a CSV missing a column the code selects, and non-numeric cells.
- NaN in numeric columns is not modelled: the Value, Latitude, Longitude and year columns always hold a number.
- `round(..., 2)` and `.round(2)` are left out: values are exact reals, and the monthly and yearly means are not rounded. A converted daily value is already a whole number of hundredths (`Observations.CelsiusHasTwoDecimals`).
- Floating-point arithmetic is left out for the same reason.
- The great-circle trigonometry of `haversine_distance` (main.py:234-243) is a function parameter of the selection.
- The `Distance` column written into the shared `stations_df` (main.py:278, 292) is not modelled. The selection is a pure function of the station table.
- The Dash layout, the map figure, `update_click_info`, `update_station_table` and the callback wiring are UI.
  - `prevent_initial_call=True` means `validate_years` always fires from one of the two year inputs. `Trigger.OtherInput` covers any other `ctx.triggered_id`.
- Latitude and longitude are numbers. An emptied coordinate input (main.py:150, 172) reaches `haversine_distance` as `None`, where `map(radians, ...)` (main.py:237) raises and the callback shows no new selection. That failure is not modelled, because the distance function is a parameter of the model.
- The count input is an integer: it comes from a slider (main.py:91), which always sends a number, so `nsmallest(None)` is not modelled.
- Year inputs are integers, so fractional years are not modelled.
