# Climate query engine

A Dafny model of the query and aggregation logic behind the four data
routes of a small Flask service over a Hawaii climate database. The
database has a `measurement` table (station, date, precipitation `prcp`,
temperature observation `tobs`) and a `station` table (id, name,
coordinates). The routes are:

- `/api/v1.0/precipitation`: a dictionary from date to precipitation. The
  last row on a date wins.
- `/api/v1.0/stations`: a dictionary from station id to station name.
- `/api/v1.0/tobs`: the `(date, tobs)` rows of a station with the most
  rows (ties are not broken). Only rows in the last year of the whole
  table are kept: dates from 365 days before the latest date of any
  station up to that date, both included.
- `/api/v1.0/<start>/<end>`: one record per date between `start` and `end`
  (both included). Each record has keys `Date`, `TMaX`, `TMIN` and `TAVG`
  and holds the minimum, mean and maximum of `tobs` on that date.

The tables are in-memory sequences in table order (`Climate`). A NULL
column is `None`. Text comparisons use SQLite's BINARY collation, which is
code-point lexicographic order (`IsoDate.TextLe`). Python's `datetime`
arithmetic is modelled on the proleptic Gregorian calendar, years 1 to
9999 (`Calendar`). Dates are written in the ISO 8601 extended
calendar-date form `YYYY-MM-DD` (ISO 8601:2004, section 4.1.2.2)
(`IsoDate`).

Modules:

- `Wrappers`: `Option` and `Result`.
- `Calendar`: leap years, days-from-civil (`Ordinal`), civil-from-days
  (`FromOrdinal`) and `date - timedelta` (`MinusDays`).
- `IsoDate`: text order, zero-padded numerals, `Parse` (strptime) and
  `Format` (strftime). Also proves that text order is chronological order
  on well-formed dates.
- `LastWins`: the dictionary a `d[k] = v` loop leaves behind.
- `Climate`: the records and the error kinds.
- `PrecipitationRoute`, `StationsRoute`, `TobsRoute` and `TempRangeRoute`:
  one module per route.

The three loops that build a dictionary or a list are methods with loop
invariants. The queries are functions.

### Where the model follows the evident intent rather than the code

Each of these lines of `app.py` fails or does nothing useful as written.
The model follows the comment beside it.

- `app.py:57` sets `precipitation_df = {}` after the query, so the loop at
  58-59 runs over an empty dictionary and the route always returns `{}`.
  The model's loop runs over the query rows of line 54.
- `app.py:77` calls `stations.id` on a dictionary, which raises
  AttributeError. The model builds the dictionary from the station rows,
  keyed by id, with names as values, as the comment at line 76 says.
- `app.py:106` compares the date with the whole `lastDate` row. The model
  uses `lastDate[0]`, the date string that line 100 parses.
- `app.py:110` returns the view function `tobs`, not the query result. The
  model returns the query result (`TobsRoute.Tobs`).
- `app.py:130-136` appends to `start_end_list` while iterating over it,
  which never ends when there are rows. The model builds a fresh list of
  records from the query rows (`TempRangeRoute.TempRange`).

The code leaves three things open, and the model leaves them open too:

- The code does not validate `start` and `end`. They are compared as text,
  so a malformed value gives no error, only a text-ordered filter.
- The most-active station's tie-break is left to the database.
- The code does not fix the order of rows or groups, so no output order is
  promised.

## Model

| member | source | states |
|---|---|---|
| `Calendar.Ordinal` | app.py:100 | The day number under `datetime`'s subtraction: days before the year, plus days before the month, plus the day; 0001-01-01 is day 1. |
| `Calendar.DaysBeforeYearStep` | app.py:100 | The days before year y+1 are the days before year y plus the length of year y (365 or 366). |
| `Calendar.DaysBeforeYearGrows` | app.py:100 | Years only add days: a later year starts at least 365 days per year later. |
| `Calendar.OrdinalInYear` | app.py:100 | Every day of year y has an ordinal within that year's block of ordinals. |
| `Calendar.OrdinalMonotone` | app.py:100 | A later (year, month, day) has a strictly larger ordinal. |
| `Calendar.OrdinalOrder` | app.py:100 | Ordinal order is calendar order, in both directions, and the ordinal is one-to-one. |
| `Calendar.LocateYear` | app.py:100 | Finds the year holding a given day count, with the day of that year in range. Together they give back the count. |
| `Calendar.LocateMonth` | app.py:100 | Finds the month holding a given day of the year, with the day of the month in range. Together they give back that day of the year. |
| `Calendar.FromOrdinal` | app.py:100 | Civil-from-days gives a calendar day whose days-from-civil is the input. |
| `Calendar.FromOrdinalOfOrdinal` | app.py:100 | Days-from-civil then civil-from-days gives the date back. |
| `Calendar.FromOrdinalValid` | app.py:100 | Ordinals up to 9999-12-31 give dates that `datetime` can represent. |
| `Calendar.MinusDays` | app.py:100 | `date - timedelta(days=k)` fails exactly when the result would fall before 0001-01-01. Otherwise the result is a valid date exactly k days earlier, and not after the input. |
| `Calendar.MinusYearOfDays` | app.py:100 | Going back 365 days gives the same month and day of the previous year exactly when no February 29 lies in between. |
| `IsoDate.TextLe` | app.py:105-106 | The SQL `<=` on text (also at app.py:125-126) under SQLite's BINARY collation: code-point lexicographic order, a prefix before its extensions. |
| `IsoDate.TextLeReflexive` | app.py:105-106 | Every string is at most itself in text order. |
| `IsoDate.TextLeTotal` | app.py:105-106 | Any two strings are comparable in text order. |
| `IsoDate.TextLeAntisymmetric` | app.py:105-106 | Strings that are each at most the other are equal. |
| `IsoDate.TextLeTransitive` | app.py:105-106 | Text order is transitive. |
| `IsoDate.TextLeAppend` | app.py:105-106 | After prefixes of equal length, the prefixes decide the order unless they are equal. |
| `IsoDate.Digits` | app.py:100 | A numeral of width k has k digit characters. |
| `IsoDate.Value` | app.py:100 | A numeral of k digits denotes a number below 10^k. |
| `IsoDate.ValueOfDigits` | app.py:100 | Reading the zero-padded numeral of x gives x. |
| `IsoDate.DigitsOfValue` | app.py:100 | Writing the value of a digit string back at its width gives the same string. |
| `IsoDate.DigitsOrder` | app.py:105-106 | For zero-padded numerals of the same width, text order is numeric order. |
| `IsoDate.Format` | app.py:100 | `strftime('%Y-%m-%d')` gives ten characters with dashes at positions 4 and 7. |
| `IsoDate.Parse` | app.py:100 | `strptime(s, '%Y-%m-%d')` succeeds only with a date that `datetime` can represent. |
| `IsoDate.FormatParts` | app.py:100 | An unfolding of `Format`, used by the round-trip proofs: the year, month and day fields of a formatted date are the zero-padded numerals of its parts. |
| `IsoDate.ParseFormat` | app.py:100 | Parsing a formatted date gives the date back. |
| `IsoDate.FormatParse` | app.py:100 | Formatting a parsed string gives the same string. |
| `IsoDate.MonthDayOrder` | app.py:105-106 | The text order of `-MM-DD` tails is (month, day) order. |
| `IsoDate.FormatOrder` | app.py:105-106 | On formatted dates, text order is calendar order. |
| `IsoDate.TextOrderIsChronological` | app.py:105-106 | For well-formed `YYYY-MM-DD` strings, text order agrees with calendar order in both directions. |
| `LastWins.FromPairsKeys` | app.py:58-59 | After the loop, the keys are exactly the keys of the rows. |
| `LastWins.FromPairsLastWins` | app.py:58-59 | The last row with a given key decides that key's value. |
| `LastWins.FromPairsValues` | app.py:58-59 | Every key's value is the value of the last row with that key. |
| `PrecipitationRoute.DatePrcpRows` | app.py:54 | The `(date, prcp)` rows of the measurement table, in table order. |
| `PrecipitationRoute.Precipitation` | app.py:54-59 | One key per distinct date among the measurements. Each key holds the precipitation of the last measurement on that date. |
| `StationsRoute.IdNameRows` | app.py:76-77 | The `(id, name)` rows of the station table, which the comment at app.py:76 asks for, in table order. |
| `StationsRoute.StationNames` | app.py:74-79 | One key per station id. Each key holds the name of the last station row with that id. |
| `TobsRoute.RowCount` | app.py:95 | `func.count(measurement.station)` for one station group: at most the table size, and positive when the station has a measurement. |
| `TobsRoute.RowCountOfAbsent` | app.py:95 | A station with no measurement has a count of zero. |
| `TobsRoute.BusiestAmong` | app.py:95-96 | Picks a station among the first k rows whose count is at least that of every station among those rows. |
| `TobsRoute.MostActiveStation` | app.py:95-96 | Fails with `EmptyDataset` exactly when there are no measurements. |
| `TobsRoute.MostActiveIsMaximal` | app.py:95-96 | The chosen station reports in the data, and no station has more rows. |
| `TobsRoute.LatestDate` | app.py:99 | The date of some measurement, and no measurement's date is later in text order. |
| `TobsRoute.YearBefore` | app.py:100 | Fails with `MalformedDate` on an unparsable date, and with `DateOutOfRange` when the step would leave the calendar. Otherwise gives a well-formed date exactly 365 days earlier, which is strictly smaller in text order. |
| `TobsRoute.Selected` | app.py:104-106 | The tobs filter: the measurement's station is the chosen one and its date lies between the window's start and end, both included, in text order. |
| `TobsRoute.LastYearWindow` | app.py:99-100 | Fails with `EmptyDataset` on an empty table. On a non-empty table it fails exactly when the latest date does not parse or has at most 365 days before it, with the error `YearBefore` gives for that date. Otherwise the window's end is the latest date in the data, and its start is exactly 365 calendar days earlier. |
| `TobsRoute.StationObservations` | app.py:103-106 | Every returned row comes from a measurement of the station whose date lies in the window, both ends included. Each such measurement is returned exactly once: a row occurs as often as the measurements the filter keeps that carry it (`MatchCount`). |
| `TobsRoute.Tobs` | app.py:88-110 | Fails with `EmptyDataset` on an empty table. Succeeds exactly when the window can be formed, and otherwise fails with the window's error. |
| `TobsRoute.TobsSoundAndComplete` | app.py:94-106 | The route's rows all come from a most-active station, between the latest date and 365 days before it. Every such measurement is returned, and each row occurs as often as the kept measurements that carry it. |
| `TobsRoute.YearBeforeExample` | app.py:99-100 | For an example latest date, 2017-08-23, the window opens on 2016-08-23. |
| `TempRangeRoute.InRange` | app.py:125-126 | The range filter: `start <= date` and `date <= end`, compared as text. |
| `TempRangeRoute.RangeRows` | app.py:125-126 | Keeps exactly the measurements with `start <= date <= end` in text order, each as many times as it occurs in the table and no other. |
| `TempRangeRoute.DistinctDates` | app.py:127 | Lists each date of the rows once and lists no other date. |
| `TempRangeRoute.Readings` | app.py:123-124 | The non-NULL `tobs` values of the rows on a date, and only those, one entry per row: each value occurs as often as rows on that date carry it (`ReadingCount`), which is what `avg` averages over. |
| `TempRangeRoute.Minimum` | app.py:123 | A value of the group that is at most every value of the group. |
| `TempRangeRoute.Maximum` | app.py:124 | A value of the group that is at least every value of the group. |
| `TempRangeRoute.TotalAtLeast` | app.py:123-124 | A lower bound on every value of the group bounds the sum from below by count times the bound. |
| `TempRangeRoute.TotalAtMost` | app.py:123-124 | An upper bound on every value of the group bounds the sum from above by count times the bound. |
| `TempRangeRoute.Mean` | app.py:124 | `func.avg` as an exact mean: the mean times the number of readings is their sum. |
| `TempRangeRoute.MeanBetween` | app.py:123-124 | min <= avg <= max for every non-empty group. |
| `TempRangeRoute.Summarize` | app.py:123-124 | The aggregates are all NULL or all present. They are present exactly when the group has a non-NULL `tobs`. When present, TMIN and TMAX are values of the group that bound all of it, TAVG is the exact mean of the group's readings (one per row), and TMIN <= TAVG <= TMAX. |
| `TempRangeRoute.Aggregate` | app.py:123-127 | One grouped row per distinct date kept by the filter. |
| `TempRangeRoute.AggregateAt` | app.py:127 | An unfolding of `Aggregate`, used by the other `Aggregate*` lemmas: row k of the grouped query is the group of the k-th distinct date. |
| `TempRangeRoute.AggregateWithinRange` | app.py:125-126 | Every grouped row's date is a measurement's date with `start <= date <= end`. |
| `TempRangeRoute.AggregateDistinct` | app.py:127 | No two grouped rows share a date. |
| `TempRangeRoute.AggregateCovers` | app.py:123-127 | Every measurement between `start` and `end` has the grouped row of its date. |
| `TempRangeRoute.AggregateGroup` | app.py:123-127 | An unfolding of `Aggregate`: each grouped row holds the aggregates (`Summarize`) of the rows on its date. |
| `TempRangeRoute.AggregateOfReversedRange` | app.py:125-126 | When `start > end` the result is empty, not an error. |
| `TempRangeRoute.RecordsOfAggregate` | app.py:123-137 | Records built one per grouped row have distinct dates in `[start, end]`, cover every measurement in range, keep TMIN <= TAVG <= TMAX, and are empty when `start > end`. |
| `TempRangeRoute.AsRecord` | app.py:131-135 | The dictionary of one grouped row: `Date` from the date, `TMaX` from max, `TMIN` from min, `TAVG` from avg. |
| `TempRangeRoute.RecordsOf` | app.py:130-136 | The loop builds exactly one dictionary per grouped row, in the rows' order, with `TMaX` from max, `TMIN` from min, `TAVG` from avg. |
| `TempRangeRoute.TempRange` | app.py:121-140 | One record per grouped row, keyed `Date`/`TMaX`/`TMIN`/`TAVG`. The dates are distinct, lie in `[start, end]` and cover every measurement in range. TMIN <= TAVG <= TMAX. The result is empty when `start > end`. |

## Left out

- Flask setup, route registration, the welcome text, `jsonify` and `app.run` (app.py:29, 36-45, 143-144) are transport and are not modelled.
- The database engine, automap reflection and session open/close (app.py:15-24, 51, 61, 138) are replaced by in-memory sequences of records.
- The `numpy` and `pandas` imports (app.py:1-2) are unused.
- SQL row order is taken to be the order of the sequences. Last-seen-wins in the two dictionaries follows that order.
- TobsRoute.StationObservations: states which rows are returned and how many times each, but not their order. Without an `ORDER BY`, SQL does not fix the order.
- TempRangeRoute.TempRange: promises no order of the records. SQL does not fix the group order.
- TobsRoute.MostActiveStation: promises only a station with the largest count, with no tie-break. `.first()` over tied counts is up to the database.
- `func.avg` is modelled as an exact mean over reals. Floating-point rounding is not modelled, so only the ordering bounds are proved.
- `IsoDate.Parse` accepts only the zero-padded ASCII form. Python's `strptime` also accepts one-digit months and days, a day padded with a space instead of a zero (`" 5"`), and non-ASCII decimal digits. The stored dates are zero-padded.
- `IsoDate.Format` pads the year to four digits. Python's `strftime('%Y')` on some platforms writes years below 1000 without padding.
- The station table's coordinates and elevation are carried but no route uses them.
- The literal failures listed above (the empty-dict loop, `stations.id`, the row comparison, returning the view function, and appending while iterating) are not reproduced.
