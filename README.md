# Parking-reader error dashboards, modelled in Dafny

The dashboards watch the parking access readers of many projects (sites). Every
reader writes a log row per reading: the reader's project alias, the reading type
(`function_`; `open` is a successful opening, anything else an error) and the time.
Three Streamlit scripts aggregate that log:

* `general.py`: today's readings per project. Any project with more than 5 % errors
  triggers a Telegram alert, at most once an hour per browser session. The cooldown
  lives in a session record `{sent, timestamp}`.
* `errorres.py`: today's readings of one service per (project, reading type) and
  their pivot table. It also ranks the projects by their readings of the `open`
  kinds and shows the top 20.
* `pages/errores_ed.py`: the error explorer for one project. It shows:
  * readings per hour and per day, with the error breakdown;
  * the histogram of reading types;
  * the lists offered for selection;
  * the count of one error type per day or per month, in Mexico City time.

The SQL queries are modelled as pure functions over a sequence of readings. The
state the scripts update in place is modelled with classes: the session's alert
record (`Alerts.AlertStatus`, `Alerts.Session`) and the data frame that gets its
total column (`Ranking.Frame`). Loops become methods with invariants.

| file | module | what |
|---|---|---|
| `seqs.dfy` | `Seqs` | distinct values, descending sort (sorted permutation), pandas `head(n)` |
| `text.dfy` | `Text` | `strip()`/`TRIM`, `'open' in col`, text order, zero-padded decimals |
| `readings.dfy` | `Readings` | the reading log, the per-group counters (`COUNT`, `SUM(CASE ...)`), `WHERE` and `GROUP BY` |
| `calendar.dfy` | `Calendar` | Gregorian dates and `FORMAT_TIMESTAMP('%Y-%m')` / `('%Y-%m-%d')` |
| `alerts.dfy` | `Alerts` | `errores_diario_todos`, the 5 % threshold, the message, the cooldown, one run of `general.py` |
| `ranking.dfy` | `Ranking` | `servicio_consola`, `types_function`, the pivot table, `top_n_proyectos_con_lectura_open` |
| `errores_ed.dfy` | `ErroresEd` | `errores_hora`, `errores_diario`, `tipo_errores_ed`, the selection lists, `proyectos_errores` |

Inputs the scripts read from the environment become parameters:

* `now` is the current time in seconds;
* `today` is the current day as a day number;
* `render` is how Python prints a float;
* `delivery` is the outcome of the Telegram request.

Time is in seconds since 1970-01-01 UTC. A day is `t / 86400` and an hour is
`(t % 86400) / 3600`.

Some behaviours of the code are easy to misread. The model follows the code in each:

* `porcentaje_error` is `(errores * 100) / lecturas` with BigQuery's `/`, which
  divides in floating point. It is not an integer percentage. Then `> 5` is exactly
  `errores * 100 > 5 * lecturas`.
* The `open` test on the pivot columns is a plain case-sensitive substring test.
  Nothing is lower-cased.
* `head(n)` accepts any `n`. A negative `n` keeps all but the last `-n` rows, so no
  argument is refused.
* A failed Telegram request is not retried. An answer other than 200 is only logged,
  and the cooldown record is still updated. A request that raises ends the run
  before the update.

## Model

| member | source | states |
|---|---|---|
| Seqs.Dedup | errorres.py:64 | `unique()`: every value of the input exactly once, and nothing else |
| Seqs.DedupSameValues | errorres.py:64 | a value survives deduplication iff it occurs in the input |
| Seqs.KeysDistinctPermuted | errorres.py:77 | reordering rows whose keys are pairwise distinct keeps the keys pairwise distinct |
| Seqs.SortDesc | errorres.py:77 | `sort_values(ascending=False)`: the result is ordered non-increasingly by the key and is a permutation of the input |
| Seqs.HeadLength | errorres.py:80 | `head(n)` keeps `n` rows for `0 <= n <= len`, all rows for larger `n`, and `len + n` rows (at least 0) for negative `n` |
| Seqs.Head | errorres.py:80 | `head(n)` is the prefix of that length |
| Seqs.PrefixDominates | errorres.py:77-80 | a prefix of a sorted table is sorted, comes from the table, and every kept row ranks at least as high as every row after it |
| Seqs.DroppedRankLower | errorres.py:77-80 | every row left out by `head` ranks no higher than any row kept |
| Text.TrimSpec | errorres.py:50 | `TRIM`/`strip()` keeps the slice from the first non-space character, removes only whitespace on either side, and leaves no whitespace at either end |
| Text.TrimIdempotent | pages/errores_ed.py:63 | stripping an already stripped label changes nothing |
| Text.StrippedDistinct | pages/errores_ed.py:63 | `list(set(x.strip() for x in ...))`: distinct, every element is some label stripped, and every stripped label is present |
| Text.StrippedDistinctValues | errorres.py:65 | a text is listed iff it is the strip of some input label |
| Text.StrippedDistinctIsStripped | errorres.py:65 | every listed label is already stripped |
| Text.Contains | errorres.py:71 | `'open' in col` holds iff `open` occurs at some position of `col` (case-sensitive) |
| Text.LexLessIrreflexive | pages/errores_ed.py:84 | the text order of `ORDER BY fecha` puts no text before itself |
| Text.LexLessTotal | pages/errores_ed.py:84 | of two different texts one comes first |
| Text.LexLessTrans | pages/errores_ed.py:84 | the text order is transitive |
| Text.DecimalRoundTrip | pages/errores_ed.py:70 | the decimal digits of a number read back as the number |
| Text.LeadingZerosIgnored | pages/errores_ed.py:70 | leading zeros do not change the value read back |
| Text.ZeroPadRoundTrip | pages/errores_ed.py:72 | a zero-padded field (`%m`, `%d`, `%Y`) reads back as its value |
| Text.ZeroPadFits | pages/errores_ed.py:72 | a number below `10^width` pads to exactly `width` characters |
| Readings.HourOf | pages/errores_ed.py:108 | `EXTRACT(HOUR ...)` lies in 0..23 |
| Readings.One | general.py:61-63 | one reading counts once in `lecturas`, and once as correct or as an error |
| Readings.OneClassifies | pages/errores_ed.py:110-115 | the `CASE WHEN` columns: correct iff the type is `open`, an error otherwise; a disconnect iff `open_error_500`, a presence error iff `open_error_501`, otherwise another error |
| Readings.Tally | general.py:61-64 | the counters of a group: `lecturas` is its number of readings, `correctas + errores == lecturas`, and `desconexion + presencia + otros == errores` |
| Readings.TallyAppend | general.py:61-63 | aggregating two groups together adds their counters |
| Readings.PercentBounds | pages/errores_ed.py:112 | `porcentaje_error` of a consistent row lies between 0 and 100 |
| Readings.PercentAbove | general.py:93 | `porcentaje_error > k` iff `errores * 100 > k * lecturas` |
| Readings.Where | general.py:71-72 | a `WHERE` keeps exactly the readings that satisfy it |
| Readings.Select | general.py:73-74 | a group holds exactly the readings with its key |
| Readings.WhereCounts | general.py:71-72 | a `WHERE` keeps every copy of a passing reading and no copy of a failing one, so a `COUNT` over it counts duplicates |
| Readings.SelectCounts | general.py:73-74 | a group holds every copy of the readings with its key and nothing else |
| Readings.KeyOccurs | general.py:73-74 | a key has a group iff some reading has that key |
| Readings.GroupTalliesAt | general.py:73-74 | the counters of each group are the tally of exactly its readings |
| Readings.TallyPartition | general.py:73-74 | `GROUP BY` over distinct keys covering all readings loses and duplicates none: the group counters add up to the counters of all readings |
| Readings.GroupSizesPartition | errorres.py:50-54 | the `COUNT(*)` of the groups add up to the number of readings |
| Readings.GroupSizesSum | errorres.py:74 | adding the counts of some distinct groups counts each reading with one of those keys exactly once |
| Readings.WhereSame | errorres.py:74 | filters that agree on every reading select the same readings |
| Readings.SelectWithin | errorres.py:74 | a group is unchanged by a filter that keeps all of its readings |
| Calendar.CivilFromDays | pages/errores_ed.py:70 | the calendar date of a day number is a valid date |
| Calendar.CivilRoundTrip | pages/errores_ed.py:70-73 | day numbers and valid dates correspond one to one, in both directions |
| Calendar.DaysFromCivilInjective | pages/errores_ed.py:73 | different valid dates are different days |
| Calendar.YearIsTwelveMonths | pages/errores_ed.py:70 | the twelve months make up the year |
| Calendar.BucketFormats | pages/errores_ed.py:69-73 | `%Y-%m` renders as the year, a dash and the 2-digit month; `%Y-%m-%d` is that text, a dash and the 2-digit day |
| Calendar.DayKeyInjective | pages/errores_ed.py:72-73 | for years 0..9999, equal `%Y-%m-%d` texts come from equal dates |
| Calendar.DayKeyFields | pages/errores_ed.py:72-73 | year, month and day read back from fixed positions of the daily text |
| Alerts.OnDay | general.py:72 | the query keeps exactly the readings whose UTC date is the current day |
| Alerts.DailyAll | general.py:56-79 | `errores_diario_todos()`: the per-alias rows, ordered by descending `lecturas`, a permutation of the groups, with one row per alias (no two rows share a project) |
| Alerts.DailyGroups | general.py:73-74 | `GROUP BY R.alias, fecha` on one day: one row per alias with readings that day, and no two rows for the same alias |
| Alerts.DailyGroupsRow | general.py:59-64 | each group row is dated today, has readings, and tallies exactly its alias's readings of the day (`correctas + errores == lecturas`) |
| Alerts.DailyAllSound | general.py:59-74 | every row of the table tallies exactly the readings of its alias today |
| Alerts.DailyAllComplete | general.py:73-74 | every alias with a reading today has a row |
| Alerts.ViolatesExactly | general.py:93 | a row violates the threshold iff `errores * 100 > 5 * lecturas` |
| Alerts.ThresholdBoundary | general.py:93 | 5 errors in 100 readings do not violate (strict `>`); 6 in 100 do |
| Alerts.Violations | general.py:93 | the violating rows: exactly the rows above the threshold |
| Alerts.ViolationsAppend | general.py:93 | filtering keeps table order: the violations of a concatenation are those of each part in turn |
| Alerts.LinesAppend | general.py:102-103 | the lines of a concatenation are the lines of each part, in order |
| Alerts.LineBreaks | general.py:103 | a project's line has exactly one line break, its last character, when neither the alias nor the printed percentage has one |
| Alerts.OneLinePerProject | general.py:101-103 | the message body has exactly one line per violating project |
| Alerts.BuildMessage | general.py:101-103 | the loop builds the header followed by the line of each violating project, in table order |
| Alerts.Next | general.py:96-110 | when the alert fires the record becomes `sent = True, timestamp = now`; otherwise it is unchanged |
| Alerts.QuietWithoutViolations | general.py:96 | without violations nothing is sent and the record is unchanged |
| Alerts.CooldownWindow | general.py:97-98 | after an alert at `ts`, a run at `now` with `now - ts < 3600` is silenced, including a clock that went backwards (`ts - 1`); from `ts + 3600` on, it fires |
| Alerts.AlertsSpaced | general.py:96-110 | over any sequence of runs, alerts are at least an hour apart, also from the one the record remembers. The record then holds the time of the last alert, and `sent` is true iff it was already true or some alert went out. |
| Alerts.SilencedOnlyByRecentAlert | general.py:96-98 | a run with violations is silenced only by an alert less than an hour old |
| Alerts.AlertStatus.constructor | general.py:84 | a new record is `{sent: False, timestamp: None}` |
| Alerts.Session.constructor | general.py:83 | a new session has no alert record |
| Alerts.Session.GetAlertSentStatus | general.py:82-85 | the record is created as `{sent: False, timestamp: None}` only when absent; otherwise the existing record is returned untouched |
| Alerts.EvaluateAlerts | general.py:87-110 | one run. A message goes out iff some project violates and the cooldown allows it. It is the header plus one line per violation. The record becomes `Next(...)` whatever the HTTP status, and stays as it was only if the request raises. The session keeps the same record object across runs, and a record created by the run is a new object. |
| Ranking.TableFor | errorres.py:41-45 | the log is `log_sek` iff the service is exactly `CONTROL DE ACCESOS`; any other name reads `log` |
| Ranking.OnlyExactNameReadsLogSek | errorres.py:42 | the comparison is exact: `ESTACIONAMIENTO DIGITAL` and `Control de Accesos` both read `log` |
| Ranking.ConsoleReadings | errorres.py:51-53 | the service's readings whose UTC date is today |
| Ranking.ConsoleGroups | errorres.py:48-56 | no (project, type) pair occurs twice |
| Ranking.ConsoleGroupsRows | errorres.py:50-56 | a row exists iff its trimmed (project, type) pair occurs, and its `cantidad` is the number of readings with that pair |
| Ranking.ServicioConsola | errorres.py:41-60 | `servicio_consola`: the pair counts ordered by descending `cantidad`, a permutation of the groups |
| Ranking.ServicioConsolaRows | errorres.py:47-57 | the console holds a row for exactly the pairs among the service's readings of the day, with their counts |
| Ranking.TypesFunction | errorres.py:64-65 | `types_function` lists no type twice |
| Ranking.TypesFunctionExact | errorres.py:64-65 | a type is listed iff it is the stripped type of some console row |
| Ranking.LookupCell | errorres.py:67 | a pivot cell is the count of the pair's row (the mean of one value), or the fill value 0 when there is none |
| Ranking.PivotRow | errorres.py:67 | a pivot row has one value per column, the cell of that (project, column) |
| Ranking.PivotRows | errorres.py:67 | one pivot row per project |
| Ranking.PivotColumns | errorres.py:67 | the columns are distinct, and a type is a column iff some console row has that type |
| Ranking.PivotProjects | errorres.py:67 | the projects (index after `reset_index`) are distinct, and a project is listed iff some console row belongs to it |
| Ranking.ProyectoOccurs | errorres.py:67 | a project is among the console's projects iff some console row belongs to it |
| Ranking.PivotShape | errorres.py:67 | a cell holds the count of its pair's console row, and 0 where no row exists |
| Ranking.PivotCovers | errorres.py:67 | every project and type of the console has its row and its column |
| Ranking.UniquePairsPermuted | errorres.py:57 | sorting the console keeps the pairs unique |
| Ranking.CellCount | errorres.py:50-67 | every pivot cell of the service counts the readings of the day with that trimmed project and type |
| Ranking.OpenColumns | errorres.py:71 | `open_columns`: exactly the positions of the columns whose name contains `open`, in column order |
| Ranking.OpenTotalCounts | errorres.py:50-74 | a project's `total_open_lectura` is the number of its readings of the day whose trimmed type contains `open` |
| Ranking.WithTotalColumn | errorres.py:74 | the assignment keeps the existing columns and adds the total column if missing, and nothing else |
| Ranking.TotalIndex | errorres.py:74 | the total is written to the existing total column, or to a new last column |
| Ranking.SetCell | errorres.py:74 | writing the total changes only that cell |
| Ranking.WithTotals | errorres.py:74 | each row gets the sum of its `open` columns in the total column, and keeps its project |
| Ranking.TopRows | errorres.py:77-80 | the ranking has `min(n, #projects)` rows for `n >= 0` |
| Ranking.TopRowsRank | errorres.py:77-80 | the ranking is sorted by total, keeps rows whole, and keeps no row whose total is below that of a row it leaves out |
| Ranking.TopTwenty | errorres.py:85 | with `n_top = 20` it shows 20 projects, or all when there are fewer |
| Ranking.Frame.Pivot | errorres.py:67 | the frame is the reset pivot table of the console rows |
| Ranking.Frame.AddOpenTotals | errorres.py:71-74 | in place: the column list gains the total column if missing. Every row keeps its project and every other cell, and holds the sum of its `open` columns in the total column. |
| Ranking.TopOpenProjects | errorres.py:69-82 | adds the totals to the frame in place (same number of rows with the same projects, every cell outside the total column unchanged, and each row's total equal to the sum of its `open` cells) and returns the ranking of its rows |
| ErroresEd.ProjectDay | pages/errores_ed.py:121-123 | the readings of the selected project (trimmed alias) dated today |
| ErroresEd.HourTallyAt | pages/errores_ed.py:109-115 | the counters of an hour tally exactly the readings of that hour and keep the row invariants |
| ErroresEd.HourlyReport | pages/errores_ed.py:104-131 | `errores_hora`: one row per hour with readings, dated today, in strictly increasing hour order |
| ErroresEd.HourlyRowCounts | pages/errores_ed.py:109-115 | every hourly row tallies exactly the project's readings of that hour: `correctas + errores == lecturas`, `desconexion + presencia + otros == errores` |
| ErroresEd.HourlyPercentBounds | pages/errores_ed.py:112 | each hourly `porcentaje_error` lies between 0 and 100 |
| ErroresEd.HourlyCovers | pages/errores_ed.py:124-125 | every reading of the project and day has the row of its hour |
| ErroresEd.HourlyAddsUp | pages/errores_ed.py:106-127 | the hourly rows add up to the counters of all the project's readings of the day |
| ErroresEd.DailyReport | pages/errores_ed.py:209-236 | `errores_diario`: at most one row, present iff the project has readings today, with consistent counters |
| ErroresEd.DailyIsSumOfHourly | pages/errores_ed.py:209-232 | the daily row exists iff hourly rows do, and its counters are the sum of theirs |
| ErroresEd.TypeHistogram | pages/errores_ed.py:89-101 | `tipo_errores_ed`: distinct types, each with the number of the project's readings of the day of that type |
| ErroresEd.HistogramPositive | pages/errores_ed.py:97 | only types that occur are listed |
| ErroresEd.HistogramComplete | pages/errores_ed.py:97 | every type that occurs is listed |
| ErroresEd.HistogramAddsUp | pages/errores_ed.py:92-97 | the histogram's counts add up to the day's `lecturas` |
| ErroresEd.ErrorTypeOptions | pages/errores_ed.py:62-63 | `list_errores_ed` lists no type twice |
| ErroresEd.ErrorTypeOptionsExact | pages/errores_ed.py:49-63 | a type is offered iff some reading's stripped type equals it |
| ErroresEd.ProjectOptionsAsWritten | pages/errores_ed.py:41-61 | `list_proyectos_ed` as written: exactly the untrimmed aliases, each once |
| ErroresEd.PaddedAliasFindsNothing | pages/errores_ed.py:61 | a padded alias is offered, yet the page's trimmed filter finds none of its readings |
| ErroresEd.ProjectOptions | pages/errores_ed.py:61 | the corrected project list: distinct trimmed aliases |
| ErroresEd.ProjectOptionsMatch | pages/errores_ed.py:61 | every offered project has readings, and every reading of today is found under its offered name |
| ErroresEd.ShiftedDate | pages/errores_ed.py:70 | `TIMESTAMP_ADD(date, INTERVAL -6 HOUR)` yields a valid date |
| ErroresEd.ShiftedDay | pages/errores_ed.py:70 | the shift moves the first six UTC hours of a day to the previous date and leaves the rest |
| ErroresEd.BucketFormat | pages/errores_ed.py:68-73 | `Mensual` selects `%Y-%m`, any other interval `%Y-%m-%d` |
| ErroresEd.MonthlyKeyIsPrefix | pages/errores_ed.py:68-73 | the monthly bucket is the daily bucket without its day; it is the year and the 2-digit month |
| ErroresEd.DailyBucketsAreDates | pages/errores_ed.py:72-73 | two readings share a daily bucket iff their shifted dates agree (years 0..9999) |
| ErroresEd.SeriesSelection | pages/errores_ed.py:80-82 | the counted readings: from 2024-01-01, of the project and error type, both compared trimmed |
| ErroresEd.SortByFecha | pages/errores_ed.py:84 | a strictly ascending permutation of rows with distinct buckets |
| ErroresEd.SeriesGroupsRows | pages/errores_ed.py:76-83 | a bucket has a row iff it holds a counted reading, and the row counts them |
| ErroresEd.ErrorSeries | pages/errores_ed.py:67-87 | `proyectos_errores`: ascending by bucket, a permutation of the groups |
| ErroresEd.ErrorSeriesRows | pages/errores_ed.py:76-84 | the series has a row for exactly the buckets with counted readings, each with their number |
| ErroresEd.ErrorSeriesDistinct | pages/errores_ed.py:83-84 | no bucket is listed twice |

## Left out

- Streamlit widgets, charts, tables and caching (`st.cache_data`) are not modelled. The cached value is treated as freshly computed.
- BigQuery is not modelled. The log joined with `raspis` is a sequence of readings, and `CURRENT_DATE('America/Mexico_City')` is the `today` parameter.
- The queries compare the UTC date of a reading with `today`. The model keeps that comparison but does not derive `today` from the Mexico City clock.
- `LIKE '{proyecto}'` is modelled as equality. A `%` or `_` in a project or type name would act as a wildcard in the source.
- The Telegram HTTP request is not modelled. Its outcome is the `delivery` parameter.
- `datetime.now()` is the `now` parameter, in whole seconds.
- Python's printing of the float percentage is the `render` parameter.
- `plot_heatmap` (errorres.py:88-142) and the Excel export (pages/errores_ed.py:195-207) are presentation only.
- Floating point is not modelled. `porcentaje_error` is an exact real.
- Alerts.Pct: gives 0 for a row without readings, a case the queries never produce.
- Readings with a null `function_`: the model assumes there are none, and every reading carries a type. With nulls present the source behaves differently in ways the model does not capture. `COUNT(function_)` skips them, so an alias or an hour whose readings all have a null type gets `lecturas = 0`, and the `/` of the error percentage then raises a division-by-zero error in BigQuery (general.py:64, pages/errores_ed.py:112 and 217). `tipo_errores_ed` groups by `function_` and returns a `NULL` group for them whose `cantidad` is 0, since `COUNT(function_)` skips nulls (pages/errores_ed.py:92-97). The list of error types would hold `None`, and `error.strip()` raises on it (pages/errores_ed.py:63).
- Text.TrimSpec: whitespace is the Unicode White_Space set. Python's `str.strip()` also removes the separators U+001C–U+001F, which `TRIM` keeps.
- Alerts.DailyAll: the order is by descending `lecturas`; ties are left in no particular order, as `ORDER BY` leaves them. The same holds for Ranking.ServicioConsola and Ranking.TopRowsRank. The leading `fecha` key of `ORDER BY fecha, lecturas DESC` is constant within one day and is not modelled.
- Text.StrippedDistinct, Ranking.PivotColumns, Ranking.PivotProjects: the iteration order of a Python `set` and the sorted row and column order of `pivot_table` are not modelled; these members keep first-occurrence order instead, and the properties proved about them do not depend on order. Seqs.Dedup keeps first-occurrence order, which is the order `unique()` returns.
- Ranking.OpenColumns: the `proyecto` column is also a column of the frame. It does not contain `open`, so it never contributes, and the model's value columns leave it out.
- Calendar.Element: `FORMAT_TIMESTAMP` elements other than `%Y`, `%m`, `%d` and `%%` are kept literally. The source only uses these.
- ErroresEd.DailyBucketsAreDates: proved for years 0..9999 only, where `%Y` has exactly four digits.

## Findings

| source | as written | input that shows it | evidently intended | confidence | as-written member | corrected member |
|---|---|---|---|---|---|---|
| pages/errores_ed.py:41-61 | the project list is the untrimmed `R.alias`, while every query of the page filters on `TRIM(R.alias) LIKE '{proyecto}'` | a device with alias `" Centro"` and a reading today: `" Centro"` is offered, yet no query finds its readings | offer the trimmed aliases, so every offered project matches its readings | not executed | ErroresEd.PaddedAliasFindsNothing | ErroresEd.ProjectOptionsMatch |
