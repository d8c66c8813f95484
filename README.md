# Vehicle feature-service updater: latest-file selection and bounded retry

This project models the part of the fleetshare vehicle pallet
(`AGOLVehiclesPallet` in `src/update_agol_vehicles_pallet.py`) that has
logic of its own, and proves properties of that model in Dafny:

- **`get_latest_csv`**: out of the files in the staging directory that
  match `vehicle_data_*.csv`, take the last in sorted order. Cut the date
  stamp out of its path (after the last `_`, before the first `.`). Parse
  it as `date(int(s[:4]), int(s[4:6]), int(s[6:]))`. When
  `previous_days > 0`, insist that the date is one of
  `today - i days` for `i` in `0..previous_days`. Return the path and the
  unmodified stamp, or raise `IndexError` (no file), `ValueError` (bad
  stamp, or too old) or `OverflowError`. `OverflowError` comes either from
  a day slice too wide for the C `int` that `datetime.date()` converts it
  to (the `except ValueError` does not catch it) or from a window reaching
  before year 1.
- **`process`**: a selection failure is stored in `self.status` and ends
  the run before anything is converted or published. Otherwise the
  publish steps run in a `while True` loop. A failed attempt re-raises
  once `try_count > 3`; otherwise it sleeps `try_count**2` seconds and
  tries again. So the body runs at most four times and sleeps 1, 4 and
  9 seconds. Each pass builds the item description
  `...updated on YYYY-MM-DD` from the stamp. Before the download, `process`
  derives the `.sd` path once from the `.sddraft` path.

Modules:

- `Wrappers` (`wrappers.dfy`): `Option` and `Result`.
- `Text` (`text.dfy`): the Python string behaviour the code relies on.
  This covers `str` ordering, `rsplit('_')[-1]`, `split('.')[0]`,
  clamped slicing, `s[:-5]`, and `int()` on digit strings. It also holds
  zero-padded formatting and its inverse.
- `Calendar` (`calendar.dfy`): `datetime.date` validity and
  `toordinal`, with Python's own `_days_before_year` and
  `_days_before_month` formulas. The module proves that ordinal order is
  calendar order.
- `LatestCsv` (`latest_csv.dfy`): `get_latest_csv`, with worked examples
  in `LatestCsvExamples`.
- `Publishing` (`publishing.dfy`): the service-definition paths, the
  description, the retry loop and the `VehiclesPallet` class with
  `Process`.

Dates are `Date(year, month, day)` values that satisfy
`Calendar.Valid`. Python's `date - timedelta` works on ordinals, so the
window is a list of ordinals. Python compares dates field by field;
`OrdinalOrder` proves that comparing their ordinals gives the same answer.
"Today" is a parameter: the ordinal of `date.today()`.

Two details of the code are easy to misread:

- The day slice `s[6:]` is open-ended, so eight digits are not enforced:
  any all-digit stamp of seven or more characters that denotes a valid
  date parses (`SevenDigitStampParses`, `ParsedStampIsDigits`).
- The log text says "try N of 3", but the guard `try_count > 3` lets the
  body run four times (`AllAttemptsFail`).

## Model

| member | source | states |
|---|---|---|
| `Text.LessEqTotal` | src/update_agol_vehicles_pallet.py:38 | the string order used by `sorted` is total |
| `Text.LessEqAntisymmetric` | src/update_agol_vehicles_pallet.py:38 | two strings that sort no later than each other are equal |
| `Text.LessEqTransitive` | src/update_agol_vehicles_pallet.py:38 | the string order is transitive |
| `Text.LessEqIsNumeric` | src/update_agol_vehicles_pallet.py:38-40 | for digit strings of one length, string order is numeric order |
| `Text.AfterLast` | src/update_agol_vehicles_pallet.py:49 | `rsplit('_')[-1]` is the longest suffix without `_`: all of the input when it has no `_`, else what follows its last `_` |
| `Text.BeforeFirst` | src/update_agol_vehicles_pallet.py:49 | `split('.')[0]` is the longest prefix without `.`: all of the input when it has no `.`, else what precedes its first `.` |
| `Text.ParseInt` | src/update_agol_vehicles_pallet.py:51 | `int()` succeeds exactly on non-empty digit strings, and the value fits the digit count |
| `Text.DropLast` | src/update_agol_vehicles_pallet.py:131 | `s[:-n]` for a positive `n` has `n` fewer characters (none when `s` is shorter) and is a prefix of `s` |
| `Calendar.ToOrdinal` | src/update_agol_vehicles_pallet.py:51 | every valid date has an ordinal between that of `date(1,1,1)` and that of `date(9999,12,31)` |
| `Calendar.OrdinalOrder` | src/update_agol_vehicles_pallet.py:59-60 | one valid date is before another exactly when its ordinal is smaller; two dates are equal exactly when their ordinals are |
| `LatestCsv.ExceptionClass` | src/update_agol_vehicles_pallet.py:41-63 | an empty listing surfaces as `IndexError` and only that failure does; a day too wide for a C `int` and a window before year 1 surface as `OverflowError`, and only they do; a refused stamp and a stale file surface as `ValueError` |
| `LatestCsv.Matching` | src/update_agol_vehicles_pallet.py:38 | the glob keeps exactly the listed names that match `vehicle_data_*.csv` |
| `LatestCsv.Greatest` | src/update_agol_vehicles_pallet.py:38-42 | the chosen name is one of the matches and no match sorts after it |
| `LatestCsv.LastOfSortedIsGreatest` | src/update_agol_vehicles_pallet.py:38-42 | the last element of any sorted permutation of the matches is `Greatest` |
| `LatestCsv.GreatestIgnoresOrder` | src/update_agol_vehicles_pallet.py:38-42 | `Greatest` depends only on which names are present, not on their order |
| `LatestCsv.LatestMatchUnique` | src/update_agol_vehicles_pallet.py:38-42 | at most one name is the latest match |
| `LatestCsv.DateString` | src/update_agol_vehicles_pallet.py:49 | the extracted stamp contains neither `_` nor `.` |
| `LatestCsv.DateStringOfName` | src/update_agol_vehicles_pallet.py:49 | for `vehicle_data_<stamp>.csv` in any directory, the extracted string is the stamp |
| `LatestCsv.ParseDate` | src/update_agol_vehicles_pallet.py:50-55 | a date is produced exactly when the slices `s[:4]`, `s[4:6]` and `s[6:]` are digit strings denoting a valid date, and it is the date they denote; a produced date never comes from a day too wide for a C `int` |
| `LatestCsv.ParsedStampIsDigits` | src/update_agol_vehicles_pallet.py:50-55 | a stamp that parses is all digits and at least seven characters long: any non-digit or missing piece fails, and there is no default date |
| `LatestCsv.ParseStamp` | src/update_agol_vehicles_pallet.py:50-55 | parsing the `YYYYMMDD` stamp of a valid date gives that date back |
| `LatestCsv.StampOfParse` | src/update_agol_vehicles_pallet.py:50-55 | an eight-character stamp that parses is the stamp of the date it parses to |
| `LatestCsv.SortOrderIsChronological` | src/update_agol_vehicles_pallet.py:40-42 | for conventionally named files, name order is date order, so the last sorted file is the newest |
| `LatestCsv.PreviousDates` | src/update_agol_vehicles_pallet.py:58-59 | the list of dates overflows exactly when it would reach before `date(1,1,1)`, and otherwise has `previous_days + 1` entries (none for a negative window) |
| `LatestCsv.InPreviousDates` | src/update_agol_vehicles_pallet.py:59-60 | a day is in the list exactly when it is today or at most `previous_days` days earlier |
| `LatestCsv.CheckLatest` | src/update_agol_vehicles_pallet.py:48-65 | once the file is chosen, success returns its path and the stamp cut from it unchanged, and that stamp parses; a staleness failure needs a positive window |
| `LatestCsv.GetLatestCsv` | src/update_agol_vehicles_pallet.py:29-65 | `IndexError` exactly when no name matches; success returns the latest match's path and its stamp unchanged, and the stamp parses; staleness only with a positive window |
| `LatestCsv.SelectsLatest` | src/update_agol_vehicles_pallet.py:38-65 | the run is decided by the latest match alone |
| `LatestCsv.SelectionIgnoresListingOrder` | src/update_agol_vehicles_pallet.py:38-42 | two listings with the same names give the same result, whatever their order |
| `LatestCsv.UnparsableDateFails` | src/update_agol_vehicles_pallet.py:50-55 | an unparsable stamp fails whatever the window: with `OverflowError` when its day is too wide for a C `int`, otherwise with the `ValueError` that `int()` or `date()` raised |
| `LatestCsv.NoWindowAcceptsAnyDate` | src/update_agol_vehicles_pallet.py:29-65 | with `previous_days <= 0` any parsable date is accepted, however old |
| `LatestCsv.WindowAcceptsExactlyRecent` | src/update_agol_vehicles_pallet.py:57-65 | with `previous_days = N > 0`, the file is accepted iff `0 <= today - date <= N`, and otherwise it is refused as not recent |
| `LatestCsv.WindowEdges` | src/update_agol_vehicles_pallet.py:57-63 | a file dated `N` days ago passes; one dated `N + 1` days ago, or in the future, is refused |
| `LatestCsv.WindowBeforeFirstDayOverflows` | src/update_agol_vehicles_pallet.py:58-59 | a window reaching before year 1 raises `OverflowError` before any staleness check |
| `LatestCsvExamples.SevenDigitStampParses` | src/update_agol_vehicles_pallet.py:51 | `2023011` parses as 2023-01-01: eight digits are not enforced |
| `LatestCsvExamples.TenDigitDayOverflows` | src/update_agol_vehicles_pallet.py:49-52 | the stamp `2023019999999999` has digit slices, but its day `9999999999` is too wide for a C `int`, so it overflows instead of parsing |
| `LatestCsvExamples.ListingExample` | src/update_agol_vehicles_pallet.py:29-65 | listing the 1st, 15th and 10th of January 2023 out of order selects the 15th, with stamp `20230115`, under a 7-day window on the 16th |
| `Publishing.SdPathOfDraft` | src/update_agol_vehicles_pallet.py:131 | dropping five characters turns `<name>.sddraft` into `<name>.sd` |
| `Publishing.ServicePaths` | src/update_agol_vehicles_pallet.py:130-131 | the draft path is `<scratch>/<service>.sddraft` and the final path is `<scratch>/<service>.sd` |
| `Publishing.Description` | src/update_agol_vehicles_pallet.py:189-192 | the description starts with the fixed text and is two dashes longer than the stamp |
| `Publishing.DescriptionNamesDate` | src/update_agol_vehicles_pallet.py:189-192 | for an eight-digit stamp, the description ends with the parsed date as `YYYY-MM-DD` |
| `Publishing.DescriptionKeepsStamp` | src/update_agol_vehicles_pallet.py:189-192 | removing the prefix and the two dashes from the description gives the stamp back |
| `Publishing.Retry` | src/update_agol_vehicles_pallet.py:169-210 | the body runs 1 to 4 times; all runs but the last failed; the loop completes iff the last run succeeded; it re-raises only after the 4th run fails, with that run's exception; one sleep per retry |
| `Publishing.FirstSuccess` | src/update_agol_vehicles_pallet.py:169-210 | if attempt `k` is the first to succeed, the body runs exactly `k` times and the sleeps are `1², …, (k-1)²` |
| `Publishing.AllAttemptsFail` | src/update_agol_vehicles_pallet.py:195-207 | if every attempt fails, the body runs 4 times, sleeps 1, 4 and 9, and re-raises the 4th exception unchanged |
| `Publishing.PublishWithRetry` | src/update_agol_vehicles_pallet.py:169-210 | the imperative `while True` loop produces exactly the trace `Retry` specifies |
| `Publishing.VehiclesPallet.Process` | src/update_agol_vehicles_pallet.py:151-210 | a selection failure sets `status` to `(False, error)` and returns before publishing; otherwise `status` is untouched and the loop runs with the description of the selected stamp |

## Left out

- SFTP download, the known-hosts check and its `FileNotFoundError`,
  deleting scratch paths, and `os.mkdir`
  (src/update_agol_vehicles_pallet.py:128-149). These are file-system and
  network I/O. `Process` starts from the names the staging directory
  holds.
- The CSV-to-point conversion (`XYTableToPoint`, lines 162-167). It is an
  arcpy call with no logic of its own.
- `get_map_layer`, `update_agol_feature_service`, GIS sign-in and item
  updates. Each loop iteration's publish steps are one opaque fallible
  step: the oracle `publish`, indexed by attempt number. `Failed` stands
  for an `Exception` subclass, which `except Exception` (line 195) catches
  and retries; a `BaseException` that is not an `Exception` (such as
  `KeyboardInterrupt` or `SystemExit`) leaves the loop at once and is not
  modelled.
- `sleep` and `date.today()`. Sleeps are recorded as durations in the
  trace, and today is a parameter.
- Logging calls and exception messages. A refused stamp re-raises the
  `ValueError` of `int()` or `date()`, whose message quotes the bad
  literal (`int()`) or names the out-of-range field (`date()`), never the
  file; `UnparsableDate` carries nothing. Only the staleness error
  carries the path (`NotRecent`).
- `Text.ParseInt`: does not model Python `int()`'s leniencies
  (surrounding whitespace, a sign, `_` between digits, non-ASCII digits).
  Stamps are restricted to ASCII digit strings as a deliberate narrowing.
  A stamp such as `2023+1+1`, which Python would accept, is refused here.
- `LatestCsv.JoinPath`: does not model `pathlib` normalisation
  (duplicate or trailing separators) or Windows separators; a path is
  `dir + "/" + name`.
- `LatestCsv.MatchesGlob`: does not model Windows' case-insensitive glob
  and path ordering, or directories whose names match the pattern.
  Names are plain strings compared by code point.
- `LatestCsv.DayExceedsCInt`: follows CPython's C `datetime` module, which
  converts the three arguments to C `int` (up to 2147483647) before its
  range checks. The pure-Python fallback would raise `ValueError` for such
  a day instead. File names are assumed to be of file-system length (at
  most 255 characters), so `int()`'s limit of 4300 digits, above which it
  raises `ValueError`, is never reached and is not modelled.
- `sorted(...)` itself is not modelled as a sort. Its last element is modelled as
  `Greatest`, and `LastOfSortedIsGreatest` ties it to any sorted
  permutation of the matches.
- `VehiclesPallet.status` starts as `None`. The base class's initial
  value is not part of this model.
- `src/update_hexes.py`, `src/hex_summary.py`,
  `fleetshare_secrets_template.py` and the root
  `update_agol_vehicles_pallet.py` are not part of this model. They are
  pandas, arcpy and arcgis pipelines and constants with no logic of
  their own.
