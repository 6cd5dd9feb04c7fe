# Store uptime/downtime estimation engine, modelled in Dafny

This project models the engine behind the store-monitoring report. The engine
takes a store's sparse status observations, its weekly business hours and its
time zone. For the last hour, day and week it estimates how much of the
business time the store was up and how much it was down.

The model covers the two engine files:

- `app/utils_time.py`: the half-open `Interval` with `intersect` and
  `duration_seconds`, `make_utc`, the expansion of weekly rules into UTC
  intervals for one local date (`local_business_intervals_utc`), and
  `split_into_days_utc`.
- `app/report_logic.py`:
  - `_parse_hhmmss`;
  - the fallbacks of `get_business_hours` (always open) and
    `get_store_timezone` (`America/Chicago`);
  - `get_now`, `window_ranges` and `fetch_status_points`, with their query
    results as parameters;
  - `interpolate_segments`, `business_intervals_utc_for_range`,
    `sum_overlap` and `compute_store_metrics`.

Conventions:

- Instants are integers counting microseconds since 1970-01-01T00:00Z.
- Local dates are day numbers, day 0 being 1970-01-01; `Weekday` gives Monday
  as 0.
- A time zone is a `Zone` (module `Clock`) with two functions. `toUtc` stands
  for pytz `localize` followed by `astimezone(utc)`. `localDate` stands for
  `astimezone(tz).date()`. The zone database is a parameter
  `db: string -> Option<Zone>`.
- Raised exceptions become `Err(...)` values of `Result` (module `Wrappers`).
  Python's `None` becomes `Option`.
- A status is a string, and only `"active"` counts as up.

Modules, one file each:

| file | module | models |
|---|---|---|
| `wrappers.dfy` | `Wrappers` | `Option`, `Result`, the exception kinds |
| `clock.dfy` | `Clock` | time units, `datetime.time`, weekdays, zones, aware/naive datetimes |
| `utils_time.dfy` | `UtilsTime` | `app/utils_time.py` |
| `hours_parse.dfy` | `HoursParse` | `_parse_hhmmss`, `get_business_hours`, `get_store_timezone` |
| `timeline.dfy` | `Timeline` | `interpolate_segments` and the reference timeline it approximates |
| `aggregate.dfy` | `Aggregate` | `sum_overlap` |
| `business.dfy` | `Business` | `business_intervals_utc_for_range` |
| `metrics.dfy` | `Metrics` | `get_now`, `fetch_status_points`, `window_ranges`, `compute_store_metrics` |

Each loop of the source is a `method` with its loop. The method is proved
equal to a recursive specification function, or to satisfy the invariants
the source promises. The lemmas then state the promised properties about
those functions:

- `LocalBusinessIntervalsUtc` is proved equal to `DayIntervals`.
- `ExpandWindow` is proved equal to `BusinessIntervalsFor`.
- `SumOverlap` is proved equal to `Total`.
- `InterpolateSegments` is proved to produce a reconstruction of the window
  (`Reconstructs`): a tiling whose cuts are observation timestamps and, for
  ascending observations, exactly the timestamps inside the window, with every
  instant on the reference status `StatusAt`. For ascending observations a
  window has only one reconstruction (`ReconstructionUnique`).
- `ComputeStoreMetrics` is proved to report, for each window, the overlap
  totals of that reconstruction with the window's business intervals. The
  fetched observations are ascending, so the figures are determined by the
  inputs (`FiguresDetermined`).

Where the code does something other than its intended behaviour as its
names and docstrings describe it, the model follows the code:

- **Unknown time-zone name.** `pytz.timezone` raises on a name it does not
  know, so `GetStoreTimezone` returns `Err(UnknownTimeZone)`
  (`app/report_logic.py:28`). Only a missing or empty name falls back to the
  default `America/Chicago` (`app/report_logic.py:26-27`); an unknown name
  does not.
- **Second part of a midnight-crossing rule.** The docstring promises
  intervals for the date in local time, split at midnight
  (`app/utils_time.py:34-39`). The second part ends at the end time localized
  on the rule's own date plus one day (`app/utils_time.py:55`). pytz
  arithmetic keeps the offset chosen by `localize`, so across a
  daylight-saving change this part is an hour off.
- **Day buckets.** The docstring of `split_into_days_utc` promises midnight
  boundaries in UTC (`app/utils_time.py:68-70`). The first bucket ends at the
  midnight of `start`'s own zone; later buckets end at UTC midnights.
- **Status strings.** Statuses are not validated; any string other than
  `"active"` counts as down.
- **Overlapping rules.** Business intervals from overlapping rules are not
  merged, so the same time is counted once per rule.
- **Interval order.** An `Interval` may be built with `start > end`;
  `Duration` clamps it to 0.
- **Sub-second end bound.** The last local date expanded is that of
  `end - 1s` (`app/report_logic.py:94`). A window ending less than a second
  after a local midnight does not expand that last date, so the business time
  in its final fraction of a second is not counted
  (`Business.SubSecondEndDateSkipped`). Apart from such windows, an
  always-open store in a fixed-offset zone has business time for the whole
  window (`Business.AlwaysOpenWindowTime`). If every observation is active,
  it is reported 60 minutes, 24 hours or 168 hours up and none down
  (`Metrics.AlwaysOpenActiveReport`).

## Model

| member | source | states |
|---|---|---|
| Clock.Weekday | app/utils_time.py:44 | the weekday of a local date is in 0..6 (Monday 0) |
| UtilsTime.Duration | app/utils_time.py:14-15 | the duration is never negative, is `end - start` for an ordered interval, and is 0 for a reversed one |
| UtilsTime.Intersect | app/utils_time.py:17-22 | the result is `None` exactly when the later start is at or after the earlier end (touching intervals do not overlap); otherwise it is non-empty and lies inside both operands |
| UtilsTime.IntersectCommutes | app/utils_time.py:17-22 | intersection is commutative |
| UtilsTime.IntersectContains | app/utils_time.py:17-22 | an instant is in the intersection exactly when it is in both operands |
| UtilsTime.MakeUtc | app/utils_time.py:24-27 | a naive datetime raises the naive-datetime error, and only a naive one; an aware one converts to the instant it denotes |
| UtilsTime.LocalBusinessIntervalsUtc | app/utils_time.py:29-65 | the loop over rules and parts produces exactly `DayIntervals(day, rules, zone)`, each matching rule's parts in rule order |
| UtilsTime.DayIntervalsMembers | app/utils_time.py:43-45 | an interval is produced for a date exactly when some rule whose weekday is the date's produces it; rules for other weekdays contribute nothing |
| UtilsTime.DayIntervalsSingleMatch | app/utils_time.py:43-63 | when exactly one rule names the date's weekday, the date's intervals are that rule's |
| UtilsTime.DayIntervalsNoMatch | app/utils_time.py:43-45 | a date whose weekday no rule names has no business intervals |
| UtilsTime.RulePartCount | app/utils_time.py:43-58 | a rule for another weekday gives no interval; a matching rule with `start < end` gives one; a matching rule with `end <= start` gives two |
| UtilsTime.CrossingRuleFixedOffset | app/utils_time.py:50-56 | in a fixed-offset zone, the first part of a midnight-crossing rule ends at the next local midnight, where the second part starts; the second part ends at the end time on the next day; together they last `DAY - start + end` |
| UtilsTime.AllDayRuleFixedOffset | app/utils_time.py:50-56 | the `00:00-00:00` rule yields one full local day plus a zero-length part at the next midnight |
| UtilsTime.MidnightAfter | app/utils_time.py:77-78 | the next midnight lies strictly after the instant, at most one day later, and is a midnight on the zone's wall clock |
| UtilsTime.SplitIntoDaysUtc | app/utils_time.py:67-82 | naive bounds raise, and only they do. An empty range gives no bucket. Otherwise the buckets tile `[start, end)` contiguously. Each bucket ends at `end` or at the first midnight after its start (in `start`'s offset for the first bucket, UTC afterwards), so no bucket is longer than a day |
| HoursParse.Split | app/report_logic.py:13 | splitting gives at least one field, and no field contains the separator |
| HoursParse.JoinSplit | app/report_logic.py:13 | joining the fields of a split with the separator gives back the string |
| HoursParse.ParseInt | app/report_logic.py:13 | `int()` succeeds only on a non-empty string |
| HoursParse.ParseInts | app/report_logic.py:13 | the list comprehension of `int()` succeeds exactly when every field parses, with one value per field; otherwise some field fails |
| HoursParse.ParseTwoDigits | app/report_logic.py:13 | a two-digit rendering of 0..99 parses back to that number |
| HoursParse.ParseHhmmss | app/report_logic.py:12-14 | a parsed time of day is a whole number of seconds |
| HoursParse.ClockTime | app/report_logic.py:14 | `datetime.time(h, m, s)` within range is `h` hours, `m` minutes and `s` seconds after midnight |
| HoursParse.ParseHhmmFields | app/report_logic.py:12-14 | for any colon-free fields that `int()` reads as `h` and `m`, `"h:m"` is the time `h:m:00` when `h` is 0-23 and `m` 0-59, and otherwise raises the out-of-range error |
| HoursParse.ParseHhmmssFields | app/report_logic.py:12-14 | for any colon-free fields that `int()` reads as `h`, `m` and `s`, `"h:m:s"` is the time `h:m:s` when all three are in range, and otherwise raises the out-of-range error |
| HoursParse.ParseHhmmShortHour | app/report_logic.py:12-14 | `"9:05"` is 09:05 |
| HoursParse.ParseHhmmssSigned | app/report_logic.py:12-14 | `"+9:5:0"` is 09:05:00 |
| HoursParse.ParseHhmmssLeadingZeros | app/report_logic.py:12-14 | `"009:05:00"` is 09:05:00 |
| HoursParse.ParseIntDigit | app/report_logic.py:13 | `int()` of one digit is its value |
| HoursParse.ParseIntPlus | app/report_logic.py:13 | `int()` accepts a leading plus sign |
| HoursParse.ParseIntLeadingZero | app/report_logic.py:13 | `int()` ignores a leading zero |
| HoursParse.ParseHhmmssFormatted | app/report_logic.py:12-14 | `"HH:MM:SS"` parses to that time of day |
| HoursParse.ParseHhmmFormatted | app/report_logic.py:12-14 | `"HH:MM"` parses to that time with zero seconds |
| HoursParse.ParseIntRejectsLead | app/report_logic.py:13 | `int()` fails on a string that starts with neither a sign nor a digit |
| HoursParse.ParseHhmmssOutOfRange | app/report_logic.py:14 | a two-digit `"HH:MM:SS"` with the hour at least 24, or the minute or second at least 60, raises the out-of-range error of `datetime.time` |
| HoursParse.ParseHhmmssNotAnInteger | app/report_logic.py:13 | a field that `int()` rejects raises the not-an-integer error |
| HoursParse.ParseHhmmssErrorExamples | app/report_logic.py:12-14 | `"24:00:00"` raises the out-of-range error and `"ab:00"` the not-an-integer error |
| HoursParse.ParseHhmmssSingleField | app/report_logic.py:14 | an integer string without a colon raises the missing-field error of `parts[1]` |
| HoursParse.AlwaysOpen | app/report_logic.py:35-36 | the fallback has exactly seven rules |
| HoursParse.AlwaysOpenOnePerWeekday | app/report_logic.py:35-36 | fallback rule `w` is `(w, 00:00, 00:00)`, and no other fallback rule has weekday `w` |
| HoursParse.AlwaysOpenFullDay | app/report_logic.py:35-36 | with the fallback rules, every local date in a fixed-offset zone is open from its midnight to the next |
| HoursParse.ParseRecord | app/report_logic.py:37 | a record parses exactly when both its time strings do, and then carries its weekday and both parsed times; otherwise it raises the start string's error first, else the end string's |
| HoursParse.ParseRules | app/report_logic.py:37 | a successful parse gives one rule per record, each the parse of its record |
| HoursParse.ParseRulesFirstError | app/report_logic.py:37 | parsing the records fails exactly when some record does not parse, and then with the error of the first such record |
| HoursParse.GetBusinessHours | app/report_logic.py:30-37 | no records gives the always-open rules; otherwise the records' parse, errors included |
| HoursParse.StoreZoneName | app/report_logic.py:22-27 | the stored zone name is used when present and non-empty, otherwise `America/Chicago` |
| HoursParse.GetStoreTimezone | app/report_logic.py:22-28 | the lookup succeeds exactly when the zone database knows the name, and then gives that zone; otherwise it raises the unknown-zone error |
| Timeline.StatusAtIndex | app/report_logic.py:59-69 | for ascending observations, between observation `i` and the next one the assumed status is observation `i`'s |
| Timeline.StatusBeforeFirst | app/report_logic.py:65-67 | for ascending observations, before the first one the status is the first one's, and `"inactive"` when there are none |
| Timeline.FirstAtOrAfter | app/report_logic.py:66 | the result is the first observation at or after `t`, and `None` exactly when every observation is before `t` |
| Timeline.BaseStatus | app/report_logic.py:59-69 | the base status is some observed status (`"inactive"` without observations); for ascending observations it is the reference status at `start` |
| Timeline.InterpolateSegments | app/report_logic.py:56-87 | the segments are a reconstruction of the window: none for an empty window; otherwise they tile `[start, end)` with non-empty, contiguous pieces, every inner cut is an observation timestamp and every status an observed one. For ascending observations, the cuts are exactly the distinct timestamps strictly inside the window, and every instant carries the reference status (the last of tied observations wins) |
| Timeline.ReconstructionUnique | app/report_logic.py:71-87 | for ascending observations, two reconstructions of the same window are equal |
| Timeline.CutsOfTiling | app/report_logic.py:79-87 | the cuts of a tiling strictly increase, and are exactly the segment starts after the first |
| Timeline.AscendingBySet | app/report_logic.py:79-87 | two strictly increasing sequences of cuts with the same members are equal |
| Timeline.SegmentAt | app/report_logic.py:71-87 | in a reconstruction from ascending observations, segment `k` runs from the previous cut (or `start`) to the next cut (or `end`), with the reference status at its start |
| Timeline.SkipStep | app/report_logic.py:75-76 | an observation at or before the window start keeps the loop invariant |
| Timeline.AdvanceStep | app/report_logic.py:79-82 | closing the open segment at a later observation keeps the loop invariant |
| Timeline.TieStep | app/report_logic.py:83-84 | an observation at the open segment's own start only replaces the status and keeps the loop invariant |
| Timeline.SkipPreservesAgreement | app/report_logic.py:75-76 | after a skipped observation the carried status is the reference status up to the next observation |
| Timeline.StepPreservesAgreement | app/report_logic.py:79-84 | one step of the loop keeps the cut set equal to the timestamps seen, and keeps every segment on the reference status |
| Timeline.FinalStep | app/report_logic.py:85-87 | closing the open segment at `end` completes the tiling and the status guarantees |
| Timeline.FinalAgreement | app/report_logic.py:85-87 | for ascending observations, the closed segments cut exactly at the timestamps inside the window and carry the reference status |
| Aggregate.Overlap | app/report_logic.py:111-114 | a pair's overlap is between 0 and the length of each operand |
| Aggregate.SumOverlap | app/report_logic.py:106-119 | the nested loop gives `up` as the total overlap of business intervals with active segments, and `down` as that with all other segments; both are non-negative |
| Aggregate.OverlapCommutes | app/report_logic.py:111 | the overlap of two intervals does not depend on their order |
| Aggregate.OverlapSplit | app/report_logic.py:111-114 | cutting an interval in two splits its overlap with any interval into the two parts' overlaps |
| Aggregate.TallyCovers | app/report_logic.py:110-118 | for segments tiling a window, one business interval's up time plus down time is its overlap with the window |
| Aggregate.UpPlusDown | app/report_logic.py:106-119 | when the segments tile a window and every business interval lies in it, up plus down equals the summed business time |
| Aggregate.NoUpWithoutActive | app/report_logic.py:115-118 | with no active segment there is no up time |
| Aggregate.NoDownWhenAllActive | app/report_logic.py:115-118 | with only active segments there is no down time |
| Business.Clip | app/report_logic.py:98-104 | clipping keeps at most as many intervals, each non-empty and inside `[start, end)` |
| Business.ClipMembers | app/report_logic.py:98-104 | an interval is kept exactly when it is the non-empty overlap of some input interval with the window |
| Business.ClipStep | app/report_logic.py:100-103 | filtering one more interval appends its overlap with the window, or nothing when there is none |
| Business.ExpandDatesMembers | app/report_logic.py:95-97 | an interval is expanded for the date range exactly when some date in the range produces it |
| Business.ExpandWindow | app/report_logic.py:92-104 | the date loop and the filter loop give `BusinessIntervalsFor`: dates from `start`'s local date to the local date of `end - 1s`, clipped to the window; every interval is non-empty and inside `[start, end)` |
| Business.BusinessIntervalsUtcForRange | app/report_logic.py:89-104 | an unknown zone raises the unknown-zone error; otherwise a record that does not parse raises its error; otherwise the result is the window's business intervals |
| Business.SubSecondEndDateSkipped | app/report_logic.py:93-97 | in UTC with the always-open rules, the window `[0, DAY + 0.5s)` yields only the first day's interval: the half second after midnight is not expanded |
| Business.ClipTime | app/report_logic.py:98-104 | the business time of the clipped intervals is the summed overlap of the expanded intervals with the window |
| Business.CoveredAppend | app/report_logic.py:95-97 | the summed overlap of the intervals of consecutive dates adds up |
| Business.AlwaysOpenDateStep | app/report_logic.py:95-97 | with the always-open rules in a fixed-offset zone, expanding one more date adds that local day's overlap with the window |
| Business.AlwaysOpenCovered | app/report_logic.py:93-97 | with the always-open rules in a fixed-offset zone, the dates from that of `start` through `d` cover the window from `start` to the end of date `d` |
| Business.AlwaysOpenWindowTime | app/report_logic.py:89-104 | with the always-open rules in a fixed-offset zone, a window's business time is its whole length, unless the window ends less than a second after a local midnight |
| Business.BusinessIntervalsOrigin | app/report_logic.py:89-104 | a window's business interval is exactly a non-empty overlap of the window with a part of a rule whose weekday is that of a local date in the expanded range |
| Metrics.MaxTimestamp | app/report_logic.py:17 | the maximum is one of the timestamps and at least every one of them |
| Metrics.GetNow | app/report_logic.py:16-20 | with no observations, `now` is the given clock; otherwise it is the latest observation timestamp |
| Metrics.AtOrBefore | app/report_logic.py:49-50 | the filter keeps exactly the stored observations at or before `end`, never more than were stored |
| Metrics.InsertByTs | app/report_logic.py:51 | inserting into an ascending sequence keeps it ascending and adds exactly the one observation |
| Metrics.SortByTs | app/report_logic.py:51 | the ordering gives an ascending permutation of the rows |
| Metrics.FetchStatusPoints | app/report_logic.py:46-54 | the fetch is ascending and a permutation of the observations at or before `end`; an observation is fetched exactly when it is stored and at or before `end` |
| Metrics.FetchKeepsOrder | app/report_logic.py:51 | already ascending rows are fetched in their stored order, filtered |
| Metrics.WindowLength | app/report_logic.py:39-44 | every window has a positive length |
| Metrics.WindowRanges | app/report_logic.py:39-44 | three windows, last hour, day and week in that order; each ends at `now` and starts its length before it |
| Metrics.WindowsNested | app/report_logic.py:39-44 | the week starts before the day, which starts before the hour, which starts before `now` |
| Metrics.UnitOf | app/report_logic.py:132-137 | the last hour is reported in minutes, every other window in hours |
| Metrics.UnitLength | app/report_logic.py:133-137 | a unit has a positive length in microseconds |
| Metrics.ReportedUp | app/report_logic.py:133-136 | the reported up time is the number of the window's units (minutes or hours) in the up time, and is never negative |
| Metrics.ReportedDown | app/report_logic.py:134-137 | the reported down time is the number of the window's units in the down time, and is never negative |
| Metrics.FullUpReport | app/report_logic.py:132-137 | a window up for its whole length is reported as 60 minutes, 24 hours or 168 hours up and 0 down |
| Metrics.AlwaysOpenActiveReport | app/report_logic.py:121-137 | an always-open store in a fixed-offset zone whose observations are all active is reported up for the whole window (60 minutes, 24 hours, 168 hours) and 0 down, unless the window ends less than a second after a local midnight |
| Metrics.FiguresTotals | app/report_logic.py:127-130 | a window's figures carry its key and unit, add up to its business time, and have no down time when every observation is active |
| Metrics.FullWindowReport | app/report_logic.py:132-137 | when business hours cover a whole window, the reported up and down add up to 60 minutes, 24 hours or 168 hours |
| Metrics.WindowSums | app/report_logic.py:127-130 | for one window, up plus down equals the business time; with no observations there is no up time; when all observations are active there is no down time |
| Metrics.WindowFigures | app/report_logic.py:127-137 | a zone or hours lookup failure raises its error; otherwise the window's up and down are the `sum_overlap` totals of a reconstruction of the window with its business intervals, up plus down is the business time, there is no up time without observations and no down time when every observation is active |
| Metrics.FiguresDetermined | app/report_logic.py:127-130 | for ascending observations, a window's figures are determined: two results that both satisfy `FiguresHold` are equal |
| Metrics.AllFiguresSnoc | app/report_logic.py:125-137 | appending one window's figures to the figures of the windows before it keeps every row's figures correct |
| Metrics.ComputeStoreMetrics | app/report_logic.py:121-139 | a failed zone or hours lookup aborts the report with that error. Otherwise there are three rows in window order, each holding the `sum_overlap` totals of the reconstruction of its window from the fetched (ascending) observations; so each row's up plus down is the window's business time, with no up time without observations and no down time when every observation is active |

## Left out

- I/O and the database. The SQL queries, the SQLAlchemy session and the ORM
  models are not part of this model. Their results are parameters: all
  observation timestamps for `get_now`, the store's observation rows for
  `fetch_status_points`, the stored zone name and the business-hours records.
- The wall clock read by `get_now` when there are no observations. It is the
  parameter `clock`.
- The pytz zone database, daylight-saving rules and `localize`'s handling of
  ambiguous and non-existent local times. They are abstracted as the
  functions of `Zone` and the lookup `db`.
- Floating point. Durations are exact integers of microseconds rather than
  float seconds.
- ReportedUp: gives the exact quotient as a real number. It does not model the
  float division or `round(..., 2)` of the report (`app/report_logic.py:133-137`).
- ReportedDown: the same as `ReportedUp`, for the down time.
- ParseInt: accepts an optional sign followed by ASCII digits only. Python's
  `int()` also accepts surrounding whitespace, underscores between digits and
  non-ASCII digits.
- ParseHhmmss: does not model a non-string argument, on which `s.split(":")`
  raises `AttributeError` (`app/report_logic.py:13`). The database column
  always holds strings.
- The range limits of Python's `datetime` (years 1 to 9999) and the resulting
  `OverflowError`s. Instants are unbounded integers.
- UtilsTime.SplitIntoDaysUtc: gives `start` one fixed UTC offset, as a
  pytz-localized datetime has. A `tzinfo` whose offset changes before the
  first midnight is not modelled.
- The `store_id` entry of the result dictionary and its key names. The model
  returns the three windows' figures as a sequence in the dictionary's
  insertion order (hour, day, week).
- Timeline.InterpolateSegments: states that the segments carry the reference
  status, and that the cuts are exactly the observed timestamps, only for
  ascending observations. That is the order the query guarantees. For any
  order it states the tiling, that cuts are observation timestamps and that
  statuses are observed.
- The order of observations with equal timestamps. The query orders by
  timestamp only, so the database chooses the order of ties; `SortByTs` keeps
  their stored order.
- The lower bound that `compute_store_metrics` passes to
  `fetch_status_points`, because the query does not use it.
