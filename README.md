# Store uptime/downtime report: verified model of the core

This project models, in Dafny, the part of the store-monitoring service that
computes each store's uptime and downtime during business hours. Stores report
sparse "active"/"inactive" status observations. Every store has a weekly
schedule of business hours (menu hours) and a timezone. The report gives, for
each store, uptime and downtime over the last hour, the last day and the last
week before one reference instant. That instant is the latest status timestamp
in the whole table.

It has two parts, one Dafny module each:

- `TimeUtils` (`time_utils.dfy`) models `get_operating_intervals_within_window`.
  It fixes the three windows `[now - 1 h, now]`, `[now - 1 day, now]` and
  `[now - 7 days, now]`. For each window and each menu row, it walks UTC
  calendar dates backwards from the window end's date to the window start's.
  On a date whose weekday matches the row, it rebuilds the row's hours in the
  store zone, clips them to the window and keeps them if they are non-empty.
  The method `OperatingIntervals` and its helpers are imperative. They are
  proved equal to the specification function `WindowIntervals`, and the
  lemmas are stated about that function.
- `ReportGenerator` (`report_generator.dfy`) models `compute_uptime_downtime`.
  It takes the reference instant from the whole status table and applies the
  defaults: America/Chicago, and seven rows of 00:00:00–23:59:59. It lays a
  5-minute grid over every interval and forward-fills the ordered
  observations onto it. Matching grid points count 5 minutes each, and the
  totals are summed per window. Last-hour totals are reported in minutes. Day
  and week totals are reported in hours to two decimals, held as integer
  hundredths. The loops are methods proved equal to specification functions:
  `ComputeUptimeDowntime` to `Report`, `ProcessStores` to `ReportsFrom`,
  `Interpolate` to `StoreRecord` and `WindowTotals` to `WindowMinutes`.
- `Results` (`results.dfy`) holds `Option` and `Result`.

Representation:

- Instants are whole seconds since the epoch. Dates are day numbers with
  `Weekday(d) = (d + 3) % 7`, so Monday is 0.
- A timezone is a `Zone`, a total function from a local date and a wall-clock
  time to the UTC instant. It stands for pytz `localize` followed by
  `astimezone(utc)`. The zone table is a map from IANA names to zones, and a
  missing name is the `UnknownTimezone` failure that pytz raises.
- The query results are a `Database` value: the distinct store ids, each
  store's status rows ordered by timestamp, its first timezone row and its
  menu rows. The model takes each store's rows to be strictly increasing
  in whole seconds; see "## Left out" for rows within the same second.
- A status is `Active`, `Inactive` or `Other(text)` for any other string, as
  `StatusOf` reads it from the row's status string.

The code converts times twice, and the model keeps both steps. First the menu
frame turns each local time into a UTC instant on the reference date
(`MenuFrame`). Then the expander takes that instant's UTC time of day as a
local time and localizes it again (`OnDate`).
Only the time of day of the first conversion survives, so both times wrap
modulo a day (`FixedOffsetRebuild`). Consequences, proved for zones at a
fixed offset:

- in any zone at a fixed non-zero offset, the default schedule produces no
  interval at all (`DefaultScheduleYieldsNoInterval`);
- an overnight local rule can survive: at UTC-6 a 23:00–01:00 rule is
  rebuilt as 11:00–13:00 UTC (`OvernightRuleSurvives`);
- an ordinary rule can come back inverted: at UTC-6 a 17:00–20:00 rule is
  rebuilt with its end before its start, and so yields nothing
  (`EveningRuleInverted`).

The model keeps these behaviours of the code:

- the date walk uses UTC dates;
- an unknown timezone name makes the whole run fail; there is no fallback;
- a rule whose rebuilt end is not after its rebuilt start yields nothing and
  raises no error (`InvertedRowEmitsNothing`); which local rules end up
  inverted depends on the double conversion above;
- a failure in one store aborts the whole run;
- the grid of any interval with start ≤ end has at least one point. It runs
  from the start to the last 5-minute step not after the end, so a whole
  hour has 13 points (`WholeHourCountsSixtyFive`);
- the "skip store without status rows" test (`report_generator.py:88`) tests
  the query object, so it never fires. Every listed store has rows anyway, so
  the model has no such branch.

## Model

| member | source | states |
|---|---|---|
| TimeUtils.WindowStart | src/utils/time_utils.py:32-36 | The window start is before the reference instant by exactly 1 hour, 24 hours or 7 days; every window ends at the reference instant. |
| TimeUtils.OperatingIntervals | src/utils/time_utils.py:10-66 | The result has exactly the keys last_hour, last_day and last_week. Each list is the rule-by-rule, date-by-date expansion `WindowIntervals` of its window. |
| TimeUtils.CollectWindow | src/utils/time_utils.py:43-61 | One window's list is the concatenation, in menu order, of every rule's date walk. Every interval in it is non-empty and lies inside the window. |
| TimeUtils.WalkDates | src/utils/time_utils.py:49-61 | The backward date walk appends exactly the row's non-empty clipped intervals for the dates from the end's UTC date down to the start's. It terminates because the date drops by one each step. |
| TimeUtils.RowIntervalsInWindow | src/utils/time_utils.py:55-60 | Every interval a rule yields has start < end and lies within [window start, window end]. |
| TimeUtils.WindowIntervalsInWindow | src/utils/time_utils.py:43-60 | Every interval of a window's list has start < end and lies within the window. |
| TimeUtils.RowIntervalsMembership | src/utils/time_utils.py:49-60 | An interval comes out of a rule's walk exactly when, on some walked date with the rule's weekday, the rebuilt hours clip to it non-emptily. |
| TimeUtils.WindowIntervalsFromRules | src/utils/time_utils.py:43-61 | An interval is in a window's list exactly when some rule of the menu yields it. |
| TimeUtils.WindowIntervalsMembership | src/utils/time_utils.py:43-61 | An interval is in a window's list exactly when some rule, on some UTC date between the window start's and the window end's with that rule's weekday, clips to it non-emptily. |
| TimeUtils.RowIntervalsSkip | src/utils/time_utils.py:50-51 | Walked dates whose weekday is not the rule's add nothing. |
| TimeUtils.RowIntervalsAtMostWeekly | src/utils/time_utils.py:49-61 | A rule yields at most one interval per matching date, and at most (hi - lo) / 7 + 1 over the dates lo..hi. |
| TimeUtils.RowIntervalsPerWindow | src/utils/time_utils.py:32-51 | Per rule, the last hour and the last day get at most one interval each, and the last week at most two. |
| TimeUtils.RowIntervalsSplit | src/utils/time_utils.py:49-61 | Within a rule, intervals of later dates come before those of earlier dates, because the walk runs backwards. |
| TimeUtils.WindowIntervalsConcat | src/utils/time_utils.py:43-60 | A window's list for a menu is the list for its first rows followed by the list for the remaining rows. Rules stay in menu order and nothing is merged or deduplicated. |
| TimeUtils.InvertedRowEmitsNothing | src/utils/time_utils.py:52-60 | A rule whose rebuilt end never comes after its rebuilt start yields no interval, without an error. |
| ReportGenerator.LatestTimestamp | src/service/report_generator.py:52-54 | The reference instant is None exactly for an empty status table. Otherwise it is at least every store's every timestamp and equals one of them. |
| ReportGenerator.StoreTimezone | src/service/report_generator.py:63-64 | A store's zone name is its timezone row's, or America/Chicago when it has none. |
| ReportGenerator.DefaultMenuHours | src/service/report_generator.py:74-78 | The default schedule has seven rows, days 0 to 6, each from 00:00:00 to 23:59:59. |
| ReportGenerator.StoreMenuHours | src/service/report_generator.py:67-78 | A store uses its own menu rows when it has any, and the default schedule otherwise; either way the list is non-empty. |
| ReportGenerator.MenuFrame | src/service/report_generator.py:70-73 | The menu frame keeps one row per menu row, with the same weekday in the same order. |
| ReportGenerator.Grid | src/service/report_generator.py:115-118 | The grid is s, s + 5 min, …, up to the last point ≤ e, inclusive. It has (e - s) / 300 + 1 points when s ≤ e and none otherwise. |
| ReportGenerator.StatusOf | src/service/report_generator.py:91-94 | A status string reads as Active exactly when it is "active" and as Inactive exactly when it is "inactive"; any other string is kept as Other. |
| ReportGenerator.StatusRoundTrip | src/service/report_generator.py:91-94 | Reading a status string and writing it back gives the same string, and the statuses reading can produce are exactly those whose Other text is neither "active" nor "inactive". |
| ReportGenerator.LastAtOrBeforeIsLatest | src/service/report_generator.py:86-119 | Forward fill is empty exactly before the first observation. Otherwise it gives the status of the observation i with ts_i ≤ t < ts_(i+1). |
| ReportGenerator.CountStatus | src/service/report_generator.py:120-121 | A status count never exceeds the number of grid points. |
| ReportGenerator.ActivePlusInactiveAtMostGrid | src/service/report_generator.py:119-121 | Active and inactive counts together never exceed the grid size, so no point counts twice. |
| ReportGenerator.BeforeFirstObservationUncounted | src/service/report_generator.py:119-121 | Grid points before the first observation count toward neither uptime nor downtime. |
| ReportGenerator.OtherStatusUncounted | src/service/report_generator.py:119-121 | Points that carry forward a status other than "active" or "inactive" count toward neither uptime nor downtime. |
| ReportGenerator.CarriedForwardCounted | src/service/report_generator.py:119-121 | Points between observation i and the next all take i's status and are all counted for it. |
| ReportGenerator.WindowMinutesBound | src/service/report_generator.py:112-121 | Window uptime and downtime are multiples of 5. Together they are at most 5 × the total grid points of the window's intervals. |
| ReportGenerator.WindowMinutesAppend | src/service/report_generator.py:114-121 | Intervals are summed independently: the total over a + b is the total over a plus the total over b. |
| ReportGenerator.DuplicateIntervalCountedTwice | src/service/report_generator.py:114-121 | An interval listed twice, as overlapping rules produce, is counted twice. |
| ReportGenerator.WholeHourCountsSixtyFive | src/service/report_generator.py:115-121 | A whole-hour interval has 13 grid points. When the store's last observation is at or before the interval's start and is active, that interval contributes 65 minutes of uptime. |
| ReportGenerator.HoursHundredths | src/service/report_generator.py:127-128 | Day and week figures are the hundredth of an hour nearest to minutes / 60. No tie is possible. |
| ReportGenerator.StoreRecordLastHour | src/service/report_generator.py:123-125 | The record carries its store id. Last-hour fields are raw minutes, multiples of 5, and sum to at most 5 × the last-hour grid points. |
| ReportGenerator.DefaultHoursInverted | src/service/report_generator.py:74-78 | After the first conversion in a fixed non-zero offset, 23:59:59 comes back as the UTC time of day one second before that of 00:00:00. |
| ReportGenerator.FixedOffsetRebuild | src/service/report_generator.py:70-71 | In a fixed-offset zone, the twice-converted local time h on date d is d's midnight plus the time of day of h − offset, shifted by the offset again. |
| ReportGenerator.OvernightRuleSurvives | src/utils/time_utils.py:52-53 | At UTC-6, a local 23:00–01:00 rule is rebuilt as 11:00–13:00 UTC on every date, so it is not dropped. |
| ReportGenerator.EveningRuleInverted | src/utils/time_utils.py:52-53 | At UTC-6, a local 17:00–20:00 rule is rebuilt with its end before its start on every date. |
| ReportGenerator.DefaultScheduleYieldsNoInterval | src/service/report_generator.py:74-83 | Converted twice, the default schedule in any fixed non-zero offset zone yields no interval in any window. |
| ReportGenerator.ReportsFromFails | src/service/report_generator.py:60-83 | The store loop fails exactly when some store's timezone name is unknown. |
| ReportGenerator.ReportsFromFirstFailure | src/service/report_generator.py:60-72 | A failing loop reports the first store, in store order, with an unknown timezone name. |
| ReportGenerator.ReportsFromRecords | src/service/report_generator.py:59-132 | A successful loop returns one record per store, in store order, each that store's own outcome. |
| ReportGenerator.ReportFails | src/service/report_generator.py:47-54 | The run fails with NoStatusData exactly when the status table is empty. It fails at all exactly when, besides that, some store's zone name is unknown. |
| ReportGenerator.ReportRecords | src/service/report_generator.py:52-132 | A successful run returns one record per store, in order, with the store's id. Each is computed against the single corpus-wide latest timestamp. |
| ReportGenerator.WindowTotals | src/service/report_generator.py:111-121 | The interval loop accumulates exactly `WindowMinutes` for active and for inactive. |
| ReportGenerator.Interpolate | src/service/report_generator.py:105-128 | The record's six fields start at 0 and are all overwritten. The result is `StoreRecord`: raw minutes for the last hour, nearest hundredths of hours for the day and the week. |
| ReportGenerator.ProcessStore | src/service/report_generator.py:62-128 | One store's pass gives an unknown-zone failure, or the record built from its zone, schedule, expanded intervals and observations. |
| ReportGenerator.ProcessStores | src/service/report_generator.py:59-132 | The store loop equals `ReportsFrom`: records are appended in store order and the first failure ends the run. |
| ReportGenerator.ComputeUptimeDowntime | src/service/report_generator.py:42-136 | The whole computation equals `Report`: NoStatusData on an empty table, otherwise the store loop at the reference instant. |

## Left out

- Database queries, FastAPI routes, CSV upload and report writing, report status updates and logging are left out. The core receives query results as a `Database` value and returns records; nothing is written anywhere.
- Timezone rules are left out. pytz's offsets, DST transitions and its handling of ambiguous or non-existent local times are abstracted into the `Zone` function. Only the double-conversion lemmas `FixedOffsetRebuild`, `DefaultHoursInverted`, `DefaultScheduleYieldsNoInterval`, `OvernightRuleSurvives` and `EveningRuleInverted` fix a concrete zone, one at a constant offset.
- Parsing is left out. `strptime` of timestamps and of menu times, and the string ordering of timestamps in SQL, are not modelled. Timestamps are integers and menu times are seconds of the day.
- Sub-second precision is left out. Status timestamps carry microseconds, while the model's instants are whole seconds. The (store, timestamp) uniqueness constraint makes a store's rows distinct only at microsecond precision, so the code accepts two rows of one store within the same second. `ValidDatabase` requires each store's rows to be strictly increasing in whole seconds, so it excludes such rows.
- Floating point is left out. `round(x / 60, 2)` is replaced by exact integer hundredths, which agree with it because no tie occurs.
- Integer width is left out. numpy integer counts are modelled as unbounded naturals.
- ReportGenerator.MenuFrame: its contract states only the row count and weekdays. The converted times are used, and stated, through `DefaultScheduleYieldsNoInterval`.
- Errors other than an empty status table and an unknown timezone name are left out, for example a failing database connection.
