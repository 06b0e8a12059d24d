/**
 * The observation aggregator of src/service/report_generator.py
 * (compute_uptime_downtime): one reference instant for the whole corpus,
 * per-store timezone and schedule defaults, a 5-minute grid over every
 * business interval, forward-filled status counts, and the six figures of
 * each store's record.
 */
module ReportGenerator {
  import opened Results
  import opened TimeUtils

  /** The spacing of the grid laid over each interval: five minutes, in seconds. */
  const STEP := 300
  /** Minutes credited per grid point. */
  const STEP_MINUTES := 5
  const DEFAULT_TIMEZONE := "America/Chicago"
  const MIDNIGHT: TimeOfDay := 0
  const LAST_SECOND: TimeOfDay := 86399

  type StoreId = string

  /** A status string; anything but "active" and "inactive" counts towards neither figure. */
  datatype Status = Active | Inactive | Other(text: string)

  /** The status a row's status string stands for. */
  function StatusOf(text: string): (st: Status)
    ensures st == Active <==> text == "active"
    ensures st == Inactive <==> text == "inactive"
  {
    if text == "active" then Active
    else if text == "inactive" then Inactive
    else Other(text)
  }

  /** The status string a status stands for. */
  function StatusText(st: Status): string
  {
    match st
    case Active => "active"
    case Inactive => "inactive"
    case Other(text) => text
  }

  /** A status that reading some status string produces. */
  predicate ParsedStatus(st: Status)
  {
    StatusOf(StatusText(st)) == st
  }

  /**
   * Reading a status string loses nothing, and the statuses reading can
   * produce are exactly those whose Other text is neither counted string.
   */
  lemma StatusRoundTrip(text: string, st: Status)
    ensures StatusText(StatusOf(text)) == text
    ensures ParsedStatus(StatusOf(text))
    ensures ParsedStatus(st) <==> (st.Other? ==> st.text != "active" && st.text != "inactive")
  {
  }

  datatype Observation = Observation(ts: Instant, status: Status)

  /** A menu_hour row: weekday and local opening and closing times. */
  datatype MenuHour = MenuHour(dayOfWeek: int, startLocal: TimeOfDay, endLocal: TimeOfDay)

  /**
   * What the queries of compute_uptime_downtime return: the distinct store
   * ids of the status table, each store's status rows ordered by timestamp,
   * the first timezone row of each store that has one, and each store's
   * menu rows.
   */
  datatype Database = Database(
    storeIds: seq<StoreId>,
    statusLogs: map<StoreId, seq<Observation>>,
    timezones: map<StoreId, string>,
    menuHours: map<StoreId, seq<MenuHour>>)

  predicate StrictlyIncreasing(obs: seq<Observation>)
  {
    forall i, j :: 0 <= i < j < |obs| ==> obs[i].ts < obs[j].ts
  }

  /**
   * The store ids are distinct and are exactly the stores with status rows;
   * each store's rows are non-empty and are assumed strictly increasing in
   * whole seconds (the source's timestamps carry microseconds, so it also
   * accepts two rows within one second; README "## Left out" says so);
   * every status is what StatusOf reads from some status string.
   */
  ghost predicate ValidDatabase(db: Database)
  {
    && (forall i, j :: 0 <= i < j < |db.storeIds| ==> db.storeIds[i] != db.storeIds[j])
    && (forall id :: id in db.storeIds <==> id in db.statusLogs)
    && (forall id :: id in db.statusLogs ==> db.statusLogs[id] != [] && StrictlyIncreasing(db.statusLogs[id]))
    && (forall id, k :: id in db.statusLogs && 0 <= k < |db.statusLogs[id]| ==> ParsedStatus(db.statusLogs[id][k].status))
  }

  /** The IANA zones pytz knows, by name. */
  type TzDatabase = map<string, Zone>

  datatype ReportError =
    | NoStatusData                   // the latest-timestamp query returned no row
    | UnknownTimezone(name: string)  // pytz.timezone rejected the store's zone name

  datatype StoreReport = StoreReport(
    storeId: StoreId,
    uptimeLastHour: int,     // minutes
    uptimeLastDay: int,      // hundredths of an hour
    uptimeLastWeek: int,     // hundredths of an hour
    downtimeLastHour: int,   // minutes
    downtimeLastDay: int,    // hundredths of an hour
    downtimeLastWeek: int)   // hundredths of an hour

  // ---------------------------------------------------------------------
  // Reference instant

  /** The latest timestamp of one store's rows. */
  function LatestIn(obs: seq<Observation>): (t: Instant)
    requires obs != []
    ensures forall j :: 0 <= j < |obs| ==> obs[j].ts <= t
    ensures exists j :: 0 <= j < |obs| && obs[j].ts == t
  {
    if |obs| == 1 then obs[0].ts
    else
      var rest := LatestIn(obs[1..]);
      assert forall j :: 1 <= j < |obs| ==> obs[j] == obs[1..][j - 1];
      if obs[0].ts < rest then rest else obs[0].ts
  }

  /**
   * The timestamp of the first row of the status table ordered by timestamp
   * descending: the latest timestamp of any store, or None for an empty table.
   */
  function LatestTimestamp(ids: seq<StoreId>, logs: map<StoreId, seq<Observation>>): (r: Option<Instant>)
    requires forall id :: id in ids ==> id in logs && logs[id] != []
    ensures r.None? <==> ids == []
    ensures r.Some? ==> forall k, j :: 0 <= k < |ids| && 0 <= j < |logs[ids[k]]| ==> logs[ids[k]][j].ts <= r.value
    ensures r.Some? ==> exists k, j :: 0 <= k < |ids| && 0 <= j < |logs[ids[k]]| && logs[ids[k]][j].ts == r.value
  {
    if ids == [] then None
    else
      var here := LatestIn(logs[ids[0]]);
      var rest := LatestTimestamp(ids[1..], logs);
      assert forall k :: 1 <= k < |ids| ==> ids[k] == ids[1..][k - 1];
      if rest.Some? && here < rest.value then rest else Some(here)
  }

  // ---------------------------------------------------------------------
  // Timezone and schedule defaults

  /** The store's timezone name, America/Chicago when it has no timezone row. */
  function StoreTimezone(db: Database, id: StoreId): (tz: string)
    ensures id in db.timezones ==> tz == db.timezones[id]
    ensures id !in db.timezones ==> tz == DEFAULT_TIMEZONE
  {
    if id in db.timezones then db.timezones[id] else DEFAULT_TIMEZONE
  }

  /** The schedule used for a store without menu rows: every weekday, 00:00:00 to 23:59:59. */
  function DefaultMenuHours(): (hours: seq<MenuHour>)
    ensures |hours| == 7
    ensures forall i :: 0 <= i < 7 ==> hours[i] == MenuHour(i, MIDNIGHT, LAST_SECOND)
  {
    seq(7, i => MenuHour(i, MIDNIGHT, LAST_SECOND))
  }

  /** The store's menu rows, or the default schedule when it has none. */
  function StoreMenuHours(db: Database, id: StoreId): (hours: seq<MenuHour>)
    ensures hours != []
    ensures id in db.menuHours && db.menuHours[id] != [] ==> hours == db.menuHours[id]
    ensures !(id in db.menuHours && db.menuHours[id] != []) ==> hours == DefaultMenuHours()
  {
    if id in db.menuHours && db.menuHours[id] != [] then db.menuHours[id] else DefaultMenuHours()
  }

  /**
   * menu_df: each row's local times, placed on the reference date (a UTC
   * date), localized in the store's zone and converted to UTC instants.
   */
  function MenuFrame(hours: seq<MenuHour>, zone: Zone, refDate: Date): (rows: seq<MenuRow>)
    ensures |rows| == |hours|
    ensures forall i :: 0 <= i < |hours| ==> rows[i].dayOfWeek == hours[i].dayOfWeek
  {
    seq(|hours|, i requires 0 <= i < |hours| =>
      MenuRow(hours[i].dayOfWeek, zone(refDate, hours[i].startLocal), zone(refDate, hours[i].endLocal)))
  }

  // ---------------------------------------------------------------------
  // Grid, forward fill and counting

  /**
   * The 5-minute grid over [s, e]: s, s + 5 min, ... up to the last point
   * not after e; empty exactly when s > e.
   */
  function Grid(s: Instant, e: Instant): (r: seq<Instant>)
    ensures |r| == if s <= e then (e - s) / STEP + 1 else 0
    ensures forall i :: 0 <= i < |r| ==> r[i] == s + STEP * i && r[i] <= e
    ensures |r| > 0 ==> e < r[|r| - 1] + STEP
    decreases e - s + 1
  {
    if s > e then [] else [s] + Grid(s + STEP, e)
  }

  /**
   * Forward fill at t: the status of the last observation at or before t,
   * or None when there is none.
   */
  function LastAtOrBefore(obs: seq<Observation>, t: Instant): Option<Status>
  {
    if obs == [] then None
    else if obs[|obs| - 1].ts <= t then Some(obs[|obs| - 1].status)
    else LastAtOrBefore(obs[..|obs| - 1], t)
  }

  /** The number of grid points whose forward-filled status is st. */
  function CountStatus(obs: seq<Observation>, grid: seq<Instant>, st: Status): (n: nat)
    ensures n <= |grid|
  {
    if grid == [] then 0
    else (if LastAtOrBefore(obs, grid[0]) == Some(st) then 1 else 0) + CountStatus(obs, grid[1..], st)
  }

  /** Minutes an interval contributes for status st: five per grid point with that status. */
  function IntervalMinutes(obs: seq<Observation>, iv: Interval, st: Status): nat
  {
    STEP_MINUTES * CountStatus(obs, Grid(iv.start, iv.end), st)
  }

  /** The window total: every interval's minutes, summed in list order. */
  function WindowMinutes(obs: seq<Observation>, ivs: seq<Interval>, st: Status): nat
  {
    if ivs == [] then 0
    else WindowMinutes(obs, ivs[..|ivs| - 1], st) + IntervalMinutes(obs, ivs[|ivs| - 1], st)
  }

  /** The number of grid points over all of a window's intervals. */
  function GridPoints(ivs: seq<Interval>): nat
  {
    if ivs == [] then 0 else GridPoints(ivs[..|ivs| - 1]) + |Grid(ivs[|ivs| - 1].start, ivs[|ivs| - 1].end)|
  }

  /**
   * round(minutes / 60, 2) in hundredths of an hour: the integer nearest to
   * 100 * minutes / 60 (never a tie, as 3 divides the denominator).
   */
  function HoursHundredths(minutes: nat): (h: nat)
    ensures 3 * h - 1 <= 5 * minutes <= 3 * h + 1
  {
    (5 * minutes + 1) / 3
  }

  /**
   * Forward fill picks the latest observation at or before t: it is None
   * exactly when t precedes every observation, and otherwise the status of
   * the observation i with obs[i].ts <= t < obs[i + 1].ts (or i the last).
   */
  lemma {:induction false} LastAtOrBeforeIsLatest(obs: seq<Observation>, t: Instant, i: int)
    requires StrictlyIncreasing(obs)
    ensures LastAtOrBefore(obs, t).None? <==> (obs == [] || t < obs[0].ts)
    ensures 0 <= i < |obs| && obs[i].ts <= t && (i == |obs| - 1 || t < obs[i + 1].ts)
            ==> LastAtOrBefore(obs, t) == Some(obs[i].status)
    decreases |obs|
  {
    if obs != [] {
      var n := |obs| - 1;
      var init := obs[..n];
      assert StrictlyIncreasing(init);
      if obs[n].ts > t {
        LastAtOrBeforeIsLatest(init, t, i);
        if n > 0 {
          assert init[0] == obs[0];
        }
        if 0 <= i < n {
          assert init[i] == obs[i];
          if i < n - 1 {
            assert init[i + 1] == obs[i + 1];
          }
        }
      }
    }
  }

  /** No grid point is counted both as active and as inactive. */
  lemma {:induction false} ActivePlusInactiveAtMostGrid(obs: seq<Observation>, grid: seq<Instant>)
    ensures CountStatus(obs, grid, Active) + CountStatus(obs, grid, Inactive) <= |grid|
    decreases |grid|
  {
    if grid != [] {
      ActivePlusInactiveAtMostGrid(obs, grid[1..]);
    }
  }

  /** Grid points before the first observation count towards neither uptime nor downtime. */
  lemma {:induction false} BeforeFirstObservationUncounted(obs: seq<Observation>, grid: seq<Instant>, st: Status)
    requires StrictlyIncreasing(obs)
    requires forall k :: 0 <= k < |grid| ==> obs == [] || grid[k] < obs[0].ts
    ensures CountStatus(obs, grid, st) == 0
    decreases |grid|
  {
    if grid != [] {
      LastAtOrBeforeIsLatest(obs, grid[0], 0);
      BeforeFirstObservationUncounted(obs, grid[1..], st);
    }
  }

  /**
   * Grid points that all fall between observation i and the next one take
   * observation i's status: every point counts for that status.
   */
  lemma {:induction false} CarriedForwardCounted(obs: seq<Observation>, grid: seq<Instant>, i: int)
    requires StrictlyIncreasing(obs)
    requires 0 <= i < |obs|
    requires forall k :: 0 <= k < |grid| ==> obs[i].ts <= grid[k] && (i == |obs| - 1 || grid[k] < obs[i + 1].ts)
    ensures CountStatus(obs, grid, obs[i].status) == |grid|
    decreases |grid|
  {
    if grid != [] {
      LastAtOrBeforeIsLatest(obs, grid[0], i);
      CarriedForwardCounted(obs, grid[1..], i);
    }
  }

  /**
   * Grid points whose carried-forward status is neither "active" nor
   * "inactive" count towards neither uptime nor downtime.
   */
  lemma {:induction false} OtherStatusUncounted(obs: seq<Observation>, grid: seq<Instant>, i: int)
    requires StrictlyIncreasing(obs)
    requires 0 <= i < |obs| && obs[i].status.Other?
    requires forall k :: 0 <= k < |grid| ==> obs[i].ts <= grid[k] && (i == |obs| - 1 || grid[k] < obs[i + 1].ts)
    ensures CountStatus(obs, grid, Active) == 0 && CountStatus(obs, grid, Inactive) == 0
    decreases |grid|
  {
    if grid != [] {
      LastAtOrBeforeIsLatest(obs, grid[0], i);
      OtherStatusUncounted(obs, grid[1..], i);
    }
  }

  /**
   * A window's totals are multiples of five minutes, and uptime plus
   * downtime is at most five minutes per grid point of its intervals.
   */
  lemma {:induction false} WindowMinutesBound(obs: seq<Observation>, ivs: seq<Interval>)
    ensures WindowMinutes(obs, ivs, Active) % STEP_MINUTES == 0
    ensures WindowMinutes(obs, ivs, Inactive) % STEP_MINUTES == 0
    ensures WindowMinutes(obs, ivs, Active) + WindowMinutes(obs, ivs, Inactive) <= STEP_MINUTES * GridPoints(ivs)
    decreases |ivs|
  {
    if ivs != [] {
      var last := ivs[|ivs| - 1];
      WindowMinutesBound(obs, ivs[..|ivs| - 1]);
      ActivePlusInactiveAtMostGrid(obs, Grid(last.start, last.end));
    }
  }

  /**
   * Intervals are summed independently: the total over two lists is the sum
   * of their totals, so an instant shared by overlapping intervals is
   * counted once per interval.
   */
  lemma {:induction false} WindowMinutesAppend(obs: seq<Observation>, a: seq<Interval>, b: seq<Interval>, st: Status)
    ensures WindowMinutes(obs, a + b, st) == WindowMinutes(obs, a, st) + WindowMinutes(obs, b, st)
    decreases |b|
  {
    if b == [] {
      assert a + b == a;
    } else {
      assert (a + b)[..|a + b| - 1] == a + b[..|b| - 1];
      WindowMinutesAppend(obs, a, b[..|b| - 1], st);
    }
  }

  /** The same interval listed twice is counted twice. */
  lemma DuplicateIntervalCountedTwice(obs: seq<Observation>, iv: Interval, st: Status)
    ensures WindowMinutes(obs, [iv, iv], st) == 2 * WindowMinutes(obs, [iv], st)
  {
    WindowMinutesAppend(obs, [iv], [iv], st);
    assert [iv] + [iv] == [iv, iv];
  }

  /**
   * A whole-hour interval's grid includes both ends: it has 13 points, so
   * when the store's last observation is active and at or before the
   * interval's start, the interval is credited 65 minutes.
   */
  lemma WholeHourCountsSixtyFive(obs: seq<Observation>, now: Instant)
    requires StrictlyIncreasing(obs) && obs != []
    requires obs[|obs| - 1].ts <= now - ONE_HOUR && obs[|obs| - 1].status == Active
    ensures IntervalMinutes(obs, Interval(now - ONE_HOUR, now), Active) == 65
  {
    var grid := Grid(now - ONE_HOUR, now);
    assert |grid| == 13;
    CarriedForwardCounted(obs, grid, |obs| - 1);
  }

  /** The intervals the expander produced for window w; none when the window is missing. */
  function IntervalsOf(windows: map<Window, seq<Interval>>, w: Window): seq<Interval>
  {
    if w in windows then windows[w] else []
  }

  /** How a window's minute total is reported: raw for the last hour, in hours otherwise. */
  function Reported(w: Window, minutes: nat): nat
  {
    if w == LastHour then minutes else HoursHundredths(minutes)
  }

  /** The record of one store, given its observations and its intervals per window. */
  function StoreRecord(id: StoreId, obs: seq<Observation>, windows: map<Window, seq<Interval>>): StoreReport
  {
    StoreReport(id,
      Reported(LastHour, WindowMinutes(obs, IntervalsOf(windows, LastHour), Active)),
      Reported(LastDay, WindowMinutes(obs, IntervalsOf(windows, LastDay), Active)),
      Reported(LastWeek, WindowMinutes(obs, IntervalsOf(windows, LastWeek), Active)),
      Reported(LastHour, WindowMinutes(obs, IntervalsOf(windows, LastHour), Inactive)),
      Reported(LastDay, WindowMinutes(obs, IntervalsOf(windows, LastDay), Inactive)),
      Reported(LastWeek, WindowMinutes(obs, IntervalsOf(windows, LastWeek), Inactive)))
  }

  /** The expander's result for a store's zone and schedule at the reference instant. */
  function ExpectedWindows(zone: Zone, menu: seq<MenuRow>, now: Instant): map<Window, seq<Interval>>
  {
    map[LastHour := WindowIntervals(zone, menu, WindowStart(LastHour, now), now),
        LastDay := WindowIntervals(zone, menu, WindowStart(LastDay, now), now),
        LastWeek := WindowIntervals(zone, menu, WindowStart(LastWeek, now), now)]
  }

  /** Prefix finished records to the outcome of the remaining stores. */
  function Prepend(done: seq<StoreReport>, rest: Result<seq<StoreReport>, ReportError>): Result<seq<StoreReport>, ReportError>
  {
    match rest
    case Success(rs) => Success(done + rs)
    case Failure(e) => Failure(e)
  }

  /** One store's record, or the failure raised while resolving its timezone. */
  function StoreOutcome(db: Database, tzdb: TzDatabase, now: Instant, id: StoreId): Result<StoreReport, ReportError>
    requires id in db.statusLogs
  {
    var tz := StoreTimezone(db, id);
    if tz !in tzdb then Failure(UnknownTimezone(tz))
    else
      var zone := tzdb[tz];
      var menu := MenuFrame(StoreMenuHours(db, id), zone, DateOf(now));
      Success(StoreRecord(id, db.statusLogs[id], ExpectedWindows(zone, menu, now)))
  }

  /** The records of the stores ids in order, or the first store's failure. */
  function ReportsFrom(db: Database, tzdb: TzDatabase, now: Instant, ids: seq<StoreId>): Result<seq<StoreReport>, ReportError>
    requires forall id :: id in ids ==> id in db.statusLogs
  {
    if ids == [] then Success([])
    else
      match StoreOutcome(db, tzdb, now, ids[0])
      case Failure(e) => Failure(e)
      case Success(rec) => Prepend([rec], ReportsFrom(db, tzdb, now, ids[1..]))
  }

  /** What compute_uptime_downtime returns or raises. */
  function Report(db: Database, tzdb: TzDatabase): Result<seq<StoreReport>, ReportError>
    requires ValidDatabase(db)
  {
    match LatestTimestamp(db.storeIds, db.statusLogs)
    case None => Failure(NoStatusData)
    case Some(now) => ReportsFrom(db, tzdb, now, db.storeIds)
  }

  /** The six figures of a store's record: last-hour minutes are multiples of five bounded by the grid. */
  lemma StoreRecordLastHour(id: StoreId, obs: seq<Observation>, windows: map<Window, seq<Interval>>)
    ensures StoreRecord(id, obs, windows).storeId == id
    ensures StoreRecord(id, obs, windows).uptimeLastHour % STEP_MINUTES == 0
    ensures StoreRecord(id, obs, windows).downtimeLastHour % STEP_MINUTES == 0
    ensures StoreRecord(id, obs, windows).uptimeLastHour + StoreRecord(id, obs, windows).downtimeLastHour
            <= STEP_MINUTES * GridPoints(IntervalsOf(windows, LastHour))
  {
    WindowMinutesBound(obs, IntervalsOf(windows, LastHour));
  }

  /** A zone at a fixed offset east of UTC, in seconds: UTC is local time minus the offset. */
  function FixedOffsetZone(offset: int): Zone
  {
    (d: Date, t: TimeOfDay) => d * SECONDS_PER_DAY + t - offset
  }

  /**
   * In a fixed-offset zone the two conversions rebuild a local time h as the
   * instant on date d whose time of day is that of h - offset, shifted by
   * the offset once more: only the time of day of the first conversion
   * survives.
   */
  lemma FixedOffsetRebuild(offset: int, h: MenuHour, refDate: Date, d: Date)
    ensures var zone := FixedOffsetZone(offset);
            OnDate(zone, MenuFrame([h], zone, refDate)[0], d)
            == Interval(d * SECONDS_PER_DAY + TimeOf(h.startLocal - offset) - offset,
                        d * SECONDS_PER_DAY + TimeOf(h.endLocal - offset) - offset)
  {
    TimeOfShift(refDate, h.startLocal - offset);
    TimeOfShift(refDate, h.endLocal - offset);
  }

  /** At UTC-6, a local 23:00-01:00 rule survives as 11:00-13:00 UTC on every date. */
  lemma OvernightRuleSurvives(w: int, refDate: Date, d: Date)
    ensures var zone := FixedOffsetZone(-6 * ONE_HOUR);
            OnDate(zone, MenuFrame([MenuHour(w, 23 * ONE_HOUR, ONE_HOUR)], zone, refDate)[0], d)
            == Interval(d * SECONDS_PER_DAY + 11 * ONE_HOUR, d * SECONDS_PER_DAY + 13 * ONE_HOUR)
  {
    FixedOffsetRebuild(-6 * ONE_HOUR, MenuHour(w, 23 * ONE_HOUR, ONE_HOUR), refDate, d);
  }

  /** At UTC-6, a local 17:00-20:00 rule comes back inverted on every date, so it yields nothing. */
  lemma EveningRuleInverted(w: int, refDate: Date, d: Date)
    ensures var zone := FixedOffsetZone(-6 * ONE_HOUR);
            var iv := OnDate(zone, MenuFrame([MenuHour(w, 17 * ONE_HOUR, 20 * ONE_HOUR)], zone, refDate)[0], d);
            iv.end < iv.start
  {
    FixedOffsetRebuild(-6 * ONE_HOUR, MenuHour(w, 17 * ONE_HOUR, 20 * ONE_HOUR), refDate, d);
  }

  lemma TimeOfShift(days: int, t: int)
    ensures TimeOf(days * SECONDS_PER_DAY + t) == TimeOf(t)
  {
    var q := t / SECONDS_PER_DAY;
    assert t == q * SECONDS_PER_DAY + TimeOf(t);
    assert days * SECONDS_PER_DAY + t == (days + q) * SECONDS_PER_DAY + TimeOf(t);
  }

  /** In a fixed non-zero offset, 23:59:59 comes back one second of day before 00:00:00. */
  lemma DefaultHoursInverted(offset: int, refDate: Date)
    requires -SECONDS_PER_DAY < offset < SECONDS_PER_DAY && offset != 0
    ensures TimeOf(FixedOffsetZone(offset)(refDate, LAST_SECOND)) + 1 == TimeOf(FixedOffsetZone(offset)(refDate, MIDNIGHT))
  {
    TimeOfShift(refDate, -offset);
    TimeOfShift(refDate, LAST_SECOND - offset);
    if offset > 0 {
      assert TimeOf(-offset) == SECONDS_PER_DAY - offset;
      assert TimeOf(LAST_SECOND - offset) == LAST_SECOND - offset;
    } else {
      assert TimeOf(-offset) == -offset;
      assert TimeOf(LAST_SECOND - offset) == -offset - 1;
    }
  }

  /**
   * The default schedule converted twice: in any zone at a fixed non-zero
   * offset (America/Chicago in winter is -6 h), 00:00:00 and 23:59:59 land
   * on UTC times of day one second apart in the wrong order, so every date
   * rebuilds an inverted interval and no window receives any interval.
   */
  lemma DefaultScheduleYieldsNoInterval(offset: int, now: Instant, w: Window)
    requires -SECONDS_PER_DAY < offset < SECONDS_PER_DAY && offset != 0
    ensures WindowIntervals(FixedOffsetZone(offset), MenuFrame(DefaultMenuHours(), FixedOffsetZone(offset), DateOf(now)),
                            WindowStart(w, now), now) == []
  {
    var zone := FixedOffsetZone(offset);
    var menu := MenuFrame(DefaultMenuHours(), zone, DateOf(now));
    var ws := WindowStart(w, now);
    var r := WindowIntervals(zone, menu, ws, now);
    if r != [] {
      var iv := r[0];
      WindowIntervalsMembership(zone, menu, ws, now, iv);
      var j :| 0 <= j < |menu| && FromRule(zone, menu[j], ws, now, iv);
      var d :| DateOf(ws) <= d <= DateOf(now) && YieldsOn(zone, menu[j], ws, now, d, iv);
      var row := menu[j];
      assert row.start == zone(DateOf(now), MIDNIGHT) && row.end == zone(DateOf(now), LAST_SECOND);
      DefaultHoursInverted(offset, DateOf(now));
      assert false;
    }
  }

  lemma StoreOutcomeFails(db: Database, tzdb: TzDatabase, now: Instant, id: StoreId)
    requires id in db.statusLogs
    ensures StoreOutcome(db, tzdb, now, id).Failure? <==> StoreTimezone(db, id) !in tzdb
  {
  }

  lemma StoreOutcomeNamesStore(db: Database, tzdb: TzDatabase, now: Instant, id: StoreId)
    requires id in db.statusLogs
    ensures StoreOutcome(db, tzdb, now, id).Success? ==> StoreOutcome(db, tzdb, now, id).value.storeId == id
  {
  }

  lemma ReportsFromStep(db: Database, tzdb: TzDatabase, now: Instant, ids: seq<StoreId>)
    requires ids != [] && forall id :: id in ids ==> id in db.statusLogs
    ensures ReportsFrom(db, tzdb, now, ids).Failure? <==>
              StoreOutcome(db, tzdb, now, ids[0]).Failure? || ReportsFrom(db, tzdb, now, ids[1..]).Failure?
  {
  }

  /** The store loop fails exactly when some store's timezone name is unknown. */
  lemma {:induction false} ReportsFromFails(db: Database, tzdb: TzDatabase, now: Instant, ids: seq<StoreId>)
    requires forall id :: id in ids ==> id in db.statusLogs
    ensures ReportsFrom(db, tzdb, now, ids).Failure? <==> exists k :: 0 <= k < |ids| && StoreTimezone(db, ids[k]) !in tzdb
    decreases |ids|
  {
    if ids != [] {
      var rest := ids[1..];
      assert forall k :: 1 <= k < |ids| ==> ids[k] == rest[k - 1];
      ReportsFromFails(db, tzdb, now, rest);
      ReportsFromStep(db, tzdb, now, ids);
      StoreOutcomeFails(db, tzdb, now, ids[0]);
    }
  }

  /** When it fails, it reports the first store, in store order, whose timezone name is unknown. */
  lemma {:induction false} ReportsFromFirstFailure(db: Database, tzdb: TzDatabase, now: Instant, ids: seq<StoreId>)
    requires forall id :: id in ids ==> id in db.statusLogs
    requires ReportsFrom(db, tzdb, now, ids).Failure?
    ensures exists k :: 0 <= k < |ids| && ReportsFrom(db, tzdb, now, ids).error == UnknownTimezone(StoreTimezone(db, ids[k]))
                        && StoreTimezone(db, ids[k]) !in tzdb
                        && forall m :: 0 <= m < k ==> StoreTimezone(db, ids[m]) in tzdb
    decreases |ids|
  {
    var rest := ids[1..];
    if StoreTimezone(db, ids[0]) in tzdb {
      ReportsFromFirstFailure(db, tzdb, now, rest);
      var k :| 0 <= k < |rest| && ReportsFrom(db, tzdb, now, rest).error == UnknownTimezone(StoreTimezone(db, rest[k]))
               && StoreTimezone(db, rest[k]) !in tzdb
               && forall m :: 0 <= m < k ==> StoreTimezone(db, rest[m]) in tzdb;
      assert ids[k + 1] == rest[k];
      forall m | 0 <= m < k + 1
        ensures StoreTimezone(db, ids[m]) in tzdb
      {
        if m > 0 { assert ids[m] == rest[m - 1]; }
      }
    } else {
      assert ReportsFrom(db, tzdb, now, ids).error == UnknownTimezone(StoreTimezone(db, ids[0]));
    }
  }

  /** When it succeeds, it holds one record per store, in store order, each the store's own outcome. */
  lemma {:induction false} ReportsFromRecords(db: Database, tzdb: TzDatabase, now: Instant, ids: seq<StoreId>)
    requires forall id :: id in ids ==> id in db.statusLogs
    requires ReportsFrom(db, tzdb, now, ids).Success?
    ensures |ReportsFrom(db, tzdb, now, ids).value| == |ids|
    ensures forall k :: 0 <= k < |ids| ==> StoreOutcome(db, tzdb, now, ids[k]) == Success(ReportsFrom(db, tzdb, now, ids).value[k])
    decreases |ids|
  {
    if ids != [] {
      var rest := ids[1..];
      ReportsFromRecords(db, tzdb, now, rest);
      var rs := ReportsFrom(db, tzdb, now, ids).value;
      assert rs == [StoreOutcome(db, tzdb, now, ids[0]).value] + ReportsFrom(db, tzdb, now, rest).value;
      forall k | 0 <= k < |ids|
        ensures StoreOutcome(db, tzdb, now, ids[k]) == Success(rs[k])
      {
        if k > 0 { assert ids[k] == rest[k - 1] && rs[k] == ReportsFrom(db, tzdb, now, rest).value[k - 1]; }
      }
    }
  }

  /**
   * compute_uptime_downtime fails with NoStatusData exactly when the status
   * table is empty, and fails at all exactly when, besides, some store's
   * timezone name is unknown.
   */
  lemma ReportFails(db: Database, tzdb: TzDatabase)
    requires ValidDatabase(db)
    ensures Report(db, tzdb) == Failure(NoStatusData) <==> db.storeIds == []
    ensures Report(db, tzdb).Failure? <==> db.storeIds == [] || exists k :: 0 <= k < |db.storeIds| && StoreTimezone(db, db.storeIds[k]) !in tzdb
  {
    if db.storeIds != [] {
      var now := LatestTimestamp(db.storeIds, db.statusLogs).value;
      assert Report(db, tzdb) == ReportsFrom(db, tzdb, now, db.storeIds);
      ReportsFromFails(db, tzdb, now, db.storeIds);
      if Report(db, tzdb).Failure? {
        ReportsFromFirstFailure(db, tzdb, now, db.storeIds);
      }
    }
  }

  /**
   * Otherwise it returns one record per store, in store order, each computed
   * against the one latest timestamp of the whole status table.
   */
  lemma ReportRecords(db: Database, tzdb: TzDatabase)
    requires ValidDatabase(db)
    requires Report(db, tzdb).Success?
    ensures db.storeIds != []
    ensures |Report(db, tzdb).value| == |db.storeIds|
    ensures forall k :: 0 <= k < |db.storeIds| ==>
              Report(db, tzdb).value[k].storeId == db.storeIds[k]
              && StoreOutcome(db, tzdb, LatestTimestamp(db.storeIds, db.statusLogs).value, db.storeIds[k]) == Success(Report(db, tzdb).value[k])
  {
    var now := LatestTimestamp(db.storeIds, db.statusLogs).value;
    var ids := db.storeIds;
    assert forall id :: id in ids ==> id in db.statusLogs;
    var rs := Report(db, tzdb).value;
    assert Report(db, tzdb) == ReportsFrom(db, tzdb, now, ids);
    ReportsFromRecords(db, tzdb, now, ids);
    forall k | 0 <= k < |ids|
      ensures rs[k].storeId == ids[k]
    {
      StoreOutcomeNamesStore(db, tzdb, now, ids[k]);
    }
  }

  // ---------------------------------------------------------------------
  // The computation

  /**
   * The interval loop of one window: lay the grid over each interval and add
   * its forward-filled active and inactive minutes.
   */
  method WindowTotals(obs: seq<Observation>, ivs: seq<Interval>) returns (uptime: nat, downtime: nat)
    ensures uptime == WindowMinutes(obs, ivs, Active)
    ensures downtime == WindowMinutes(obs, ivs, Inactive)
  {
    uptime, downtime := 0, 0;
    for i := 0 to |ivs|
      invariant uptime == WindowMinutes(obs, ivs[..i], Active)
      invariant downtime == WindowMinutes(obs, ivs[..i], Inactive)
    {
      assert ivs[..i + 1][..i] == ivs[..i];
      var timeRange := Grid(ivs[i].start, ivs[i].end);
      if |timeRange| == 0 {
        continue;
      }
      uptime := uptime + CountStatus(obs, timeRange, Active) * STEP_MINUTES;
      downtime := downtime + CountStatus(obs, timeRange, Inactive) * STEP_MINUTES;
    }
    assert ivs[..|ivs|] == ivs;
  }

  /**
   * The per-store record: six fields that start at zero and are overwritten
   * window by window.
   */
  method Interpolate(id: StoreId, obs: seq<Observation>, windows: map<Window, seq<Interval>>) returns (rec: StoreReport)
    ensures rec == StoreRecord(id, obs, windows)
  {
    rec := StoreReport(id, 0, 0, 0, 0, 0, 0);
    for k := 0 to |WINDOWS|
      invariant rec.storeId == id
      invariant rec.uptimeLastHour == if k > 0 then StoreRecord(id, obs, windows).uptimeLastHour else 0
      invariant rec.downtimeLastHour == if k > 0 then StoreRecord(id, obs, windows).downtimeLastHour else 0
      invariant rec.uptimeLastDay == if k > 1 then StoreRecord(id, obs, windows).uptimeLastDay else 0
      invariant rec.downtimeLastDay == if k > 1 then StoreRecord(id, obs, windows).downtimeLastDay else 0
      invariant rec.uptimeLastWeek == if k > 2 then StoreRecord(id, obs, windows).uptimeLastWeek else 0
      invariant rec.downtimeLastWeek == if k > 2 then StoreRecord(id, obs, windows).downtimeLastWeek else 0
    {
      var key := WINDOWS[k];
      var uptime, downtime := WindowTotals(obs, IntervalsOf(windows, key));
      match key
      case LastHour =>
        rec := rec.(uptimeLastHour := uptime, downtimeLastHour := downtime);
      case LastDay =>
        rec := rec.(uptimeLastDay := HoursHundredths(uptime), downtimeLastDay := HoursHundredths(downtime));
      case LastWeek =>
        rec := rec.(uptimeLastWeek := HoursHundredths(uptime), downtimeLastWeek := HoursHundredths(downtime));
    }
  }

  /** The body of the store loop for one store: its zone, schedule, intervals and record. */
  method ProcessStore(db: Database, tzdb: TzDatabase, now: Instant, storeId: StoreId) returns (r: Result<StoreReport, ReportError>)
    requires storeId in db.statusLogs
    ensures r == StoreOutcome(db, tzdb, now, storeId)
  {
    var tz := StoreTimezone(db, storeId);
    if tz !in tzdb {
      return Failure(UnknownTimezone(tz));
    }
    var zone := tzdb[tz];
    var menu := MenuFrame(StoreMenuHours(db, storeId), zone, DateOf(now));
    var windows := OperatingIntervals(menu, zone, now);
    assert windows == ExpectedWindows(zone, menu, now);
    var obs := db.statusLogs[storeId];
    var rec := Interpolate(storeId, obs, windows);
    r := Success(rec);
  }

  /** The store loop: one record per store, appended in store order; a failure ends the run. */
  method ProcessStores(db: Database, tzdb: TzDatabase, now: Instant) returns (r: Result<seq<StoreReport>, ReportError>)
    requires forall id :: id in db.storeIds ==> id in db.statusLogs
    ensures r == ReportsFrom(db, tzdb, now, db.storeIds)
  {
    var results: seq<StoreReport> := [];
    assert db.storeIds[0..] == db.storeIds;
    PrependNothing(ReportsFrom(db, tzdb, now, db.storeIds));
    for i := 0 to |db.storeIds|
      invariant ReportsFrom(db, tzdb, now, db.storeIds) == Prepend(results, ReportsFrom(db, tzdb, now, db.storeIds[i..]))
    {
      var outcome := ProcessStore(db, tzdb, now, db.storeIds[i]);
      if outcome.Failure? {
        assert ReportsFrom(db, tzdb, now, db.storeIds[i..]) == Failure(outcome.error);
        return Failure(outcome.error);
      }
      assert db.storeIds[i..][1..] == db.storeIds[i + 1..];
      PrependTwice(results, [outcome.value], ReportsFrom(db, tzdb, now, db.storeIds[i + 1..]));
      results := results + [outcome.value];
    }
    assert db.storeIds[|db.storeIds|..] == [];
    assert results + [] == results;
    r := Success(results);
  }

  /**
   * compute_uptime_downtime: fix the reference instant (failing on an empty
   * status table), then run the store loop with it.
   */
  method ComputeUptimeDowntime(db: Database, tzdb: TzDatabase) returns (r: Result<seq<StoreReport>, ReportError>)
    requires ValidDatabase(db)
    ensures r == Report(db, tzdb)
  {
    var currentTime := LatestTimestamp(db.storeIds, db.statusLogs);
    if currentTime.None? {
      return Failure(NoStatusData);
    }
    r := ProcessStores(db, tzdb, currentTime.value);
  }

  lemma PrependNothing(rest: Result<seq<StoreReport>, ReportError>)
    ensures Prepend([], rest) == rest
  {
    if rest.Success? {
      assert [] + rest.value == rest.value;
    }
  }

  lemma PrependTwice(a: seq<StoreReport>, b: seq<StoreReport>, rest: Result<seq<StoreReport>, ReportError>)
    ensures Prepend(a, Prepend(b, rest)) == Prepend(a + b, rest)
  {
    if rest.Success? {
      assert a + (b + rest.value) == (a + b) + rest.value;
    }
  }
}
