/**
 * The business-interval expander of src/utils/time_utils.py: for each of the
 * three trailing windows ending at the reference instant, and for each weekly
 * menu row, walk the UTC calendar dates of the window backwards, rebuild the
 * row's opening hours on every date whose weekday matches, clip them to the
 * window and keep the non-empty ones.
 */
module TimeUtils {

  const SECONDS_PER_DAY := 86400
  const ONE_HOUR := 3600
  const ONE_WEEK := 7 * SECONDS_PER_DAY

  /** Seconds since 1970-01-01T00:00:00Z. */
  type Instant = int
  /** Days since 1970-01-01 (a Thursday). */
  type Date = int
  /** Seconds since midnight. */
  type TimeOfDay = t: int | 0 <= t < SECONDS_PER_DAY

  /**
   * A store timezone as pytz uses it here: combine a calendar date with a
   * wall-clock time, localize it in the zone and convert it to UTC.  The zone
   * rules (offsets, DST resolution) are not modelled; any conversion may be
   * supplied.
   */
  type Zone = (Date, TimeOfDay) -> Instant

  /** The UTC calendar date of an instant: the day number, rounded down. */
  function DateOf(t: Instant): Date { t / SECONDS_PER_DAY }

  /** The UTC wall-clock time of an instant: seconds since that date's midnight. */
  function TimeOf(t: Instant): TimeOfDay { t % SECONDS_PER_DAY }

  /** The day of the week, Monday being 0; day 0 (1970-01-01) was a Thursday. */
  function Weekday(d: Date): int { (d + 3) % 7 }

  datatype Window = LastHour | LastDay | LastWeek

  /** The windows in the order the expander and the aggregator visit them. */
  const WINDOWS: seq<Window> := [LastHour, LastDay, LastWeek]

  function Duration(w: Window): (r: int)
    ensures r in {ONE_HOUR, SECONDS_PER_DAY, ONE_WEEK}
  {
    match w
    case LastHour => ONE_HOUR
    case LastDay => SECONDS_PER_DAY
    case LastWeek => ONE_WEEK
  }

  /** The window for w is [WindowStart(w, now), now]. */
  function WindowStart(w: Window, now: Instant): (s: Instant)
    ensures s < now
    ensures w == LastHour ==> now - s == 3600
    ensures w == LastDay ==> now - s == 24 * 3600
    ensures w == LastWeek ==> now - s == 7 * 24 * 3600
  {
    now - Duration(w)
  }

  /**
   * A row of the menu frame the aggregator hands over: a weekday and the
   * opening and closing times, both already converted to UTC instants on
   * the reference date.
   */
  datatype MenuRow = MenuRow(dayOfWeek: int, start: Instant, end: Instant)

  datatype Interval = Interval(start: Instant, end: Instant)

  function Max(a: int, b: int): int { if a < b then b else a }
  function Min(a: int, b: int): int { if a < b then a else b }

  /**
   * The row's hours on date d: the UTC time of day of each stored instant is
   * taken as a local wall-clock time on d and localized again.
   */
  function OnDate(zone: Zone, row: MenuRow, d: Date): Interval
  {
    Interval(zone(d, TimeOf(row.start)), zone(d, TimeOf(row.end)))
  }

  function Clip(iv: Interval, windowStart: Instant, windowEnd: Instant): Interval
  {
    Interval(Max(iv.start, windowStart), Min(iv.end, windowEnd))
  }

  /** What date d contributes for the row: its clipped hours, when the weekday matches and the clip is non-empty. */
  function Emitted(zone: Zone, row: MenuRow, ws: Instant, we: Instant, d: Date): seq<Interval>
  {
    if Weekday(d) == row.dayOfWeek then
      var c := Clip(OnDate(zone, row, d), ws, we);
      if c.start < c.end then [c] else []
    else []
  }

  /** The intervals one row yields for dates hi, hi - 1, ..., lo, in that (descending) order. */
  function RowIntervals(zone: Zone, row: MenuRow, ws: Instant, we: Instant, hi: Date, lo: Date): seq<Interval>
    decreases hi - lo + 1
  {
    if hi < lo then []
    else RowIntervals(zone, row, ws, we, hi, lo + 1) + Emitted(zone, row, ws, we, lo)
  }

  /** The intervals the window [ws, we] collects: rule by rule, in menu order. */
  function WindowIntervals(zone: Zone, menu: seq<MenuRow>, ws: Instant, we: Instant): seq<Interval>
  {
    if menu == [] then []
    else
      WindowIntervals(zone, menu[..|menu| - 1], ws, we)
      + RowIntervals(zone, menu[|menu| - 1], ws, we, DateOf(we), DateOf(ws))
  }

  /** Date d is one of the row's weekdays and its hours clip non-emptily to iv. */
  ghost predicate YieldsOn(zone: Zone, row: MenuRow, ws: Instant, we: Instant, d: Date, iv: Interval)
  {
    Weekday(d) == row.dayOfWeek && iv == Clip(OnDate(zone, row, d), ws, we) && iv.start < iv.end
  }

  /** The row yields iv on some UTC date between the window start's and the window end's. */
  ghost predicate FromRule(zone: Zone, row: MenuRow, ws: Instant, we: Instant, iv: Interval)
  {
    exists d :: DateOf(ws) <= d <= DateOf(we) && YieldsOn(zone, row, ws, we, d, iv)
  }

  /**
   * An interval comes out of a row for dates hi down to lo exactly when it is
   * the non-empty clip of the row's hours on one of those dates whose weekday
   * is the row's.
   */
  lemma {:induction false} RowIntervalsMembership(zone: Zone, row: MenuRow, ws: Instant, we: Instant, hi: Date, lo: Date, iv: Interval)
    ensures iv in RowIntervals(zone, row, ws, we, hi, lo) <==> exists d :: lo <= d <= hi && YieldsOn(zone, row, ws, we, d, iv)
    decreases hi - lo + 1
  {
    if hi >= lo {
      RowIntervalsMembership(zone, row, ws, we, hi, lo + 1, iv);
      if iv in Emitted(zone, row, ws, we, lo) {
        assert YieldsOn(zone, row, ws, we, lo, iv);
      }
    }
  }

  /** Every interval a row yields is non-empty and lies inside the window. */
  lemma {:induction false} RowIntervalsInWindow(zone: Zone, row: MenuRow, ws: Instant, we: Instant, hi: Date, lo: Date)
    ensures forall iv :: iv in RowIntervals(zone, row, ws, we, hi, lo) ==> ws <= iv.start < iv.end <= we
    decreases hi - lo + 1
  {
    if hi >= lo {
      RowIntervalsInWindow(zone, row, ws, we, hi, lo + 1);
    }
  }

  /** Dates that carry a weekday other than the row's contribute nothing. */
  lemma {:induction false} RowIntervalsSkip(zone: Zone, row: MenuRow, ws: Instant, we: Instant, hi: Date, lo: Date, k: nat)
    requires lo + k <= hi + 1
    requires forall d :: lo <= d < lo + k ==> Weekday(d) != row.dayOfWeek
    ensures RowIntervals(zone, row, ws, we, hi, lo) == RowIntervals(zone, row, ws, we, hi, lo + k)
    decreases k
  {
    if k > 0 {
      RowIntervalsSkip(zone, row, ws, we, hi, lo + 1, k - 1);
      assert Emitted(zone, row, ws, we, lo) == [];
    }
  }

  lemma WeekdayDistinctWithinWeek(d: Date, e: Date)
    requires d < e < d + 7
    ensures Weekday(d) != Weekday(e)
  {
  }

  /**
   * A rule yields at most one interval per seven consecutive dates: at most
   * (hi - lo) / 7 + 1 intervals for the dates hi down to lo.
   */
  lemma {:induction false} RowIntervalsAtMostWeekly(zone: Zone, row: MenuRow, ws: Instant, we: Instant, hi: Date, lo: Date)
    ensures |RowIntervals(zone, row, ws, we, hi, lo)| <= if hi < lo then 0 else (hi - lo) / 7 + 1
    decreases hi - lo + 1
  {
    if hi >= lo {
      if Emitted(zone, row, ws, we, lo) == [] {
        RowIntervalsAtMostWeekly(zone, row, ws, we, hi, lo + 1);
      } else {
        var k := if lo + 7 <= hi + 1 then 6 else hi - lo;
        forall d | lo + 1 <= d < lo + 1 + k
          ensures Weekday(d) != row.dayOfWeek
        {
          WeekdayDistinctWithinWeek(lo, d);
        }
        RowIntervalsSkip(zone, row, ws, we, hi, lo + 1, k);
        RowIntervalsAtMostWeekly(zone, row, ws, we, hi, lo + 1 + k);
      }
    }
  }

  /**
   * Per rule, the last hour and the last day each receive at most one
   * interval and the last week at most two (its first and last UTC dates
   * share a weekday).
   */
  lemma RowIntervalsPerWindow(zone: Zone, row: MenuRow, w: Window, now: Instant)
    ensures |RowIntervals(zone, row, WindowStart(w, now), now, DateOf(now), DateOf(WindowStart(w, now)))|
            <= if w == LastWeek then 2 else 1
  {
    var ws := WindowStart(w, now);
    assert DateOf(now) - DateOf(ws) <= if w == LastWeek then 7 else 1;
    RowIntervalsAtMostWeekly(zone, row, ws, now, DateOf(now), DateOf(ws));
  }

  /**
   * Output order within a rule: the intervals of later dates come before
   * those of earlier dates (the walk runs backwards), nothing is merged.
   */
  lemma {:induction false} RowIntervalsSplit(zone: Zone, row: MenuRow, ws: Instant, we: Instant, hi: Date, m: Date, lo: Date)
    requires lo - 1 <= m <= hi
    ensures RowIntervals(zone, row, ws, we, hi, lo) == RowIntervals(zone, row, ws, we, hi, m + 1) + RowIntervals(zone, row, ws, we, m, lo)
    decreases m - lo + 1
  {
    if m >= lo {
      RowIntervalsSplit(zone, row, ws, we, hi, m, lo + 1);
    }
  }

  /**
   * Output order across rules: the window's list is the first rules' list
   * followed by the remaining rules' list, so intervals of different rules
   * are kept side by side even when they overlap.
   */
  lemma {:induction false} WindowIntervalsConcat(zone: Zone, first: seq<MenuRow>, rest: seq<MenuRow>, ws: Instant, we: Instant)
    ensures WindowIntervals(zone, first + rest, ws, we) == WindowIntervals(zone, first, ws, we) + WindowIntervals(zone, rest, ws, we)
    decreases |rest|
  {
    if rest != [] {
      var last := rest[|rest| - 1];
      assert (first + rest)[..|first + rest| - 1] == first + rest[..|rest| - 1];
      WindowIntervalsConcat(zone, first, rest[..|rest| - 1], ws, we);
    } else {
      assert first + rest == first;
    }
  }

  /** The intervals a row yields over the whole window. */
  function RuleIntervals(zone: Zone, row: MenuRow, ws: Instant, we: Instant): seq<Interval>
  {
    RowIntervals(zone, row, ws, we, DateOf(we), DateOf(ws))
  }

  /**
   * A window's list holds exactly what the rules yield: an interval is in
   * it when and only when some rule yields it.
   */
  lemma {:induction false} WindowIntervalsFromRules(zone: Zone, menu: seq<MenuRow>, ws: Instant, we: Instant, iv: Interval)
    ensures iv in WindowIntervals(zone, menu, ws, we) <==> exists j :: 0 <= j < |menu| && iv in RuleIntervals(zone, menu[j], ws, we)
    decreases |menu|
  {
    if menu != [] {
      var n := |menu| - 1;
      var init := menu[..n];
      WindowIntervalsFromRules(zone, init, ws, we, iv);
      assert forall j :: 0 <= j < n ==> init[j] == menu[j];
    }
  }

  /** Every interval of a window's list is non-empty and lies inside the window. */
  lemma {:induction false} WindowIntervalsInWindow(zone: Zone, menu: seq<MenuRow>, ws: Instant, we: Instant)
    ensures forall iv :: iv in WindowIntervals(zone, menu, ws, we) ==> ws <= iv.start < iv.end <= we
    decreases |menu|
  {
    if menu != [] {
      WindowIntervalsInWindow(zone, menu[..|menu| - 1], ws, we);
      RowIntervalsInWindow(zone, menu[|menu| - 1], ws, we, DateOf(we), DateOf(ws));
    }
  }

  /**
   * An interval is in a window's list exactly when some rule's hours, rebuilt
   * on a UTC date between the window start's and the window end's whose
   * weekday is the rule's, clip to it non-emptily.
   */
  lemma WindowIntervalsMembership(zone: Zone, menu: seq<MenuRow>, ws: Instant, we: Instant, iv: Interval)
    ensures iv in WindowIntervals(zone, menu, ws, we) <==> exists j :: 0 <= j < |menu| && FromRule(zone, menu[j], ws, we, iv)
  {
    WindowIntervalsFromRules(zone, menu, ws, we, iv);
    forall j | 0 <= j < |menu|
      ensures iv in RuleIntervals(zone, menu[j], ws, we) <==> FromRule(zone, menu[j], ws, we, iv)
    {
      RowIntervalsMembership(zone, menu[j], ws, we, DateOf(we), DateOf(ws), iv);
    }
  }

  /** A rule whose rebuilt start is never before its rebuilt end yields nothing. */
  lemma {:induction false} InvertedRowEmitsNothing(zone: Zone, row: MenuRow, ws: Instant, we: Instant, hi: Date, lo: Date)
    requires forall d :: OnDate(zone, row, d).end <= OnDate(zone, row, d).start
    ensures RowIntervals(zone, row, ws, we, hi, lo) == []
    decreases hi - lo + 1
  {
    if hi >= lo {
      InvertedRowEmitsNothing(zone, row, ws, we, hi, lo + 1);
      var iv := OnDate(zone, row, lo);
      assert Clip(iv, ws, we).end <= iv.end <= iv.start <= Clip(iv, ws, we).start;
    }
  }

  lemma DateOfMonotone(a: Instant, b: Instant)
    requires a <= b
    ensures DateOf(a) <= DateOf(b)
  {
  }

  /**
   * The date walk for one rule: from the window end's UTC date down to the
   * window start's, append the clipped hours of every matching date.
   */
  method WalkDates(list: seq<Interval>, row: MenuRow, zone: Zone, startUtc: Instant, endUtc: Instant) returns (out: seq<Interval>)
    requires startUtc <= endUtc
    ensures out == list + RowIntervals(zone, row, startUtc, endUtc, DateOf(endUtc), DateOf(startUtc))
  {
    out := list;
    var currentDay := DateOf(endUtc);
    DateOfMonotone(startUtc, endUtc);
    while currentDay >= DateOf(startUtc)
      invariant DateOf(startUtc) - 1 <= currentDay <= DateOf(endUtc)
      invariant out == list + RowIntervals(zone, row, startUtc, endUtc, DateOf(endUtc), currentDay + 1)
      decreases currentDay - DateOf(startUtc)
    {
      if Weekday(currentDay) == row.dayOfWeek {
        var startDt := zone(currentDay, TimeOf(row.start));
        var endDt := zone(currentDay, TimeOf(row.end));
        var clippedStart := Max(startDt, startUtc);
        var clippedEnd := Min(endDt, endUtc);
        if clippedStart < clippedEnd {
          out := out + [Interval(clippedStart, clippedEnd)];
        }
      }
      currentDay := currentDay - 1;
    }
  }

  /**
   * The body of the window loop of get_operating_intervals_within_window for
   * one window [startUtc, endUtc]: the date walk of every rule, in menu order.
   */
  method CollectWindow(menu: seq<MenuRow>, zone: Zone, startUtc: Instant, endUtc: Instant) returns (list: seq<Interval>)
    requires startUtc <= endUtc
    ensures list == WindowIntervals(zone, menu, startUtc, endUtc)
    ensures forall iv :: iv in list ==> startUtc <= iv.start < iv.end <= endUtc
  {
    list := [];
    for j := 0 to |menu|
      invariant list == WindowIntervals(zone, menu[..j], startUtc, endUtc)
    {
      list := WalkDates(list, menu[j], zone, startUtc, endUtc);
      assert menu[..j + 1][..j] == menu[..j];
    }
    assert menu[..|menu|] == menu;
    WindowIntervalsInWindow(zone, menu, startUtc, endUtc);
  }

  /**
   * get_operating_intervals_within_window: exactly the three window keys,
   * each holding what CollectWindow gathers for [now - duration, now].
   */
  method OperatingIntervals(menu: seq<MenuRow>, zone: Zone, now: Instant) returns (intervals: map<Window, seq<Interval>>)
    ensures intervals.Keys == {LastHour, LastDay, LastWeek}
    ensures forall w :: w in intervals ==> intervals[w] == WindowIntervals(zone, menu, WindowStart(w, now), now)
  {
    intervals := map[LastHour := [], LastDay := [], LastWeek := []];
    for k := 0 to |WINDOWS|
      invariant intervals.Keys == {LastHour, LastDay, LastWeek}
      invariant forall i :: 0 <= i < k ==> intervals[WINDOWS[i]] == WindowIntervals(zone, menu, WindowStart(WINDOWS[i], now), now)
    {
      var w := WINDOWS[k];
      var list := CollectWindow(menu, zone, WindowStart(w, now), now);
      intervals := intervals[w := list];
    }
    assert WINDOWS[0] == LastHour && WINDOWS[1] == LastDay && WINDOWS[2] == LastWeek;
  }
}
