/** The calendar date engine: the 42-cell month grid, same-day tests, the
    events covering a day in start order, and the classification of a
    cell as an event's start, end or continuation. */
module CalendarUtils {
  import opened Types
  import opened Gregorian
  import opened DateKey
  import opened Seqs

  // ---------------------------------------------------------------------
  // The month grid

  /** `new Date(year, month, 1).getDay()`: the column of the 1st. */
  function FirstWeekday(year: int, month: int): (w: int)
    ensures 0 <= w < 7
  {
    Weekday(MakeDate(year, month, 1))
  }

  /** The reference grid: cell `i` is the day `i - w + 1` of the month,
      counted from its 1st, where `w` is the weekday of the 1st. */
  function MonthGrid(year: int, month: int): (g: seq<Date>)
    ensures |g| == 42
  {
    seq(42, i => MakeDate(year, month, i - FirstWeekday(year, month) + 1))
  }

  /** `getMonthDays`: the days of the previous month that fill the first
      week, the days of the month, then days of the next month up to 42.
      Every cell is built with `new Date`, so a year 0..99 names a year of
      the 1900s. */
  method GetMonthDays(year: int, month: int) returns (days: seq<Date>)
    ensures days == MonthGrid(FullYear(year), month)
  {
    ghost var fy := FullYear(year);
    var firstDay := NewDate(year, month, 1);
    var lastDay := NewDate(year, month + 1, 0);
    var startDay := Weekday(firstDay);
    var daysInMonth := lastDay.day;
    LastDayOfMonth(fy, month);
    ghost var grid := MonthGrid(fy, month);
    assert startDay == FirstWeekday(fy, month);
    assert daysInMonth == DaysInMonth(fy + month / 12, month % 12);
    days := [];
    var i := 0;
    while i < startDay
      invariant 0 <= i <= startDay
      invariant days == grid[..i]
    {
      GridPush(year, month, days, i, -startDay + i + 1);
      days := days + [NewDate(year, month, -startDay + i + 1)];
      i := i + 1;
    }
    i := 1;
    while i <= daysInMonth
      invariant 1 <= i <= daysInMonth + 1
      invariant days == grid[..startDay + i - 1]
    {
      GridPush(year, month, days, startDay + i - 1, i);
      days := days + [NewDate(year, month, i)];
      i := i + 1;
    }
    var remainingDays := 42 - |days|;
    i := 1;
    while i <= remainingDays
      invariant 1 <= i <= remainingDays + 1
      invariant days == grid[..startDay + daysInMonth + i - 1]
    {
      GridPush(year, month, days, startDay + daysInMonth + i - 1, daysInMonth + i);
      NextMonthDay(fy, month, i);
      days := days + [NewDate(year, month + 1, i)];
      i := i + 1;
    }
    assert days == grid;
  }

  /** One push of `getMonthDays`: after the first `k` cells, the cell
      `new Date(year, month, day)` with `day` counted from the 1st is cell
      `k`. */
  lemma GridPush(year: int, month: int, days: seq<Date>, k: int, day: int)
    requires 0 <= k < 42 && day == k - FirstWeekday(FullYear(year), month) + 1
    requires days == MonthGrid(FullYear(year), month)[..k]
    ensures days + [NewDate(year, month, day)] == MonthGrid(FullYear(year), month)[..k + 1]
  {
    var grid := MonthGrid(FullYear(year), month);
    assert grid[..k + 1] == grid[..k] + [grid[k]];
  }

  /** Cell `i` is `i` days after the `w` days before the 1st. */
  lemma GridDayNumber(year: int, month: int, i: int)
    requires 0 <= i < 42
    ensures ValidDate(MonthGrid(year, month)[i])
    ensures DayNumber(MonthGrid(year, month)[i])
         == DayNumber(MakeDate(year, month, 1)) - FirstWeekday(year, month) + i
  {
    assert MonthGrid(year, month)[i] == MakeDate(year, month, i - FirstWeekday(year, month) + 1);
  }

  /** The grid is 42 consecutive valid days. */
  lemma GridConsecutive(year: int, month: int)
    ensures forall i :: 0 <= i < 42 ==>
      ValidDate(MonthGrid(year, month)[i]) &&
      DayNumber(MonthGrid(year, month)[i]) == DayNumber(MonthGrid(year, month)[0]) + i
  {
    GridDayNumber(year, month, 0);
    forall i | 0 <= i < 42
      ensures ValidDate(MonthGrid(year, month)[i]) &&
        DayNumber(MonthGrid(year, month)[i]) == DayNumber(MonthGrid(year, month)[0]) + i
    {
      GridDayNumber(year, month, i);
    }
  }

  lemma WeekAligned(n: int, i: int)
    ensures (n + 1 - (n + 1) % 7 + i) % 7 == i % 7
  {
    assert n + 1 - (n + 1) % 7 == 7 * ((n + 1) / 7);
  }

  /** The grid starts on a Sunday and column `i % 7` is weekday `i % 7`,
      the order of the weekday headers; the 1st of the month sits at index
      `FirstWeekday`. */
  lemma GridColumns(year: int, month: int)
    ensures Weekday(MonthGrid(year, month)[0]) == 0
    ensures forall i :: 0 <= i < 42 ==> Weekday(MonthGrid(year, month)[i]) == i % 7
    ensures MonthGrid(year, month)[FirstWeekday(year, month)] == MakeDate(year, month, 1)
  {
    var n := DayNumber(MakeDate(year, month, 1));
    forall i | 0 <= i < 42 ensures Weekday(MonthGrid(year, month)[i]) == i % 7 {
      GridDayNumber(year, month, i);
      WeekAligned(n, i);
    }
  }

  /** One cell of the grid: inside the month it is that day of the month,
      before or after it a day of the neighbouring month. */
  lemma GridCell(year: int, month: Month0, i: int)
    requires 0 <= i < 42
    ensures var w := FirstWeekday(year, month);
      (IsCurrentMonth(MonthGrid(year, month)[i], month) <==> w <= i < w + DaysInMonth(year, month)) &&
      (w <= i < w + DaysInMonth(year, month) ==> MonthGrid(year, month)[i] == Date(year, month, i - w + 1))
  {
    var w := FirstWeekday(year, month);
    var c := MonthGrid(year, month)[i];
    assert c == MakeDate(year, month, i - w + 1);
    SpillStaysInMonth(year, month, i - w + 1);
    assert IsCurrentMonth(c, month) <==> c.month == month;
  }

  /** Cells `w .. w + DaysInMonth - 1` are the days 1..DaysInMonth of the
      month (`isCurrentMonth` holds exactly for them); every other cell
      belongs to the month before or after. */
  lemma GridMonthCells(year: int, month: Month0)
    ensures forall i :: 0 <= i < 42 ==>
      (IsCurrentMonth(MonthGrid(year, month)[i], month) <==>
        FirstWeekday(year, month) <= i < FirstWeekday(year, month) + DaysInMonth(year, month))
    ensures forall i :: FirstWeekday(year, month) <= i < FirstWeekday(year, month) + DaysInMonth(year, month) ==>
        MonthGrid(year, month)[i] == Date(year, month, i - FirstWeekday(year, month) + 1)
  {
    forall i | 0 <= i < 42
      ensures IsCurrentMonth(MonthGrid(year, month)[i], month) <==>
        FirstWeekday(year, month) <= i < FirstWeekday(year, month) + DaysInMonth(year, month)
    {
      GridCell(year, month, i);
    }
    forall i | FirstWeekday(year, month) <= i < FirstWeekday(year, month) + DaysInMonth(year, month)
      ensures MonthGrid(year, month)[i] == Date(year, month, i - FirstWeekday(year, month) + 1)
    {
      GridCell(year, month, i);
    }
  }

  // ---------------------------------------------------------------------
  // Day tests

  /** `isSameDay`: the year, month and day fields agree. */
  predicate IsSameDay(a: Date, b: Date)
  {
    a.year == b.year && a.month == b.month && a.day == b.day
  }

  /** A date is nothing but its three fields, so `isSameDay` is equality
      of dates: reflexive, symmetric and transitive. */
  lemma SameDayIsEquality(a: Date, b: Date, c: Date)
    ensures IsSameDay(a, b) <==> a == b
    ensures IsSameDay(a, a)
    ensures IsSameDay(a, b) ==> IsSameDay(b, a)
    ensures IsSameDay(a, b) && IsSameDay(b, c) ==> IsSameDay(a, c)
  {
  }

  /** On valid dates the same day means the same day number, so
      `isSameDay` agrees with the time comparison used for ranges. */
  lemma SameDayIffSameDayNumber(a: Date, b: Date)
    requires ValidDate(a) && ValidDate(b)
    ensures IsSameDay(a, b) <==> DayNumber(a) == DayNumber(b)
  {
    if DayNumber(a) == DayNumber(b) {
      DayNumberInjective(a, b);
    }
  }

  /** `isCurrentMonth`. */
  predicate IsCurrentMonth(d: Date, currentMonth: int)
  {
    d.month == currentMonth
  }

  // ---------------------------------------------------------------------
  // Event spans

  /** The parsed start date; `None` is an invalid date. */
  function EventStart(e: MarketingEvent): Option<Date>
  {
    ParseDate(e.date)
  }

  /** The parsed end date: `endDate` when it is present and non-empty,
      otherwise the start date. */
  function EventEnd(e: MarketingEvent): Option<Date>
  {
    if e.endDate.Some? && e.endDate.value != "" then ParseDate(e.endDate.value) else ParseDate(e.date)
  }

  /** The filter of `getEventsForDay`: the day lies in the inclusive range
      from start to end. An invalid start or end compares false. */
  predicate Covers(e: MarketingEvent, date: Date)
  {
    EventStart(e).Some? && EventEnd(e).Some? &&
    DayNumber(EventStart(e).value) <= DayNumber(date) <= DayNumber(EventEnd(e).value)
  }

  /** The sort key: the start's day number (`getTime()` of local midnight). */
  function StartKey(e: MarketingEvent): int
  {
    if EventStart(e).Some? then DayNumber(EventStart(e).value) else 0
  }

  /** The events, in order, whose start day is `k`. */
  function WithStart(s: seq<MarketingEvent>, k: int): seq<MarketingEvent>
  {
    WithKey(s, StartKey, k)
  }

  /** The `filter` step of `getEventsForDay`: the covering events in
      input order. */
  function Covering(events: seq<MarketingEvent>, date: Date): seq<MarketingEvent>
  {
    Filter(events, e => Covers(e, date))
  }

  /** `getEventsForDay`: the covering events, copied, then sorted by start. */
  function EventsForDay(events: seq<MarketingEvent>, date: Date): (r: seq<MarketingEvent>)
    ensures forall e :: e in r <==> e in events && Covers(e, date)
    ensures forall e :: multiset(r)[e] == if Covers(e, date) then multiset(events)[e] else 0
    ensures SortedBy(r, StartKey)
  {
    var covering := Covering(events, date);
    FilterMultiset(events, e => Covers(e, date));
    var r := SortBy(covering, StartKey);
    assert forall e :: e in r <==> e in multiset(r);
    assert forall e :: e in covering <==> e in multiset(covering);
    r
  }

  /** Events with the same start day come out in their input order: the
      ones starting on day `k` are the covering events starting on `k`,
      as they stand in `events`. */
  lemma EventsForDayStable(events: seq<MarketingEvent>, date: Date, k: int)
    ensures WithStart(EventsForDay(events, date), k) == WithStart(Covering(events, date), k)
  {
    SortByStable(Covering(events, date), StartKey, k);
  }

  /** An event that ends before it starts covers no day at all. */
  lemma InvertedRangeNeverShown(e: MarketingEvent, events: seq<MarketingEvent>, date: Date)
    requires EventStart(e).Some? && EventEnd(e).Some?
    requires DayNumber(EventEnd(e).value) < DayNumber(EventStart(e).value)
    ensures e !in EventsForDay(events, date)
  {
  }

  // ---------------------------------------------------------------------
  // Cell classification

  /** `isEventStartDay`. */
  predicate IsEventStartDay(e: MarketingEvent, date: Date)
  {
    EventStart(e).Some? && IsSameDay(date, EventStart(e).value)
  }

  /** `isEventEndDay`. */
  predicate IsEventEndDay(e: MarketingEvent, date: Date)
  {
    EventEnd(e).Some? && IsSameDay(date, EventEnd(e).value)
  }

  /** `isEventContinuation`: neither the start nor the end day. */
  predicate IsEventContinuation(e: MarketingEvent, date: Date)
  {
    !IsEventStartDay(e, date) && !IsEventEndDay(e, date)
  }

  /** A one-day event (no or empty `endDate`) starts and ends on the same
      day, so its day is both its start and its end. */
  lemma SingleDayStartIsEnd(e: MarketingEvent, date: Date)
    requires e.endDate.None? || e.endDate == Some("")
    ensures IsEventStartDay(e, date) <==> IsEventEndDay(e, date)
    ensures EventStart(e).Some? ==>
      IsEventStartDay(e, EventStart(e).value) && IsEventEndDay(e, EventStart(e).value)
  {
  }

  /** `isEventContinuation` checks no coverage: a day before the whole
      span is a "continuation" although the event does not cover it. */
  lemma ContinuationOutsideSpan(e: MarketingEvent, date: Date)
    requires EventStart(e).Some? && EventEnd(e).Some?
    requires DayNumber(date) < DayNumber(EventStart(e).value)
    requires DayNumber(date) < DayNumber(EventEnd(e).value)
    ensures IsEventContinuation(e, date) && !Covers(e, date)
  {
  }

  /** On a covered day, being a continuation means lying strictly inside
      the span. */
  lemma CoveredContinuationIsInterior(e: MarketingEvent, date: Date)
    requires ValidDate(date) && Covers(e, date)
    ensures IsEventContinuation(e, date) <==>
      DayNumber(EventStart(e).value) < DayNumber(date) < DayNumber(EventEnd(e).value)
  {
    SameDayIffSameDayNumber(date, EventStart(e).value);
    SameDayIffSameDayNumber(date, EventEnd(e).value);
  }

  /** On its start day an event is covered exactly when its end is valid
      and not before its start. */
  lemma StartDayCovered(e: MarketingEvent, date: Date)
    requires ValidDate(date) && IsEventStartDay(e, date)
    ensures Covers(e, date) <==>
      EventEnd(e).Some? && DayNumber(EventStart(e).value) <= DayNumber(EventEnd(e).value)
  {
  }
}
