/** The month view: the 42 grid days cut into weeks, the tallest day's
    event count, and per cell the events whose card starts there, the
    muted styling of days outside the month and the cell's height. */
module CalendarGrid {
  import opened Types
  import opened Gregorian
  import opened Seqs
  import opened CalendarUtils

  // ---------------------------------------------------------------------
  // Weeks

  /** The rows laid end to end. */
  function Flatten<T>(rows: seq<seq<T>>): seq<T>
  {
    if rows == [] then [] else rows[0] + Flatten(rows[1..])
  }

  lemma {:induction false} FlattenAppend<T>(rows: seq<seq<T>>, row: seq<T>)
    ensures Flatten(rows + [row]) == Flatten(rows) + row
  {
    if rows == [] {
      assert [row][1..] == [];
    } else {
      assert (rows + [row])[1..] == rows[1..] + [row];
      FlattenAppend(rows[1..], row);
    }
  }

  function Min(a: int, b: int): int
  {
    if a <= b then a else b
  }

  /** The `weeks` loop: `days.slice(i, i + 7)` for i = 0, 7, 14, …; the
      slice end is clamped to the length, so only the last row may be
      shorter than 7. */
  method ChunkWeeks<T>(days: seq<T>) returns (weeks: seq<seq<T>>)
    ensures Flatten(weeks) == days
    ensures 7 * |weeks| - 7 < |days| <= 7 * |weeks|
    ensures forall j :: 0 <= j < |weeks| ==> weeks[j] == days[7 * j .. Min(7 * j + 7, |days|)]
  {
    weeks := [];
    var i := 0;
    while i < |days|
      invariant i == 7 * |weeks| && i <= |days| + 6
      invariant Flatten(weeks) == days[..Min(i, |days|)]
      invariant forall j :: 0 <= j < |weeks| ==> weeks[j] == days[7 * j .. Min(7 * j + 7, |days|)]
    {
      var row := days[i .. Min(i + 7, |days|)];
      FlattenAppend(weeks, row);
      assert days[..Min(i + 7, |days|)] == days[..i] + row;
      weeks := weeks + [row];
      i := i + 7;
    }
  }

  /** `weeks` for the month shown: six rows of seven whose concatenation is
      the grid; cell `c` of row `r` is grid cell `7r + c` and falls on
      weekday `c`, under the header `DAYS_OF_WEEK[c]` (a year 0..99 is one
      of the 1900s, as `new Date` reads it). */
  method MonthWeeks(year: int, month: int) returns (weeks: seq<seq<Date>>)
    ensures |weeks| == 6 && Flatten(weeks) == MonthGrid(FullYear(year), month)
    ensures forall r :: 0 <= r < 6 ==> |weeks[r]| == 7
    ensures forall r, c :: 0 <= r < 6 && 0 <= c < 7 ==>
      weeks[r][c] == MonthGrid(FullYear(year), month)[7 * r + c] && Weekday(weeks[r][c]) == c
  {
    var days := GetMonthDays(year, month);
    weeks := ChunkWeeks(days);
    GridColumns(FullYear(year), month);
    forall r, c | 0 <= r < 6 && 0 <= c < 7
      ensures weeks[r][c] == MonthGrid(FullYear(year), month)[7 * r + c] && Weekday(weeks[r][c]) == c
    {
      assert weeks[r] == days[7 * r .. 7 * r + 7];
      assert (7 * r + c) % 7 == c;
    }
  }

  // ---------------------------------------------------------------------
  // Events per cell

  function Max(a: int, b: int): int
  {
    if a >= b then a else b
  }

  /** `getEventsForDay(events, day).length`. */
  function DayCount(events: seq<MarketingEvent>, day: Date): nat
  {
    |EventsForDay(events, day)|
  }

  /** `Math.max(...xs, 1)`. */
  function MaxWithOne(xs: seq<int>): (r: int)
    ensures r >= 1
    ensures forall i :: 0 <= i < |xs| ==> xs[i] <= r
  {
    if xs == [] then 1
    else
      var rest := MaxWithOne(xs[1..]);
      assert forall i :: 1 <= i < |xs| ==> xs[i] == xs[1..][i - 1];
      Max(xs[0], rest)
  }

  /** The maximum is attained: it is 1 or one of the values. */
  lemma {:induction false} MaxWithOneAttained(xs: seq<int>)
    ensures MaxWithOne(xs) == 1 || exists i :: 0 <= i < |xs| && MaxWithOne(xs) == xs[i]
  {
    if xs != [] {
      var rest := MaxWithOne(xs[1..]);
      MaxWithOneAttained(xs[1..]);
      if xs[0] < rest && rest != 1 {
        var j :| 0 <= j < |xs[1..]| && rest == xs[1..][j];
        assert xs[j + 1] == rest;
      }
    }
  }

  /** `days.map(day => getEventsForDay(events, day).length)`. */
  function DayCounts(events: seq<MarketingEvent>, days: seq<Date>): (counts: seq<int>)
    ensures |counts| == |days|
    ensures forall i :: 0 <= i < |days| ==> counts[i] == DayCount(events, days[i])
  {
    seq(|days|, i requires 0 <= i < |days| => DayCount(events, days[i]))
  }

  /** `maxEventsPerDay`: the largest `getEventsForDay` count over the
      grid's days, and at least 1. */
  function MaxEventsPerDay(events: seq<MarketingEvent>, days: seq<Date>): (r: int)
    ensures r >= 1
    ensures forall i :: 0 <= i < |days| ==> DayCount(events, days[i]) <= r
    ensures r == 1 || exists i :: 0 <= i < |days| && r == DayCount(events, days[i])
  {
    var counts := DayCounts(events, days);
    MaxWithOneAttained(counts);
    MaxWithOne(counts)
  }

  /** The events whose start day is `day`, in their order in `s`. */
  function StartingOn(s: seq<MarketingEvent>, day: Date): seq<MarketingEvent>
  {
    Filter(s, e => IsEventStartDay(e, day))
  }

  /** `eventsToShow`: the events of the day that start on it. Each card
      is drawn once, on the start cell. */
  function EventsToShow(events: seq<MarketingEvent>, day: Date): (r: seq<MarketingEvent>)
    ensures forall e :: e in r <==> e in EventsForDay(events, day) && IsEventStartDay(e, day)
    ensures IsSubsequence(r, EventsForDay(events, day))
  {
    StartingOn(EventsForDay(events, day), day)
  }

  /** A card is shown on `day` exactly for the events that start on it and
      whose end (or, lacking one, start) is not before the start. */
  lemma EventsToShowMembers(events: seq<MarketingEvent>, day: Date, e: MarketingEvent)
    ensures e in EventsToShow(events, day) <==>
      e in events && IsEventStartDay(e, day) &&
      EventEnd(e).Some? && DayNumber(EventStart(e).value) <= DayNumber(EventEnd(e).value)
  {
    if IsEventStartDay(e, day) {
      assert EventStart(e).value == day;
    }
  }

  /** The cards of a cell keep the input order: they are the covering
      events that start on the day, as they stand in `events`. */
  lemma EventsToShowInInputOrder(events: seq<MarketingEvent>, day: Date)
    requires ValidDate(day)
    ensures EventsToShow(events, day) == StartingOn(Covering(events, day), day)
  {
    var k := DayNumber(day);
    forall e | e in EventsForDay(events, day)
      ensures IsEventStartDay(e, day) <==> StartKey(e) == k
    {
      SameDayIffSameDayNumber(day, EventStart(e).value);
    }
    FilterIsWithKey(EventsForDay(events, day), e => IsEventStartDay(e, day), StartKey, k);
    EventsForDayStable(events, day, k);
    forall e | e in Covering(events, day)
      ensures IsEventStartDay(e, day) <==> StartKey(e) == k
    {
      SameDayIffSameDayNumber(day, EventStart(e).value);
    }
    FilterIsWithKey(Covering(events, day), e => IsEventStartDay(e, day), StartKey, k);
  }

  /** `minHeight`: `Math.max(n * 60 + 40, 100)` pixels for `n` cards. */
  function MinHeight(shown: nat): (h: int)
    ensures h >= 100 && h >= 60 * shown + 40
    ensures h == if shown == 0 then 100 else 60 * shown + 40
  {
    Max(shown * 60 + 40, 100)
  }

  // ---------------------------------------------------------------------
  // Cards across the grid

  /** An event has a card in at most one cell of the grid. */
  lemma AtMostOneCard(year: int, month: int, events: seq<MarketingEvent>, e: MarketingEvent, i: int, j: int)
    requires 0 <= i < 42 && 0 <= j < 42
    requires e in EventsToShow(events, MonthGrid(year, month)[i])
    requires e in EventsToShow(events, MonthGrid(year, month)[j])
    ensures i == j
  {
    GridConsecutive(year, month);
    assert MonthGrid(year, month)[i] == EventStart(e).value == MonthGrid(year, month)[j];
  }

  /** An event that starts before the first cell has no card anywhere in
      the grid, even when it covers visible days. */
  lemma NoCardBeforeGrid(year: int, month: int, events: seq<MarketingEvent>, e: MarketingEvent)
    requires EventStart(e).Some?
    requires DayNumber(EventStart(e).value) < DayNumber(MonthGrid(year, month)[0])
    ensures forall i :: 0 <= i < 42 ==> e !in EventsToShow(events, MonthGrid(year, month)[i])
  {
    GridConsecutive(year, month);
  }

  /** An event with a well-ordered span starting inside the grid has its
      card in the cell of its start day. */
  lemma CardOnStartCell(year: int, month: int, events: seq<MarketingEvent>, e: MarketingEvent)
    requires e in events && EventStart(e).Some? && EventEnd(e).Some?
    requires DayNumber(EventStart(e).value) <= DayNumber(EventEnd(e).value)
    requires DayNumber(MonthGrid(year, month)[0]) <= DayNumber(EventStart(e).value) < DayNumber(MonthGrid(year, month)[0]) + 42
    ensures var i := DayNumber(EventStart(e).value) - DayNumber(MonthGrid(year, month)[0]);
      e in EventsToShow(events, MonthGrid(year, month)[i])
  {
    var s := EventStart(e).value;
    var i := DayNumber(s) - DayNumber(MonthGrid(year, month)[0]);
    GridConsecutive(year, month);
    DayNumberInjective(MonthGrid(year, month)[i], s);
    EventsToShowMembers(events, MonthGrid(year, month)[i], e);
  }

  // ---------------------------------------------------------------------
  // Cell view

  /** What a cell shows: its day-of-month label, the cards, whether it is
      muted (`bg-muted/30`, `text-muted-foreground`) and its height. */
  datatype Cell = Cell(dayLabel: int, cards: seq<MarketingEvent>, muted: bool, minHeight: int)

  function CellFor(events: seq<MarketingEvent>, month: int, day: Date): Cell
  {
    var shown := EventsToShow(events, day);
    Cell(day.day, shown, !IsCurrentMonth(day, month), MinHeight(|shown|))
  }

  /** Exactly the cells outside columns w .. w + DaysInMonth - 1 are muted,
      and the unmuted ones are labelled 1 .. DaysInMonth. */
  lemma MutedCells(year: int, month: Month0, events: seq<MarketingEvent>, i: int)
    requires 0 <= i < 42
    ensures var w := FirstWeekday(year, month);
      var cell := CellFor(events, month, MonthGrid(year, month)[i]);
      (cell.muted <==> !(w <= i < w + DaysInMonth(year, month))) &&
      (!cell.muted ==> cell.dayLabel == i - w + 1)
  {
    GridCell(year, month, i);
  }
}
