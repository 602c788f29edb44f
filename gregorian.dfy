/** Proleptic Gregorian calendar arithmetic: the part of the JavaScript
    `Date` object the calendar relies on. Every `Date` the calendar builds
    is local midnight, so a date is its (year, zero-based month, day)
    fields, and comparing two dates or subtracting their times reduces to
    comparing day numbers. */
module Gregorian {

  /** A zero-based month, as `Date.getMonth()` returns it. */
  type Month0 = m: int | 0 <= m < 12

  datatype Date = Date(year: int, month: Month0, day: int)

  predicate IsLeapYear(year: int)
  {
    (year % 4 == 0 && year % 100 != 0) || year % 400 == 0
  }

  function DaysInMonth(year: int, month: Month0): (n: int)
    ensures 28 <= n <= 31
    ensures month == 1 ==> (n == 29 <==> IsLeapYear(year))
  {
    if month == 1 then (if IsLeapYear(year) then 29 else 28)
    else if month == 3 || month == 5 || month == 8 || month == 10 then 30
    else 31
  }

  /** The dates a JavaScript `Date` can hold: the day lies inside its month. */
  predicate ValidDate(d: Date)
  {
    1 <= d.day <= DaysInMonth(d.year, d.month)
  }

  function YearLength(year: int): int
  {
    if IsLeapYear(year) then 366 else 365
  }

  /** Days from 0001-01-01 to January 1st of `year` (negative before it),
      counted year by year. */
  function DaysBeforeYear(year: int): int
    decreases if year >= 1 then year - 1 else 1 - year
  {
    if year == 1 then 0
    else if year > 1 then DaysBeforeYear(year - 1) + YearLength(year - 1)
    else DaysBeforeYear(year + 1) - YearLength(year)
  }

  /** The closed form of the count: 365 days a year plus one for each
      leap year. Dafny's division rounds down, so it holds for every year. */
  function DaysBeforeYearClosedForm(year: int): int
  {
    var n := year - 1;
    365 * n + n / 4 - n / 100 + n / 400
  }

  const CumulativeDays: seq<int> := [0, 31, 59, 90, 120, 151, 181, 212, 243, 273, 304, 334]

  /** Days from January 1st to the first of `month` in `year`. */
  function DaysBeforeMonth(year: int, month: Month0): int
  {
    CumulativeDays[month] + (if month >= 2 && IsLeapYear(year) then 1 else 0)
  }

  /** The day's position on the time line: days since 0001-01-01. */
  function DayNumber(d: Date): int
  {
    DaysBeforeYear(d.year) + DaysBeforeMonth(d.year, d.month) + d.day - 1
  }

  /** `Date.getDay()`: 0 is Sunday. 0001-01-01 was a Monday. */
  function Weekday(d: Date): (w: int)
    ensures 0 <= w < 7
  {
    (DayNumber(d) + 1) % 7
  }

  /** The first of `month` after folding the month into 0..11, as
      `new Date(year, month, 1)` does. */
  function FirstOfMonth(year: int, month: int): Date
  {
    Date(year + month / 12, month % 12, 1)
  }

  lemma YearLengthStep(year: int)
    ensures DaysBeforeYear(year + 1) == DaysBeforeYear(year) + YearLength(year)
  {
  }

  lemma {:induction false} ClosedFormStep(year: int)
    ensures DaysBeforeYearClosedForm(year + 1) == DaysBeforeYearClosedForm(year) + YearLength(year)
  {
    var n := year - 1;
    assert DaysBeforeYearClosedForm(year + 1) == 365 * year + year / 4 - year / 100 + year / 400;
    assert DaysBeforeYearClosedForm(year) == 365 * n + n / 4 - n / 100 + n / 400;
    QuotientStep4(year);
    QuotientStep100(year);
    QuotientStep400(year);
    assert YearLength(year) == 365 + (if year % 4 == 0 then 1 else 0)
      - (if year % 100 == 0 then 1 else 0) + (if year % 400 == 0 then 1 else 0) by {
      LeapYearCases(year);
    }
  }

  lemma LeapYearCases(year: int)
    ensures year % 400 == 0 ==> year % 100 == 0
    ensures year % 100 == 0 ==> year % 4 == 0
  {
  }

  /** Floor division by 4, 100 and 400 steps up by one exactly at a multiple. */
  lemma QuotientStep4(year: int)
    ensures year / 4 == (year - 1) / 4 + (if year % 4 == 0 then 1 else 0)
  {
  }

  lemma QuotientStep100(year: int)
    ensures year / 100 == (year - 1) / 100 + (if year % 100 == 0 then 1 else 0)
  {
  }

  lemma QuotientStep400(year: int)
    ensures year / 400 == (year - 1) / 400 + (if year % 400 == 0 then 1 else 0)
  {
  }

  /** The year-by-year count agrees with the leap-year formula. */
  lemma {:induction false} DaysBeforeYearFormula(year: int)
    ensures DaysBeforeYear(year) == DaysBeforeYearClosedForm(year)
    decreases if year >= 1 then year - 1 else 1 - year
  {
    if year > 1 {
      DaysBeforeYearFormula(year - 1);
      ClosedFormStep(year - 1);
    } else if year < 1 {
      DaysBeforeYearFormula(year + 1);
      ClosedFormStep(year);
    }
  }

  /** The first of the next month is DaysInMonth days after the first of this one. */
  lemma MonthStep(year: int, month: Month0)
    ensures month < 11 ==>
      DayNumber(Date(year, month + 1, 1)) == DayNumber(Date(year, month, 1)) + DaysInMonth(year, month)
    ensures month == 11 ==>
      DayNumber(Date(year + 1, 0, 1)) == DayNumber(Date(year, month, 1)) + DaysInMonth(year, month)
  {
    if month == 11 {
      YearLengthStep(year);
    }
  }

  /** The date `day - 1` days after the first of `month`: a day outside
      the month spills into the months before or after it. */
  function SpillDay(year: int, month: Month0, day: int): (d: Date)
    ensures ValidDate(d)
    ensures DayNumber(d) == DayNumber(Date(year, month, 1)) + day - 1
    decreases if day < 1 then 1 else 0, if day < 1 then -day else day
  {
    if day < 1 then
      var py, pm := if month == 0 then year - 1 else year, if month == 0 then 11 else month - 1;
      MonthStep(py, pm);
      SpillDay(py, pm, day + DaysInMonth(py, pm))
    else if day > DaysInMonth(year, month) then
      var ny, nm := if month == 11 then year + 1 else year, if month == 11 then 0 else month + 1;
      MonthStep(year, month);
      SpillDay(ny, nm, day - DaysInMonth(year, month))
    else
      Date(year, month, day)
  }

  /** `new Date(year, month, day)`: the month is folded into 0..11 with a
      year carry, then the day spills over month boundaries. */
  function MakeDate(year: int, month: int, day: int): (d: Date)
    ensures ValidDate(d)
    ensures DayNumber(d) == DayNumber(FirstOfMonth(year, month)) + day - 1
  {
    SpillDay(year + month / 12, month % 12, day)
  }

  /** `new Date(y, ...)` reads the years 0..99 as 1900..1999. */
  function FullYear(y: int): (r: int)
    ensures r < 0 || r >= 100
    ensures r == y || r == y + 1900
    ensures y < 0 || y >= 100 ==> r == y
  {
    if 0 <= y <= 99 then 1900 + y else y
  }

  /** `new Date(year, month, day)` as JS evaluates it: the two-digit year
      remap, then the month and day folding of `MakeDate`. */
  function NewDate(year: int, month: int, day: int): (d: Date)
    ensures ValidDate(d)
    ensures DayNumber(d) == DayNumber(FirstOfMonth(FullYear(year), month)) + day - 1
  {
    MakeDate(FullYear(year), month, day)
  }

  /** Days from 0001-01-01 to 1970-01-01, the origin of JS time values. */
  const UnixEpochDay: int := 719162

  /** A JS time value lies within 8.64e15 ms, that is 10^8 days, of
      1970-01-01 UTC; a `Date` outside is invalid. The local midnight of a
      day is taken in a time zone east of UTC (such as Korea Standard
      Time), which puts the last valid day at +10^8 and the first at
      -10^8 + 1. */
  predicate InTimeRange(d: Date)
  {
    -100000000 < DayNumber(d) - UnixEpochDay <= 100000000
  }

  lemma ClosedFormAnchors()
    ensures DaysBeforeYearClosedForm(1970) == 719162
    ensures DaysBeforeYearClosedForm(2000) == 730119
    ensures DaysBeforeYearClosedForm(2024) == 738885
  {
  }

  /** 1970-01-01, the origin of JS time values, is day `UnixEpochDay`, a
      Thursday. */
  lemma UnixEpochAnchor(d: Date)
    requires d == Date(1970, 0, 1)
    ensures DayNumber(d) == UnixEpochDay
    ensures Weekday(d) == 4
  {
    DaysBeforeYearFormula(d.year);
    ClosedFormAnchors();
  }

  /** 2000-01-01 was a Saturday. */
  lemma Y2000Anchor(d: Date)
    requires d == Date(2000, 0, 1)
    ensures Weekday(d) == 6
  {
    DaysBeforeYearFormula(d.year);
    ClosedFormAnchors();
  }

  /** 2024-03-01, after a leap day, was a Friday. */
  lemma LeapYearAnchor(d: Date)
    requires d == Date(2024, 2, 1)
    ensures Weekday(d) == 5
  {
    DaysBeforeYearFormula(d.year);
    ClosedFormAnchors();
  }

  /** A digit run of 2^53 or more, where `Number` stops being exact, puts
      the date out of the JS range whichever field it is, so the rounding
      never changes whether the date is valid. */
  lemma HugeFieldOutOfRange(y: nat, m: nat, d: nat)
    requires y >= 0x20_0000_0000_0000 || m >= 0x20_0000_0000_0000 || d >= 0x20_0000_0000_0000
    ensures !InTimeRange(NewDate(y, m - 1, d))
  {
    var year := FullYear(y) + (m - 1) / 12;
    assert FirstOfMonth(FullYear(y), m - 1) == Date(year, (m - 1) % 12, 1);
    DaysBeforeYearFormula(year);
    var n := year - 1;
    assert n >= 98;
    assert n / 4 - n / 100 >= 0;
    assert DayNumber(NewDate(y, m - 1, d)) >= 365 * n + d - 1;
    if y >= 0x20_0000_0000_0000 {
      assert n >= 0x20_0000_0000_0000 - 2;
    } else if m >= 0x20_0000_0000_0000 {
      assert (m - 1) / 12 >= 100000000;
    }
  }

  /** A day at most one month outside `month` lands in the neighbouring
      month: before day 1 in the previous one, after the last day in the
      next one. */
  lemma SpillOneMonth(year: int, month: Month0, day: int)
    requires -27 <= day <= DaysInMonth(year, month) + 28
    ensures day < 1 ==>
      SpillDay(year, month, day) ==
        if month == 0 then Date(year - 1, 11, day + 31)
        else Date(year, month - 1, day + DaysInMonth(year, month - 1))
    ensures 1 <= day <= DaysInMonth(year, month) ==> SpillDay(year, month, day) == Date(year, month, day)
    ensures day > DaysInMonth(year, month) ==>
      SpillDay(year, month, day) ==
        if month == 11 then Date(year + 1, 0, day - 31)
        else Date(year, month + 1, day - DaysInMonth(year, month))
  {
    if day < 1 {
      var py, pm := if month == 0 then year - 1 else year, if month == 0 then 11 else month - 1;
      assert SpillDay(year, month, day) == SpillDay(py, pm, day + DaysInMonth(py, pm));
    } else if day > DaysInMonth(year, month) {
      var ny, nm := if month == 11 then year + 1 else year, if month == 11 then 0 else month + 1;
      assert SpillDay(year, month, day) == SpillDay(ny, nm, day - DaysInMonth(year, month));
    }
  }

  /** A day at most one month outside `month` stays in `month` exactly
      when it is one of the month's own days. */
  lemma SpillStaysInMonth(year: int, month: Month0, day: int)
    requires -27 <= day <= DaysInMonth(year, month) + 28
    ensures MakeDate(year, month, day).month == month <==> 1 <= day <= DaysInMonth(year, month)
    ensures 1 <= day <= DaysInMonth(year, month) ==> MakeDate(year, month, day) == Date(year, month, day)
  {
    assert month / 12 == 0 && month % 12 == month;
    SpillOneMonth(year, month, day);
  }

  /** Calendar order on the (year, month, day) fields. */
  predicate Before(a: Date, b: Date)
  {
    a.year < b.year ||
    (a.year == b.year && (a.month < b.month || (a.month == b.month && a.day < b.day)))
  }

  lemma {:induction false} DaysBeforeYearMonotone(a: int, b: int)
    requires a <= b
    ensures DaysBeforeYear(a) <= DaysBeforeYear(b)
    decreases b - a
  {
    if a < b {
      YearLengthStep(a);
      DaysBeforeYearMonotone(a + 1, b);
    }
  }

  lemma {:induction false} DaysBeforeMonthMonotone(year: int, a: Month0, b: Month0)
    requires a < b
    ensures DaysBeforeMonth(year, a) + DaysInMonth(year, a) <= DaysBeforeMonth(year, b)
    decreases b - a
  {
    MonthStep(year, a);
    if a + 1 < b {
      DaysBeforeMonthMonotone(year, a + 1, b);
      MonthStep(year, a + 1);
    }
  }

  lemma DayNumberWithinYear(d: Date)
    requires ValidDate(d)
    ensures DaysBeforeYear(d.year) <= DayNumber(d) < DaysBeforeYear(d.year) + YearLength(d.year)
  {
  }

  lemma BeforeHasSmallerDayNumber(a: Date, b: Date)
    requires ValidDate(a) && ValidDate(b) && Before(a, b)
    ensures DayNumber(a) < DayNumber(b)
  {
    if a.year < b.year {
      DayNumberWithinYear(a);
      DayNumberWithinYear(b);
      YearLengthStep(a.year);
      DaysBeforeYearMonotone(a.year + 1, b.year);
    } else if a.month < b.month {
      DaysBeforeMonthMonotone(a.year, a.month, b.month);
    }
  }

  /** On valid dates, day-number order is calendar order: the comparison
      JavaScript performs on two local-midnight dates. */
  lemma DayNumberOrder(a: Date, b: Date)
    requires ValidDate(a) && ValidDate(b)
    ensures Before(a, b) <==> DayNumber(a) < DayNumber(b)
  {
    if Before(a, b) {
      BeforeHasSmallerDayNumber(a, b);
    } else if a != b {
      BeforeHasSmallerDayNumber(b, a);
    }
  }

  /** Two valid dates with the same day number are the same date. */
  lemma DayNumberInjective(a: Date, b: Date)
    requires ValidDate(a) && ValidDate(b) && DayNumber(a) == DayNumber(b)
    ensures a == b
  {
    DayNumberOrder(a, b);
    DayNumberOrder(b, a);
  }

  /** `new Date(year, month, day)` for a day inside the folded month is
      that very date. */
  lemma MakeDateInMonth(year: int, month: int, day: int)
    requires 1 <= day <= DaysInMonth(year + month / 12, month % 12)
    ensures MakeDate(year, month, day) == Date(year + month / 12, month % 12, day)
  {
  }

  /** Two arguments naming the same day give the same date. */
  lemma MakeDateShift(y1: int, m1: int, d1: int, y2: int, m2: int, d2: int)
    requires DayNumber(FirstOfMonth(y1, m1)) + d1 == DayNumber(FirstOfMonth(y2, m2)) + d2
    ensures MakeDate(y1, m1, d1) == MakeDate(y2, m2, d2)
  {
    DayNumberInjective(MakeDate(y1, m1, d1), MakeDate(y2, m2, d2));
  }

  /** The month after `month`: its first day is DaysInMonth days later. */
  lemma NextFirstOfMonth(year: int, month: int)
    ensures DayNumber(FirstOfMonth(year, month + 1))
         == DayNumber(FirstOfMonth(year, month)) + DaysInMonth(year + month / 12, month % 12)
  {
    var y, m := year + month / 12, month % 12;
    MonthStep(y, m);
    if m == 11 {
      assert (month + 1) / 12 == month / 12 + 1 && (month + 1) % 12 == 0;
    } else {
      assert (month + 1) / 12 == month / 12 && (month + 1) % 12 == m + 1;
    }
  }

  /** `new Date(year, month + 1, 0)` is the last day of the month, so its
      `getDate()` is the month's length. */
  lemma LastDayOfMonth(year: int, month: int)
    ensures MakeDate(year, month + 1, 0)
         == Date(year + month / 12, month % 12, DaysInMonth(year + month / 12, month % 12))
  {
    NextFirstOfMonth(year, month);
    var last := Date(year + month / 12, month % 12, DaysInMonth(year + month / 12, month % 12));
    DayNumberInjective(MakeDate(year, month + 1, 0), last);
  }

  /** Day `i` of the next month is day `DaysInMonth + i` of this one. */
  lemma NextMonthDay(year: int, month: int, i: int)
    ensures MakeDate(year, month + 1, i)
         == MakeDate(year, month, DaysInMonth(year + month / 12, month % 12) + i)
  {
    NextFirstOfMonth(year, month);
    MakeDateShift(year, month + 1, i, year, month, DaysInMonth(year + month / 12, month % 12) + i);
  }

  /** The 1st of the next month is the day after the month's last day. */
  lemma MonthsAdjacent(year: int, month: Month0)
    ensures DayNumber(FirstOfMonth(year, month + 1)) == DayNumber(Date(year, month, DaysInMonth(year, month))) + 1
  {
    assert month / 12 == 0 && month % 12 == month;
    assert FirstOfMonth(year, month) == Date(year, month, 1);
    NextFirstOfMonth(year, month);
  }
}
