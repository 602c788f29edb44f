# Marketing events calendar — a Dafny model

The system is a React calendar of marketing events. It shows a 42-cell,
Sunday-first month grid. Each event is a card on its start day. Four
"solution" filter buttons narrow the list. There are two app shells: an
editable admin app with add, edit and delete dialogs, and a view-only app.

This project models the parts of that program that compute something:

- **Date engine** (`gregorian.dfy`, `datekey.dfy`, `calendar_utils.dfy`):
  - proleptic Gregorian dates as `(year, month0, day)` with a day number;
  - the `new Date(y, m, d)` normalisation of months and days that spill over;
  - the `YYYY-MM-DD` key written by `formatDate` and read by `parseDateKST`;
  - the 42-cell month grid built by `getMonthDays`;
  - `getEventsForDay`, a range filter followed by a stable sort on the start day;
  - the start, end and continuation tests of a cell.
- **Grid placement** (`calendar_grid.dfy`): week chunking, the largest
  per-day count, the start-day filter of each cell, cell heights, and
  out-of-month muting.
- **Shared handlers** (`app_handlers.dfy`): the solution filter, month
  navigation with wrap-around, the toggle of a solution, and
  add / replace-by-id / remove-by-id on the event list.
- **Filter header** (`calendar_header.dfy`): the highlight predicate, the
  button colour, and the "Clear All" loop of toggle calls.
- **Event forms** (`event_form.dfy`, `add_event_modal.dfy`,
  `edit_event_modal.dfy`): each form is a class with its seven setter-driven
  fields, its required-field guard, and how it builds the record and resets.
- **App shells** (`admin_app.dfy`, `view_only_app.dfy`): the component state
  as a class whose handler methods change its fields.
- **Data model** (`types.dfy`, `constants.dfy`): the `Solution`
  enumeration, the event record, and the lookup tables.

Dates are integer triples throughout. Every JS `Date` in this code is a
local midnight, so comparing dates and subtracting their `getTime()`
values come down to comparing day numbers. The model follows these
behaviours of the code:

- `parseDateKST` uses `Number` on each piece. A piece that is not a run of
  digits is NaN, and the result is an invalid date, modelled as `None`. An
  invalid date lies in no range.
- Every `new Date(y, …)` call, in `parseDateKST` and in `getMonthDays`,
  reads the years 0..99 as 1900..1999, so the key round trip holds from
  year 100 on.
- A JS date more than 10^8 days away from 1970-01-01 is invalid. A parsed
  key outside that range is therefore `None`. A piece of 2^53 or more, where
  `Number` starts to round, always lands outside the range, so the rounding
  never changes the outcome.
- A day outside its month, such as `2024-02-30`, is normalised into the
  next month, as `new Date` does.
- An empty `endDate` counts as absent.
- Saving an edit always drops `endDate`, so editing a multi-day event
  turns it into a one-day event.

There is no drag-to-reschedule logic in the code: both drop handlers are
no-ops and the grid has no drop prop. The model therefore has no
reschedule operation. The drop handlers are methods that may change
nothing.

## Model

| member | source | states |
|---|---|---|
| Types.SolutionNameInjective | src/lib/types.ts:1 | the four `Solution` tags have four different names, so the union is a closed enumeration of exactly four values |
| Constants.SolutionsEnumerateAll | src/lib/constants.ts:3-8 | `SOLUTIONS` has length 4, no duplicates, contains every tag, in the order AI, Cloud, Security, All CSAs |
| Constants.SolutionColorsDistinct | src/lib/constants.ts:10-15 | the colour table gives different tags different colours |
| Constants.SolutionColorClassWrapsColor | src/lib/constants.ts:17-22 | each background class is the tag's colour wrapped in `bg-[` … `]` |
| Constants.DaysOfWeekSundayFirst | src/lib/constants.ts:24 | seven distinct headers, "Sun" at index 0 and "Sat" at index 6, matching the weekday index of the grid columns |
| Gregorian.DaysInMonth | src/lib/calendar-utils.ts:5-8 | every month has 28..31 days, and February has 29 exactly in a leap year (the day `new Date(y, m + 1, 0)` reports) |
| Gregorian.Weekday | src/lib/calendar-utils.ts:7 | `getDay()` is a column index in 0..6 |
| Gregorian.DaysBeforeYearFormula | src/lib/calendar-utils.ts:4-5 | the year-by-year day count equals the closed Gregorian formula `365(y-1) + ⌊(y-1)/4⌋ - ⌊(y-1)/100⌋ + ⌊(y-1)/400⌋` for every year, negative ones included |
| Gregorian.FullYear | src/lib/calendar-utils.ts:46 | the year `new Date` uses: 0..99 become 1900..1999, every other year is kept, so the result is never in 0..99 |
| Gregorian.NewDate | src/lib/calendar-utils.ts:46 | `new Date(y, m, d)` is a valid date `d - 1` days after the 1st of month `m` of the year `FullYear(y)`, with the month folded into the year |
| Gregorian.InTimeRange | src/lib/calendar-utils.ts:46 | definition: a date is valid in JS when it lies within 10^8 days of 1970-01-01; `DateKey.ParseDate` and `Gregorian.HugeFieldOutOfRange` state what follows from it |
| Gregorian.UnixEpochAnchor | src/lib/calendar-utils.ts:7 | 1970-01-01 is day `UnixEpochDay` of the count and its `getDay()` is 4 (Thursday) |
| Gregorian.Y2000Anchor | src/lib/calendar-utils.ts:7 | the `getDay()` of 2000-01-01 is 6 (Saturday) |
| Gregorian.LeapYearAnchor | src/lib/calendar-utils.ts:7 | the `getDay()` of 2024-03-01, the day after a leap day, is 5 (Friday) |
| Gregorian.HugeFieldOutOfRange | src/lib/calendar-utils.ts:45-46 | a year, month or day piece of 2^53 or more puts the date outside the JS range, so `Number`'s rounding of such a piece does not change the result |
| Gregorian.SpillDay | src/lib/calendar-utils.ts:13 | a day number outside the month normalises to a valid date lying `day - 1` days after the 1st |
| Gregorian.MakeDate | src/lib/calendar-utils.ts:4-5 | the month and day folding of `new Date(y, m, d)` for a year taken as it is: a valid date `d - 1` days after the 1st of month `m`, with the month folded into the year |
| Gregorian.SpillOneMonth | src/lib/calendar-utils.ts:13 | up to a month before day 1 lands in the previous month (December of the previous year for January); up to a month after the last day lands in the next month |
| Gregorian.SpillStaysInMonth | src/lib/calendar-utils.ts:12-24 | a day at most a month away stays in the month exactly when it is one of the month's own days, and then it is unchanged |
| Gregorian.DayNumberOrder | src/lib/calendar-utils.ts:55 | on valid dates, calendar order of the fields is the order of day numbers, in both directions |
| Gregorian.DayNumberInjective | src/lib/calendar-utils.ts:61 | two valid dates with the same day number (the same `getTime()`) are the same date |
| Gregorian.MakeDateInMonth | src/lib/calendar-utils.ts:46 | `new Date(y, m, d)` with a day inside the month is exactly `(y, m, d)` after folding the month |
| Gregorian.MakeDateShift | src/lib/calendar-utils.ts:23 | two `new Date` calls naming the same day number give the same date |
| Gregorian.LastDayOfMonth | src/lib/calendar-utils.ts:5-8 | `new Date(y, m + 1, 0)` is the last day of month `m`, so its `getDate()` is the month's length |
| Gregorian.NextMonthDay | src/lib/calendar-utils.ts:23 | day `i` of the next month is day `DaysInMonth + i` of this month |
| Gregorian.MonthsAdjacent | src/lib/calendar-utils.ts:5 | the 1st of the next month is the day after the last day of this month |
| DateKey.NatToString | src/lib/calendar-utils.ts:39-40 | `String(n)` is a non-empty run of decimal digits |
| DateKey.PadStart2 | src/lib/calendar-utils.ts:39-40 | `padStart(2, '0')` puts zeros in front of a string shorter than two characters until it has two, and leaves a longer string as it is |
| DateKey.IntToString | src/lib/calendar-utils.ts:41 | definition: the year as the template literal writes it, a minus sign before the digits of a negative year; `DateKey.FormatDateFields` states that it reads back |
| DateKey.NatToStringLength | src/lib/calendar-utils.ts:39-41 | one-digit numbers print as 1 character, two-digit as 2 and four-digit as 4 |
| DateKey.FormatDate | src/lib/calendar-utils.ts:37-42 | a valid date with a four-digit year writes a ten-character `YYYY-MM-DD` key of digits with '-' at positions 4 and 7 |
| DateKey.Split | src/lib/calendar-utils.ts:45 | `split` always yields at least one piece |
| DateKey.SplitThree | src/lib/calendar-utils.ts:45 | three dash-free pieces joined by '-' split back into exactly those three |
| DateKey.NumberValue | src/lib/calendar-utils.ts:45 | definition: `Number` of a digit run is its decimal value and of any other piece NaN; `DateKey.DigitsValueOfNat` and `DateKey.DigitsValueLeadingZero` state its values |
| DateKey.DigitsValueOfNat | src/lib/calendar-utils.ts:39-45 | `Number(String(n)) == n` |
| DateKey.DigitsValueLeadingZero | src/lib/calendar-utils.ts:39-45 | a leading '0' from padding does not change the number read back |
| DateKey.PaddedFieldValue | src/lib/calendar-utils.ts:39-45 | a padded month or day field contains no '-' and reads back as its number |
| DateKey.FormatDateFields | src/lib/calendar-utils.ts:37-45 | a formatted valid date with a non-negative year splits into three pieces that read back as the year, the 1-based month and the day |
| DateKey.ParseDate | src/lib/calendar-utils.ts:44-47 | whatever the string, a parsed date that is not Invalid Date is a valid calendar date inside the JS time range |
| DateKey.ParseFormatRoundTrip | src/lib/calendar-utils.ts:37-47 | `parseDateKST(formatDate(d)) == d` for every valid date in the JS time range from year 100 on |
| CalendarUtils.FirstWeekday | src/lib/calendar-utils.ts:4-7 | the weekday of the 1st is a column index in 0..6 |
| CalendarUtils.MonthGrid | src/lib/calendar-utils.ts:3-27 | the reference grid has exactly 42 cells |
| CalendarUtils.GetMonthDays | src/lib/calendar-utils.ts:3-27 | the three push loops build exactly the reference grid of the year `new Date` reads (`FullYear(y)`): cell `i` is `new Date(y, m, i - startDay + 1)`, and there are 42 cells for every month |
| CalendarUtils.GridDayNumber | src/lib/calendar-utils.ts:12-24 | every cell is a valid date, and cell `i` lies `i - startDay` days after the 1st |
| CalendarUtils.GridConsecutive | src/lib/calendar-utils.ts:12-24 | the 42 cells are consecutive calendar days |
| CalendarUtils.GridColumns | src/lib/calendar-utils.ts:4-19 | cell 0 is a Sunday, cell `i` falls on weekday `i mod 7`, and the 1st sits at index `startDay` |
| CalendarUtils.GridCell | src/lib/calendar-utils.ts:12-24 | cell `i` is in the current month exactly when `startDay <= i < startDay + daysInMonth`, and then it is day `i - startDay + 1` of that month |
| CalendarUtils.GridMonthCells | src/lib/calendar-utils.ts:17-19 | the same for all 42 cells at once |
| CalendarUtils.IsSameDay | src/lib/calendar-utils.ts:29-35 | definition: same year, same month and same day; `CalendarUtils.SameDayIsEquality` states that this is equality of dates |
| CalendarUtils.IsCurrentMonth | src/lib/calendar-utils.ts:79-81 | definition: the month field equals the month shown; `CalendarUtils.GridCell` and `CalendarGrid.MutedCells` state which cells pass |
| CalendarUtils.SameDayIsEquality | src/lib/calendar-utils.ts:29-35 | `isSameDay` holds exactly for equal dates, so it is reflexive, symmetric and transitive |
| CalendarUtils.SameDayIffSameDayNumber | src/lib/calendar-utils.ts:29-35 | on valid dates, `isSameDay` agrees with equal `getTime()` (equal day numbers), both ways |
| CalendarUtils.EventStart | src/lib/calendar-utils.ts:52 | definition: `parseDateKST(event.date)`, with Invalid Date as `None`; `CalendarUtils.EventsForDay` states the filter built on it |
| CalendarUtils.EventEnd | src/lib/calendar-utils.ts:53 | definition: the parsed `endDate` when it is a non-empty string, else the start; `CalendarUtils.SingleDayStartIsEnd` states the fallback |
| CalendarUtils.Covers | src/lib/calendar-utils.ts:51-56 | definition: both ends are valid dates and the day lies between them inclusive; `CalendarUtils.EventsForDay` and `CalendarUtils.InvertedRangeNeverShown` state what it selects |
| CalendarUtils.EventsForDay | src/lib/calendar-utils.ts:49-63 | the result holds exactly the events whose inclusive range `[date, endDate ?? date]` contains the day, each as often as in the input, and is sorted by start day |
| CalendarUtils.EventsForDayStable | src/lib/calendar-utils.ts:58-62 | events with equal starts keep their input order (the sort is stable) |
| CalendarUtils.InvertedRangeNeverShown | src/lib/calendar-utils.ts:55 | an event whose end is before its start is never returned for any day |
| CalendarUtils.IsEventStartDay | src/lib/calendar-utils.ts:65-68 | definition: the start parses and is the same day as the cell; `CalendarUtils.StartDayCovered` and `CalendarUtils.SingleDayStartIsEnd` state its behaviour |
| CalendarUtils.IsEventEndDay | src/lib/calendar-utils.ts:70-73 | definition: the end (or, without one, the start) parses and is the same day as the cell; `CalendarUtils.SingleDayStartIsEnd` states its behaviour |
| CalendarUtils.IsEventContinuation | src/lib/calendar-utils.ts:75-77 | definition: neither the start nor the end day; `CalendarUtils.ContinuationOutsideSpan` and `CalendarUtils.CoveredContinuationIsInterior` state which days pass |
| CalendarUtils.SingleDayStartIsEnd | src/lib/calendar-utils.ts:65-73 | without an end date, a day is the start day exactly when it is the end day, and the start is both |
| CalendarUtils.ContinuationOutsideSpan | src/lib/calendar-utils.ts:75-77 | `isEventContinuation` checks no coverage: a day before the whole span counts as a continuation though not covered |
| CalendarUtils.CoveredContinuationIsInterior | src/lib/calendar-utils.ts:75-77 | on a covered day, a continuation is exactly a day strictly inside the span |
| CalendarUtils.StartDayCovered | src/lib/calendar-utils.ts:51-68 | on its start day an event is covered exactly when its end is a valid date not before the start |
| CalendarGrid.FlattenAppend | src/components/CalendarGrid.tsx:17-20 | appending a week appends its days to the flattened grid |
| CalendarGrid.ChunkWeeks | src/components/CalendarGrid.tsx:17-20 | the loop's slices concatenate back to the days, there are `⌈n/7⌉` of them, and slice `j` is `days[7j .. min(7j+7, n)]` |
| CalendarGrid.MonthWeeks | src/components/CalendarGrid.tsx:15-20 | the weeks of a month are 6 rows of 7 whose concatenation is `getMonthDays`; cell `(r, c)` is grid cell `7r + c` and falls on weekday `c` |
| CalendarGrid.MaxWithOne | src/components/CalendarGrid.tsx:22-25 | `Math.max(...xs, 1)` is at least 1 and at least every element |
| CalendarGrid.MaxWithOneAttained | src/components/CalendarGrid.tsx:22-25 | `Math.max(...xs, 1)` is 1 or one of the elements |
| CalendarGrid.DayCounts | src/components/CalendarGrid.tsx:23 | one count per grid day, the size of that day's `getEventsForDay` |
| CalendarGrid.MaxEventsPerDay | src/components/CalendarGrid.tsx:22-25 | `maxEventsPerDay` is at least 1, at least each day's event count, and equal to 1 or to some day's count |
| CalendarGrid.EventsToShow | src/components/CalendarGrid.tsx:44-45 | a cell shows exactly the events of that day whose start day is the cell, as a subsequence of `getEventsForDay` in its order |
| CalendarGrid.EventsToShowMembers | src/components/CalendarGrid.tsx:44-45 | an event is shown in a cell exactly when it is in the list, starts on that day, and ends on a valid day not before its start |
| CalendarGrid.EventsToShowInInputOrder | src/components/CalendarGrid.tsx:44-45 | the cards of a cell are the covering events starting that day, in input order |
| CalendarGrid.MinHeight | src/components/CalendarGrid.tsx:47 | `max(60n + 40, 100)` is at least 100 and at least `60n + 40`, and equals `60n + 40` for every `n >= 1` |
| CalendarGrid.AtMostOneCard | src/components/CalendarGrid.tsx:45 | an event has a card in at most one of the 42 cells |
| CalendarGrid.NoCardBeforeGrid | src/components/CalendarGrid.tsx:45 | an event that starts before the first cell has no card anywhere in the grid, even if it covers visible days |
| CalendarGrid.CardOnStartCell | src/components/CalendarGrid.tsx:44-45 | an event with a well-ordered span that starts inside the grid has its card in its start-day cell |
| CalendarGrid.MutedCells | src/components/CalendarGrid.tsx:46-64 | a cell is muted exactly when it lies outside the month, and an unmuted cell is labelled with its day of the month |
| AppHandlers.FilteredEvents | src/app/AdminApp.tsx:62-65 | an empty selection gives the list unchanged; otherwise the result keeps exactly the events whose solution is selected, with their multiplicities, as an order-preserving subsequence |
| AppHandlers.SelectingEverySolution | src/app/AdminApp.tsx:62-65 | selecting all four solutions shows the full list too |
| AppHandlers.PrevMonth | src/app/AdminApp.tsx:67-74 | the month stays in 0..11 and the cursor names the month before, i.e. `(y, 0)` goes to `(y-1, 11)` and `(y, m)` to `(y, m-1)` |
| AppHandlers.NextMonth | src/app/AdminApp.tsx:76-83 | the month stays in 0..11 and the cursor names the month after, i.e. `(y, 11)` goes to `(y+1, 0)` and `(y, m)` to `(y, m+1)` |
| AppHandlers.PrevNextInverse | src/app/AdminApp.tsx:67-83 | next then prev, and prev then next, are the identity on `(year, month)` |
| AppHandlers.NextMonthIsAdjacent | src/app/AdminApp.tsx:76-83 | the 1st of the next month shown is the day after the last day of the current one |
| AppHandlers.ToggleSolution | src/app/AdminApp.tsx:85-90 | the solution is in the result exactly when it was absent before, other solutions are unaffected, an absent one is appended at the end, and a present one is filtered out with the rest kept in order |
| AppHandlers.ToggleNoDuplicates | src/app/AdminApp.tsx:85-90 | a duplicate-free selection stays duplicate-free |
| AppHandlers.ToggleTwiceAbsent | src/app/AdminApp.tsx:85-90 | toggling an absent solution twice restores the selection exactly |
| AppHandlers.ToggleTwicePresent | src/app/AdminApp.tsx:85-90 | toggling a present solution twice moves it to the end |
| AppHandlers.ApplyTogglesSnoc | src/components/CalendarHeader.tsx:146-151 | a run of toggle calls followed by one more is that toggle applied to the run's result |
| AppHandlers.AddEvent | src/app/AdminApp.tsx:121-123 | the new event is appended at the end and the earlier elements are unchanged |
| AppHandlers.UpdateEvent | src/app/AdminApp.tsx:125-127 | length and ids are kept; every element with the matching id is replaced, every other element is identical |
| AppHandlers.DeleteEvent | src/app/AdminApp.tsx:129-130 | exactly the events with another id remain, with their multiplicities, in order |
| AppHandlers.UpdateIdempotent | src/app/AdminApp.tsx:125-127 | updating twice with the same record is updating once |
| AppHandlers.UpdateAbsentId | src/app/AdminApp.tsx:125-127 | updating with an id not in the list leaves the list unchanged |
| AppHandlers.DeleteAfterUpdate | src/app/AdminApp.tsx:125-130 | deleting an id after updating it is the same as deleting it on the original list (identity is the id alone) |
| AppHandlers.DeleteAfterAdd | src/app/AdminApp.tsx:121-130 | deleting the id just added removes the added event; with a fresh id it restores the list |
| AppHandlers.DeleteIdempotent | src/app/AdminApp.tsx:129-130 | deleting the same id twice is deleting it once |
| CalendarHeader.IsAllSelected | src/components/CalendarHeader.tsx:29 | definition: the selection is empty; `CalendarHeader.HighlightedButtons` states what it means for the buttons |
| CalendarHeader.IsHighlighted | src/components/CalendarHeader.tsx:75-126 | definition: all selected or this solution selected; `CalendarHeader.HighlightedButtons` and `CalendarHeader.ButtonColor` state its behaviour |
| CalendarHeader.ShowClearAll | src/components/CalendarHeader.tsx:142 | definition: shown exactly when something is selected; `CalendarHeader.ClearAllCalls` states what the button does |
| CalendarHeader.ButtonColor | src/components/CalendarHeader.tsx:79-83 | a button has a background exactly when it is highlighted, and then it is the tag's colour |
| CalendarHeader.HighlightedButtons | src/components/CalendarHeader.tsx:75-126 | an empty selection highlights all four buttons; otherwise a button is highlighted exactly when its solution is selected |
| CalendarHeader.ClearAllCalls | src/components/CalendarHeader.tsx:142-151 | "Clear All" toggles each selected solution once in `SOLUTIONS` order, only when the button is shown, and the toggles leave the selection empty |
| CalendarHeader.ClearAllStep | src/components/CalendarHeader.tsx:147-150 | one loop step keeps "the calls so far are the selected solutions of the prefix, without duplicates" |
| CalendarHeader.ClearAllDone | src/components/CalendarHeader.tsx:147-151 | once the loop has covered every solution, the calls are the selection in list order and empty it |
| CalendarHeader.ClearAllEmpties | src/components/CalendarHeader.tsx:146-151 | toggling each selected solution exactly once, in any order, empties the selection |
| CalendarHeader.ApplyTogglesRemoves | src/components/CalendarHeader.tsx:146-151 | distinct toggle calls on selected solutions remove exactly those solutions |
| EventForm.OrEmpty | src/components/EditEventModal.tsx:44-47 | `x \|\| ''` is the value when present and `''` when absent |
| EventForm.OrUndefined | src/components/AddEventModal.tsx:61-62 | `s \|\| undefined` is absent exactly for the empty string, and otherwise the string |
| EventForm.OrEmptyOrUndefined | src/components/EditEventModal.tsx:44-77 | a form string saved into a record and loaded back into the form is unchanged |
| EventForm.OrUndefinedOrEmpty | src/components/EditEventModal.tsx:44-77 | an optional field survives load then save exactly when it is not the empty string |
| AddEventModal.SubmitAdd | src/components/AddEventModal.tsx:47-63 | submit is rejected exactly when title, date, time or location is empty; an accepted record copies title, solution, date, time and location, has no end date, and drops empty URLs |
| AddEventModal.SubmitAddKeepsInputs | src/components/AddEventModal.tsx:55-63 | an accepted record carries every form input back, and never carries an empty URL string |
| AddEventModal.AddEventForm.constructor | src/components/AddEventModal.tsx:29-35 | the form starts all-empty with solution AI Business Solutions |
| AddEventModal.AddEventForm.SetTitle | src/components/AddEventModal.tsx:88 | the setter changes its field only |
| AddEventModal.AddEventForm.SetSolution | src/components/AddEventModal.tsx:96 | the setter changes its field only |
| AddEventModal.AddEventForm.SetDate | src/components/AddEventModal.tsx:117 | the setter changes its field only |
| AddEventModal.AddEventForm.SetTime | src/components/AddEventModal.tsx:128 | the setter changes its field only |
| AddEventModal.AddEventForm.SetLocation | src/components/AddEventModal.tsx:139 | the setter changes its field only |
| AddEventModal.AddEventForm.SetRegPageUrl | src/components/AddEventModal.tsx:151 | the setter changes its field only |
| AddEventModal.AddEventForm.SetVivaEngageUrl | src/components/AddEventModal.tsx:162 | the setter changes its field only |
| AddEventModal.AddEventForm.ResetForm | src/components/AddEventModal.tsx:37-45 | all seven fields return to the initial form |
| AddEventModal.AddEventForm.HandleSubmit | src/components/AddEventModal.tsx:47-68 | emits the record exactly when the guard passes; then the form resets and the dialog closes, otherwise nothing changes |
| AddEventModal.AddEventForm.Cancel | src/components/AddEventModal.tsx:174-177 | cancel resets the form and closes the dialog |
| AddEventModal.AddEventForm.HandleOpenChange | src/components/AddEventModal.tsx:71-76 | closing the dialog resets the form; opening it changes nothing |
| EditEventModal.LoadForm | src/components/EditEventModal.tsx:39-49 | the form copies the event's fields, with a missing time or URL shown as `''` |
| EditEventModal.SubmitEdit | src/components/EditEventModal.tsx:61-78 | rejected exactly without an event or with an empty title, date or location (time is optional); the record keeps the event's id, copies the form, drops empty strings to absent, and has no end date |
| EditEventModal.DeleteRequest | src/components/EditEventModal.tsx:85-89 | a delete request is issued exactly when there is an event and the user confirms, and it names that event's id |
| EditEventModal.SaveUntouched | src/components/EditEventModal.tsx:39-78 | saving an unedited form returns the event with its end date removed (and empty optional strings dropped) |
| EditEventModal.EditEventForm.constructor | src/components/EditEventModal.tsx:31-37 | the form starts all-empty with solution AI Business Solutions |
| EditEventModal.EditEventForm.SetTitle | src/components/EditEventModal.tsx:116 | the setter changes its field only |
| EditEventModal.EditEventForm.SetSolution | src/components/EditEventModal.tsx:124 | the setter changes its field only |
| EditEventModal.EditEventForm.SetDate | src/components/EditEventModal.tsx:145 | the setter changes its field only |
| EditEventModal.EditEventForm.SetTime | src/components/EditEventModal.tsx:156 | the setter changes its field only |
| EditEventModal.EditEventForm.SetLocation | src/components/EditEventModal.tsx:166 | the setter changes its field only |
| EditEventModal.EditEventForm.SetRegPageUrl | src/components/EditEventModal.tsx:178 | the setter changes its field only |
| EditEventModal.EditEventForm.SetVivaEngageUrl | src/components/EditEventModal.tsx:189 | the setter changes its field only |
| EditEventModal.EditEventForm.LoadEvent | src/components/EditEventModal.tsx:39-49 | a non-null event loads into the form; a null one leaves it as it was |
| EditEventModal.EditEventForm.ResetForm | src/components/EditEventModal.tsx:51-59 | all seven fields return to the initial form |
| EditEventModal.EditEventForm.HandleSubmit | src/components/EditEventModal.tsx:61-83 | emits the edited record exactly when the guard passes; then the form resets and the dialog closes, otherwise nothing changes |
| EditEventModal.EditEventForm.HandleDelete | src/components/EditEventModal.tsx:85-94 | with an event and confirmation it emits the id, resets and closes; otherwise nothing happens |
| EditEventModal.EditEventForm.Cancel | src/components/EditEventModal.tsx:201-204 | cancel resets the form and closes the dialog |
| EditEventModal.EditEventForm.HandleOpenChange | src/components/EditEventModal.tsx:99-104 | closing the dialog resets the form; opening it changes nothing |
| AdminApp.AdminAppState.constructor | src/app/AdminApp.tsx:28-60 | editable, empty list, no error, today's month, nothing selected, no dialog open |
| AdminApp.AdminAppState.LoadSucceeded | src/app/AdminApp.tsx:40-43 | a JSON array becomes the list, anything else the empty list, and the error clears; nothing else changes |
| AdminApp.AdminAppState.LoadFailed | src/app/AdminApp.tsx:44-48 | a failed load empties the list and keeps the message; nothing else changes |
| AdminApp.AdminAppState.HandlePrevMonth | src/app/AdminApp.tsx:67-74 | the cursor moves to the previous month and the month stays in 0..11; nothing else changes |
| AdminApp.AdminAppState.HandleNextMonth | src/app/AdminApp.tsx:76-83 | the cursor moves to the next month and the month stays in 0..11; nothing else changes |
| AdminApp.AdminAppState.HandleToggleSolution | src/app/AdminApp.tsx:85-90 | the selection is toggled; nothing else changes |
| AdminApp.AdminAppState.ClearAll | src/components/CalendarHeader.tsx:146-151 | the header's toggle calls, applied one by one, leave nothing selected so every button is highlighted; nothing else changes |
| AdminApp.AdminAppState.HandleEventClick | src/app/AdminApp.tsx:92-95 | the clicked event is selected and the detail dialog opens; nothing else changes |
| AdminApp.AdminAppState.HandleEventDrop | src/app/AdminApp.tsx:98-100 | the drop handler changes no state |
| AdminApp.AdminAppState.CloseDetail | src/app/AdminApp.tsx:187-190 | closing the detail dialog clears the selection; nothing else changes |
| AdminApp.AdminAppState.RequestEdit | src/app/AdminApp.tsx:191-194 | the edit dialog opens only in the editable app with an event selected |
| AdminApp.AdminAppState.OpenAdd | src/app/AdminApp.tsx:147 | the add dialog opens; nothing else changes |
| AdminApp.AdminAppState.CloseAdd | src/app/AdminApp.tsx:200 | the add dialog closes; nothing else changes |
| AdminApp.AdminAppState.CloseEdit | src/app/AdminApp.tsx:210 | the edit dialog closes; nothing else changes |
| AdminApp.AdminAppState.HandleAddEvent | src/app/AdminApp.tsx:121-123 | the list becomes `AddEvent` of the old list; nothing else changes |
| AdminApp.AdminAppState.HandleUpdateEvent | src/app/AdminApp.tsx:125-127 | the list becomes `UpdateEvent` of the old list; nothing else changes |
| AdminApp.AdminAppState.HandleDeleteEvent | src/app/AdminApp.tsx:129-134 | the list loses the id, the detail and edit dialogs close and the selection clears |
| AdminApp.AdminAppState.OnCreate | src/app/AdminApp.tsx:201-204 | add the event, then close the add dialog |
| AdminApp.AdminAppState.OnSave | src/app/AdminApp.tsx:211-214 | update the event, then close the edit dialog |
| ViewOnlyApp.ViewOnlyAppState.constructor | src/app/ViewOnlyApp.tsx:9-34 | not editable, empty list, today's month, nothing selected, detail closed |
| ViewOnlyApp.ViewOnlyAppState.Load | src/app/ViewOnlyApp.tsx:13-26 | the load effect is the only place the list is set: an array becomes the list, anything else or a failure the empty list |
| ViewOnlyApp.ViewOnlyAppState.HandlePrevMonth | src/app/ViewOnlyApp.tsx:43-50 | the cursor moves to the previous month, the month stays in 0..11, and the list is unchanged |
| ViewOnlyApp.ViewOnlyAppState.HandleNextMonth | src/app/ViewOnlyApp.tsx:52-59 | the cursor moves to the next month, the month stays in 0..11, and the list is unchanged |
| ViewOnlyApp.ViewOnlyAppState.HandleToggleSolution | src/app/ViewOnlyApp.tsx:61-66 | the selection is toggled and the list is unchanged |
| ViewOnlyApp.ViewOnlyAppState.ClearAll | src/components/CalendarHeader.tsx:146-151 | the header's toggle calls leave nothing selected and the list unchanged |
| ViewOnlyApp.ViewOnlyAppState.HandleEventClick | src/app/ViewOnlyApp.tsx:68-71 | the clicked event is selected and the detail dialog opens |
| ViewOnlyApp.ViewOnlyAppState.HandleEventDrop | src/app/ViewOnlyApp.tsx:73-75 | the drop handler changes no state |
| ViewOnlyApp.ViewOnlyAppState.CloseDetail | src/app/ViewOnlyApp.tsx:102-105 | closing the detail dialog clears the selection |
| ViewOnlyApp.ViewOnlyAppState.RequestEdit | src/app/ViewOnlyApp.tsx:106-108 | the edit request of the view-only app returns at once and changes no state |
| Seqs.Filter | src/app/AdminApp.tsx:64 | `filter` keeps exactly the elements satisfying the predicate, as an order-preserving subsequence |
| Seqs.FilterMultiset | src/lib/calendar-utils.ts:51-56 | `filter` keeps each satisfying element as often as it occurs |
| Seqs.SortBy | src/lib/calendar-utils.ts:58-62 | the sort is a permutation of its input and is non-decreasing by the key |
| Seqs.SortByStable | src/lib/calendar-utils.ts:58-62 | the sort keeps the input order among elements with equal keys |

## Left out

- The `fetch` of `events.json` and JSON parsing: it is I/O. The outcome is a parameter of the load methods, with an array as `Some(list)` and any other JSON value as `None`.
- Clipboard export, the Blob download and `window.open` in the admin app: they are browser I/O.
- Toast notifications and `console.error`: they are output only.
- `confirm(...)` in the edit dialog: it is a boolean parameter of the delete handler.
- The clock: `new Date()` for today is a pair of constructor parameters.
- `formatDateDisplay`, the month title of the header, and the detail dialog's date: these use `Intl`/locale formatting, which is foreign library behaviour.
- `EventCard`, `EventContinuation`, `EventDetailModal`, JSX and CSS class names other than the colour tables, and the `App.tsx` routing: they are pure rendering.
- The early `return null` of the edit dialog without an event: it is rendering. The handlers still guard on the event, as the code does.
- Prop wiring between the app and the dialogs: it is not modelled as a React binding. The admin app passes `onCreate`/`onSave` while the dialogs call `onAdd`/`onEdit`, and the add dialog creates no `id`. Each side is modelled by its own contract (`AdminApp.AdminAppState.OnCreate`, `AddEventModal.AddEventForm.HandleSubmit`).
- Daylight saving time and time zones: dates are local calendar fields, so comparing `Date`s and `getTime()` differences reduce to day numbers.
- DateKey.NumberValue: `Number` is modelled only on the pieces a key produces — digit runs (with leading zeros) and the empty string. Any other text (signs, spaces, decimals, exponents, hexadecimal) gives NaN (`None`), although JS would accept some of it.
- DateKey.ParseFormatRoundTrip: stated from year 100 on and inside the JS time range. `new Date` reads years 0..99 as 1900..1999, and a date outside the range is Invalid Date, so the round trip does not hold there.
- Gregorian.InTimeRange: the range is exact for a time zone east of UTC, such as Korea Standard Time, where the local midnight of the last valid day is still inside it. West of UTC both boundary days move by one.
- CalendarUtils.GetMonthDays: a grid cell outside the JS time range would be Invalid Date in JS. The model gives it its calendar date; only months at the very edge of the range have such cells.
- Number precision: `Number` rounds digit runs of 2^53 or more. The model reads them exactly, and `Gregorian.HugeFieldOutOfRange` shows that such a piece always gives Invalid Date either way.
- DateKey.FormatDate: the canonical ten-character shape is stated for four-digit years only. Other years print with as many digits as they have.
- Seqs.SortBy: `Array.prototype.sort` sorts the filtered copy in place. The model uses a pure stable insertion sort on sequences. A stable sort by a key has only one possible output, so the result is the same; the in-place update itself is not modelled.
- Drag-to-reschedule: there is no such operation in the code. The drop handlers are no-ops (`AdminApp.AdminAppState.HandleEventDrop`, `ViewOnlyApp.ViewOnlyAppState.HandleEventDrop`), so there is no duration-preserving reschedule to model.
- AdminApp.AdminAppState.HandlePrevMonth: it requires the class invariant `0 <= currentMonth < 12`, which the constructor establishes and every method keeps. A month index outside that range cannot arise in the app.
