/** The state updates both calendar apps compute from plain values: the
    solution filter, the month cursor, the solution toggle and the event
    list edits. The apps' classes apply these to their fields. */
module AppHandlers {
  import opened Types
  import opened Seqs
  import opened Gregorian
  import opened Constants

  // ---------------------------------------------------------------------
  // Solution filter

  /** `filteredEvents`: everything when nothing is selected, otherwise the
      events whose solution is selected, in list order. */
  function FilteredEvents(events: seq<MarketingEvent>, selected: seq<Solution>): (r: seq<MarketingEvent>)
    ensures selected == [] ==> r == events
    ensures forall e :: e in r <==> e in events && (selected == [] || e.solution in selected)
    ensures forall e ::
      multiset(r)[e] == if selected == [] || e.solution in selected then multiset(events)[e] else 0
    ensures IsSubsequence(r, events)
  {
    if |selected| == 0 then
      IsSubsequenceRefl(events);
      events
    else
      FilterMultiset(events, (e: MarketingEvent) => e.solution in selected);
      Filter(events, (e: MarketingEvent) => e.solution in selected)
  }

  lemma {:induction false} IsSubsequenceRefl<T(!new)>(s: seq<T>)
    ensures IsSubsequence(s, s)
  {
    if s != [] {
      IsSubsequenceRefl(s[1..]);
    }
  }

  /** Selecting all four solutions shows the same events as selecting none. */
  lemma SelectingEverySolution(events: seq<MarketingEvent>, selected: seq<Solution>)
    requires forall s: Solution :: s in selected
    ensures FilteredEvents(events, selected) == events
  {
    assert AIBusinessSolutions in selected;
    FilterKeepsAll(events, (e: MarketingEvent) => e.solution in selected);
  }

  // ---------------------------------------------------------------------
  // Month cursor

  /** The `(currentYear, currentMonth)` pair; the month is 0-based. */
  datatype Cursor = Cursor(year: int, month: int)

  predicate ValidCursor(c: Cursor)
  {
    0 <= c.month < 12
  }

  /** `handlePrevMonth`: January steps back to December of the year before. */
  function PrevMonth(c: Cursor): (r: Cursor)
    ensures ValidCursor(c) ==> ValidCursor(r)
    ensures ValidCursor(c) ==> FirstOfMonth(r.year, r.month) == FirstOfMonth(c.year, c.month - 1)
  {
    if c.month == 0 then
      assert (c.month - 1) / 12 == -1 && (c.month - 1) % 12 == 11;
      Cursor(c.year - 1, 11)
    else
      assert ValidCursor(c) ==> (c.month - 1) / 12 == 0 && (c.month - 1) % 12 == c.month - 1;
      Cursor(c.year, c.month - 1)
  }

  /** `handleNextMonth`: December steps on to January of the next year. */
  function NextMonth(c: Cursor): (r: Cursor)
    ensures ValidCursor(c) ==> ValidCursor(r)
    ensures ValidCursor(c) ==> FirstOfMonth(r.year, r.month) == FirstOfMonth(c.year, c.month + 1)
  {
    if c.month == 11 then
      assert (c.month + 1) / 12 == 1 && (c.month + 1) % 12 == 0;
      Cursor(c.year + 1, 0)
    else
      assert ValidCursor(c) ==> (c.month + 1) / 12 == 0 && (c.month + 1) % 12 == c.month + 1;
      Cursor(c.year, c.month + 1)
  }

  /** The two buttons undo each other. */
  lemma PrevNextInverse(c: Cursor)
    requires ValidCursor(c)
    ensures PrevMonth(NextMonth(c)) == c && NextMonth(PrevMonth(c)) == c
  {
  }

  /** The next month's first day follows the last day of the current one. */
  lemma NextMonthIsAdjacent(c: Cursor)
    requires ValidCursor(c)
    ensures var n := NextMonth(c);
      DayNumber(Date(n.year, n.month, 1)) == DayNumber(Date(c.year, c.month, DaysInMonth(c.year, c.month))) + 1
  {
    MonthsAdjacent(c.year, c.month);
    var n := NextMonth(c);
    assert n.month / 12 == 0 && n.month % 12 == n.month;
    assert FirstOfMonth(n.year, n.month) == Date(n.year, n.month, 1);
  }

  // ---------------------------------------------------------------------
  // Solution toggle

  /** `handleToggleSolution`: drop every copy of a selected solution,
      append an unselected one at the end. */
  function ToggleSolution(current: seq<Solution>, s: Solution): (r: seq<Solution>)
    ensures s in r <==> s !in current
    ensures forall x :: x != s ==> (x in r <==> x in current)
    ensures s !in current ==> r == current + [s]
    ensures s in current ==> IsSubsequence(r, current)
    ensures s in current ==> r == Filter(current, (x: Solution) => x != s)
  {
    if s in current then
      Filter(current, (x: Solution) => x != s)
    else current + [s]
  }

  lemma NoDuplicatesAppend<T(!new)>(s: seq<T>, x: T)
    requires NoDuplicates(s) && x !in s
    ensures NoDuplicates(s + [x])
  {
    if s != [] {
      assert (s + [x])[1..] == s[1..] + [x];
      NoDuplicatesAppend(s[1..], x);
    } else {
      assert [x][1..] == [];
    }
  }

  /** Toggling keeps a duplicate-free selection duplicate-free. */
  lemma ToggleNoDuplicates(current: seq<Solution>, s: Solution)
    requires NoDuplicates(current)
    ensures NoDuplicates(ToggleSolution(current, s))
  {
    if s in current {
      FilterNoDuplicates(current, (x: Solution) => x != s);
    } else {
      NoDuplicatesAppend(current, s);
    }
  }

  /** Toggling an unselected solution twice restores the selection exactly. */
  lemma ToggleTwiceAbsent(current: seq<Solution>, s: Solution)
    requires s !in current
    ensures ToggleSolution(ToggleSolution(current, s), s) == current
  {
    FilterAppend(current, [s], (x: Solution) => x != s);
    FilterKeepsAll(current, (x: Solution) => x != s);
    assert Filter([s], (x: Solution) => x != s) == [];
  }

  /** Toggling a selected solution twice moves it to the end. */
  lemma ToggleTwicePresent(current: seq<Solution>, s: Solution)
    requires s in current
    ensures ToggleSolution(ToggleSolution(current, s), s) == Filter(current, (x: Solution) => x != s) + [s]
  {
  }

  /** The selection after a sequence of toggle calls, applied in order. */
  function ApplyToggles(selected: seq<Solution>, calls: seq<Solution>): seq<Solution>
    decreases |calls|
  {
    if calls == [] then selected else ApplyToggles(ToggleSolution(selected, calls[0]), calls[1..])
  }

  lemma {:induction false} ApplyTogglesSnoc(selected: seq<Solution>, calls: seq<Solution>, s: Solution)
    ensures ApplyToggles(selected, calls + [s]) == ToggleSolution(ApplyToggles(selected, calls), s)
    decreases |calls|
  {
    if calls == [] {
      assert [s][1..] == [];
    } else {
      assert (calls + [s])[1..] == calls[1..] + [s];
      ApplyTogglesSnoc(ToggleSolution(selected, calls[0]), calls[1..], s);
    }
  }

  // ---------------------------------------------------------------------
  // Event list edits

  /** `handleAddEvent`: the new event goes at the end. */
  function AddEvent(events: seq<MarketingEvent>, e: MarketingEvent): (r: seq<MarketingEvent>)
    ensures |r| == |events| + 1 && r[..|events|] == events && r[|events|] == e
  {
    events + [e]
  }

  /** `handleUpdateEvent`: every event with the updated id is replaced, the
      others stay where they are. */
  function UpdateEvent(events: seq<MarketingEvent>, updated: MarketingEvent): (r: seq<MarketingEvent>)
    ensures |r| == |events|
    ensures forall i :: 0 <= i < |r| ==> r[i].id == events[i].id
    ensures forall i :: 0 <= i < |r| && events[i].id != updated.id ==> r[i] == events[i]
    ensures forall i :: 0 <= i < |r| && events[i].id == updated.id ==> r[i] == updated
  {
    seq(|events|, i requires 0 <= i < |events| => if events[i].id == updated.id then updated else events[i])
  }

  /** `handleDeleteEvent`'s list update: every event with the id goes, the
      rest keep their order. */
  function DeleteEvent(events: seq<MarketingEvent>, id: string): (r: seq<MarketingEvent>)
    ensures forall e :: e in r <==> e in events && e.id != id
    ensures forall e :: multiset(r)[e] == if e.id != id then multiset(events)[e] else 0
    ensures IsSubsequence(r, events)
  {
    FilterMultiset(events, (e: MarketingEvent) => e.id != id);
    Filter(events, (e: MarketingEvent) => e.id != id)
  }

  /** Updating twice with the same record is updating once. */
  lemma UpdateIdempotent(events: seq<MarketingEvent>, updated: MarketingEvent)
    ensures UpdateEvent(UpdateEvent(events, updated), updated) == UpdateEvent(events, updated)
  {
  }

  /** An update whose id is not in the list changes nothing. */
  lemma UpdateAbsentId(events: seq<MarketingEvent>, updated: MarketingEvent)
    requires forall i :: 0 <= i < |events| ==> events[i].id != updated.id
    ensures UpdateEvent(events, updated) == events
  {
  }

  /** Deleting an id after updating it is deleting it from the original. */
  lemma DeleteAfterUpdate(events: seq<MarketingEvent>, updated: MarketingEvent)
    ensures DeleteEvent(UpdateEvent(events, updated), updated.id) == DeleteEvent(events, updated.id)
  {
    FilterAgrees(UpdateEvent(events, updated), events, (e: MarketingEvent) => e.id != updated.id);
  }

  /** Adding an event and deleting its id is deleting the id alone; when
      the id is fresh the list is back as it was. */
  lemma DeleteAfterAdd(events: seq<MarketingEvent>, e: MarketingEvent)
    ensures DeleteEvent(AddEvent(events, e), e.id) == DeleteEvent(events, e.id)
    ensures (forall x :: x in events ==> x.id != e.id) ==> DeleteEvent(AddEvent(events, e), e.id) == events
  {
    FilterAppend(events, [e], (x: MarketingEvent) => x.id != e.id);
    assert Filter([e], (x: MarketingEvent) => x.id != e.id) == [];
    if forall x :: x in events ==> x.id != e.id {
      FilterKeepsAll(events, (x: MarketingEvent) => x.id != e.id);
    }
  }

  /** Deleting is idempotent. */
  lemma DeleteIdempotent(events: seq<MarketingEvent>, id: string)
    ensures DeleteEvent(DeleteEvent(events, id), id) == DeleteEvent(events, id)
  {
    FilterKeepsAll(DeleteEvent(events, id), (e: MarketingEvent) => e.id != id);
  }
}
