/** The read-only calendar app: the same month navigation, filter and
    detail view as the editable one, but no handler touches the event
    list, which only the load effect sets. */
module ViewOnlyApp {
  import opened Types
  import opened AppHandlers
  import opened CalendarHeader

  class ViewOnlyAppState {
    const isEditable: bool
    var events: seq<MarketingEvent>
    var currentYear: int
    var currentMonth: int
    var selectedSolutions: seq<Solution>
    var selectedEvent: Option<MarketingEvent>
    var isDetailModalOpen: bool

    predicate Valid()
      reads this
    {
      0 <= currentMonth < 12
    }

    function Cursor(): AppHandlers.Cursor
      reads this
    {
      AppHandlers.Cursor(currentYear, currentMonth)
    }

    constructor (todayYear: int, todayMonth: int)
      requires 0 <= todayMonth < 12
      ensures Valid() && !isEditable
      ensures events == [] && currentYear == todayYear && currentMonth == todayMonth
      ensures selectedSolutions == [] && selectedEvent.None? && !isDetailModalOpen
    {
      isEditable := false;
      events := [];
      currentYear := todayYear;
      currentMonth := todayMonth;
      selectedSolutions := [];
      selectedEvent := None;
      isDetailModalOpen := false;
    }

    /** The load effect: an array replaces the list, anything else or a
        failed fetch (`None`) gives the empty list. */
    method Load(data: Option<seq<MarketingEvent>>)
      modifies this
      ensures events == if data.Some? then data.value else []
      ensures Cursor() == old(Cursor()) && selectedSolutions == old(selectedSolutions)
      ensures selectedEvent == old(selectedEvent) && isDetailModalOpen == old(isDetailModalOpen)
    {
      events := if data.Some? then data.value else [];
    }

    /** `filteredEvents`, the list handed to the grid. */
    function FilteredEvents(): seq<MarketingEvent>
      reads this
    {
      AppHandlers.FilteredEvents(events, selectedSolutions)
    }

    method HandlePrevMonth()
      requires Valid()
      modifies this
      ensures Valid() && Cursor() == PrevMonth(old(Cursor()))
      ensures events == old(events) && selectedSolutions == old(selectedSolutions)
      ensures selectedEvent == old(selectedEvent) && isDetailModalOpen == old(isDetailModalOpen)
    {
      if currentMonth == 0 {
        currentMonth := 11;
        currentYear := currentYear - 1;
      } else {
        currentMonth := currentMonth - 1;
      }
    }

    method HandleNextMonth()
      requires Valid()
      modifies this
      ensures Valid() && Cursor() == NextMonth(old(Cursor()))
      ensures events == old(events) && selectedSolutions == old(selectedSolutions)
      ensures selectedEvent == old(selectedEvent) && isDetailModalOpen == old(isDetailModalOpen)
    {
      if currentMonth == 11 {
        currentMonth := 0;
        currentYear := currentYear + 1;
      } else {
        currentMonth := currentMonth + 1;
      }
    }

    method HandleToggleSolution(s: Solution)
      modifies this
      ensures selectedSolutions == ToggleSolution(old(selectedSolutions), s)
      ensures events == old(events) && Cursor() == old(Cursor())
      ensures selectedEvent == old(selectedEvent) && isDetailModalOpen == old(isDetailModalOpen)
    {
      selectedSolutions := ToggleSolution(selectedSolutions, s);
    }

    /** The header's "Clear All", through this app's toggle. */
    method ClearAll()
      modifies this
      ensures selectedSolutions == []
      ensures events == old(events) && Cursor() == old(Cursor())
      ensures selectedEvent == old(selectedEvent) && isDetailModalOpen == old(isDetailModalOpen)
    {
      var calls := ClearAllCalls(selectedSolutions);
      var i := 0;
      while i < |calls|
        invariant 0 <= i <= |calls|
        invariant ApplyToggles(selectedSolutions, calls[i..]) == []
        invariant events == old(events) && Cursor() == old(Cursor())
        invariant selectedEvent == old(selectedEvent) && isDetailModalOpen == old(isDetailModalOpen)
      {
        assert calls[i..][1..] == calls[i + 1..];
        HandleToggleSolution(calls[i]);
        i := i + 1;
      }
    }

    method HandleEventClick(e: MarketingEvent)
      modifies this
      ensures selectedEvent == Some(e) && isDetailModalOpen
      ensures events == old(events) && Cursor() == old(Cursor()) && selectedSolutions == old(selectedSolutions)
    {
      selectedEvent := Some(e);
      isDetailModalOpen := true;
    }

    /** The drop handler does nothing: it may modify no state. */
    method HandleEventDrop()
      ensures unchanged(this)
    {
    }

    /** The detail dialog's `onClose`. */
    method CloseDetail()
      modifies this
      ensures selectedEvent.None? && !isDetailModalOpen
      ensures events == old(events) && Cursor() == old(Cursor()) && selectedSolutions == old(selectedSolutions)
    {
      isDetailModalOpen := false;
      selectedEvent := None;
    }

    /** The detail dialog's `onEdit` returns at once: the app is not
        editable, so it may modify no state. */
    method RequestEdit()
      ensures unchanged(this)
    {
    }
  }
}
