/** The editable calendar app: its component state and the handlers that
    change it. The new values come from the shared handler functions. */
module AdminApp {
  import opened Types
  import opened Seqs
  import opened AppHandlers
  import opened CalendarHeader

  class AdminAppState {
    const isEditable: bool
    var events: seq<MarketingEvent>
    var loadError: Option<string>
    var currentYear: int
    var currentMonth: int
    var selectedSolutions: seq<Solution>
    var selectedEvent: Option<MarketingEvent>
    var isDetailModalOpen: bool
    var isAddOpen: bool
    var isEditOpen: bool

    /** The month index stays a 0-based month. */
    predicate Valid()
      reads this
    {
      0 <= currentMonth < 12
    }

    function Cursor(): AppHandlers.Cursor
      reads this
    {
      AppHandlers.Cursor(currentYear, currentMonth)
    }

    /** The initial state: empty lists, nothing open, today's month (the
        clock is a parameter). */
    constructor (todayYear: int, todayMonth: int)
      requires 0 <= todayMonth < 12
      ensures Valid() && isEditable
      ensures events == [] && loadError.None?
      ensures currentYear == todayYear && currentMonth == todayMonth
      ensures selectedSolutions == [] && selectedEvent.None?
      ensures !isDetailModalOpen && !isAddOpen && !isEditOpen
    {
      isEditable := true;
      events := [];
      loadError := None;
      currentYear := todayYear;
      currentMonth := todayMonth;
      selectedSolutions := [];
      selectedEvent := None;
      isDetailModalOpen := false;
      isAddOpen := false;
      isEditOpen := false;
    }

    /** The load effect's success path: an array replaces the list (any
        other JSON value, `None` here, gives the empty list) and clears the
        error. */
    method LoadSucceeded(data: Option<seq<MarketingEvent>>)
      modifies this
      ensures events == (if data.Some? then data.value else []) && loadError.None?
      ensures currentYear == old(currentYear) && currentMonth == old(currentMonth)
      ensures selectedSolutions == old(selectedSolutions) && selectedEvent == old(selectedEvent)
      ensures isDetailModalOpen == old(isDetailModalOpen) && isAddOpen == old(isAddOpen) && isEditOpen == old(isEditOpen)
    {
      events := if data.Some? then data.value else [];
      loadError := None;
    }

    /** The load effect's failure path: the list is emptied and the error
        message kept. */
    method LoadFailed(message: string)
      modifies this
      ensures events == [] && loadError == Some(message)
      ensures currentYear == old(currentYear) && currentMonth == old(currentMonth)
      ensures selectedSolutions == old(selectedSolutions) && selectedEvent == old(selectedEvent)
      ensures isDetailModalOpen == old(isDetailModalOpen) && isAddOpen == old(isAddOpen) && isEditOpen == old(isEditOpen)
    {
      events := [];
      loadError := Some(message);
    }

    /** `filteredEvents`, the list handed to the grid. */
    function FilteredEvents(): seq<MarketingEvent>
      reads this
    {
      AppHandlers.FilteredEvents(events, selectedSolutions)
    }

    method HandlePrevMonth()
      requires Valid()
      modifies this
      ensures Valid() && Cursor() == PrevMonth(old(Cursor()))
      ensures events == old(events) && selectedSolutions == old(selectedSolutions)
      ensures selectedEvent == old(selectedEvent) && isDetailModalOpen == old(isDetailModalOpen)
      ensures isAddOpen == old(isAddOpen) && isEditOpen == old(isEditOpen) && loadError == old(loadError)
    {
      if currentMonth == 0 {
        currentMonth := 11;
        currentYear := currentYear - 1;
      } else {
        currentMonth := currentMonth - 1;
      }
    }

    method HandleNextMonth()
      requires Valid()
      modifies this
      ensures Valid() && Cursor() == NextMonth(old(Cursor()))
      ensures events == old(events) && selectedSolutions == old(selectedSolutions)
      ensures selectedEvent == old(selectedEvent) && isDetailModalOpen == old(isDetailModalOpen)
      ensures isAddOpen == old(isAddOpen) && isEditOpen == old(isEditOpen) && loadError == old(loadError)
    {
      if currentMonth == 11 {
        currentMonth := 0;
        currentYear := currentYear + 1;
      } else {
        currentMonth := currentMonth + 1;
      }
    }

    method HandleToggleSolution(s: Solution)
      modifies this
      ensures selectedSolutions == ToggleSolution(old(selectedSolutions), s)
      ensures events == old(events) && Cursor() == old(Cursor())
      ensures selectedEvent == old(selectedEvent) && isDetailModalOpen == old(isDetailModalOpen)
      ensures isAddOpen == old(isAddOpen) && isEditOpen == old(isEditOpen) && loadError == old(loadError)
    {
      selectedSolutions := ToggleSolution(selectedSolutions, s);
    }

    /** The header's "Clear All": one toggle per selected solution, in
        `SOLUTIONS` order; afterwards nothing is selected and every filter
        button is highlighted. */
    method ClearAll()
      modifies this
      ensures selectedSolutions == []
      ensures forall s :: IsHighlighted(selectedSolutions, s)
      ensures events == old(events) && Cursor() == old(Cursor())
      ensures selectedEvent == old(selectedEvent) && isDetailModalOpen == old(isDetailModalOpen)
      ensures isAddOpen == old(isAddOpen) && isEditOpen == old(isEditOpen) && loadError == old(loadError)
    {
      var calls := ClearAllCalls(selectedSolutions);
      var i := 0;
      while i < |calls|
        invariant 0 <= i <= |calls|
        invariant ApplyToggles(selectedSolutions, calls[i..]) == []
        invariant events == old(events) && Cursor() == old(Cursor())
        invariant selectedEvent == old(selectedEvent) && isDetailModalOpen == old(isDetailModalOpen)
        invariant isAddOpen == old(isAddOpen) && isEditOpen == old(isEditOpen) && loadError == old(loadError)
      {
        assert calls[i..][1..] == calls[i + 1..];
        HandleToggleSolution(calls[i]);
        i := i + 1;
      }
    }

    method HandleEventClick(e: MarketingEvent)
      modifies this
      ensures selectedEvent == Some(e) && isDetailModalOpen
      ensures events == old(events) && Cursor() == old(Cursor()) && selectedSolutions == old(selectedSolutions)
      ensures isAddOpen == old(isAddOpen) && isEditOpen == old(isEditOpen) && loadError == old(loadError)
    {
      selectedEvent := Some(e);
      isDetailModalOpen := true;
    }

    /** The drop handler does nothing: it may modify no state. */
    method HandleEventDrop()
      ensures unchanged(this)
    {
    }

    /** The detail dialog's `onClose`. */
    method CloseDetail()
      modifies this
      ensures selectedEvent.None? && !isDetailModalOpen
      ensures events == old(events) && Cursor() == old(Cursor()) && selectedSolutions == old(selectedSolutions)
      ensures isAddOpen == old(isAddOpen) && isEditOpen == old(isEditOpen) && loadError == old(loadError)
    {
      isDetailModalOpen := false;
      selectedEvent := None;
    }

    /** The detail dialog's `onEdit`: the edit dialog opens only in an
        editable app with an event selected. */
    method RequestEdit()
      modifies this
      ensures isEditOpen == (old(isEditOpen) || (isEditable && selectedEvent.Some?))
      ensures events == old(events) && Cursor() == old(Cursor()) && selectedSolutions == old(selectedSolutions)
      ensures selectedEvent == old(selectedEvent) && isDetailModalOpen == old(isDetailModalOpen)
      ensures isAddOpen == old(isAddOpen) && loadError == old(loadError)
    {
      if !isEditable || selectedEvent.None? {
        return;
      }
      isEditOpen := true;
    }

    /** The header's "Add Event" button. */
    method OpenAdd()
      modifies this
      ensures isAddOpen
      ensures events == old(events) && Cursor() == old(Cursor()) && selectedSolutions == old(selectedSolutions)
      ensures selectedEvent == old(selectedEvent) && isDetailModalOpen == old(isDetailModalOpen)
      ensures isEditOpen == old(isEditOpen) && loadError == old(loadError)
    {
      isAddOpen := true;
    }

    /** The add dialog's `onClose`. */
    method CloseAdd()
      modifies this
      ensures !isAddOpen
      ensures events == old(events) && Cursor() == old(Cursor()) && selectedSolutions == old(selectedSolutions)
      ensures selectedEvent == old(selectedEvent) && isDetailModalOpen == old(isDetailModalOpen)
      ensures isEditOpen == old(isEditOpen) && loadError == old(loadError)
    {
      isAddOpen := false;
    }

    /** The edit dialog's `onClose`. */
    method CloseEdit()
      modifies this
      ensures !isEditOpen
      ensures events == old(events) && Cursor() == old(Cursor()) && selectedSolutions == old(selectedSolutions)
      ensures selectedEvent == old(selectedEvent) && isDetailModalOpen == old(isDetailModalOpen)
      ensures isAddOpen == old(isAddOpen) && loadError == old(loadError)
    {
      isEditOpen := false;
    }

    /** `handleAddEvent`. */
    method HandleAddEvent(e: MarketingEvent)
      modifies this
      ensures events == AddEvent(old(events), e)
      ensures Cursor() == old(Cursor()) && selectedSolutions == old(selectedSolutions)
      ensures selectedEvent == old(selectedEvent) && isDetailModalOpen == old(isDetailModalOpen)
      ensures isAddOpen == old(isAddOpen) && isEditOpen == old(isEditOpen) && loadError == old(loadError)
    {
      events := AddEvent(events, e);
    }

    /** `handleUpdateEvent`. */
    method HandleUpdateEvent(updated: MarketingEvent)
      modifies this
      ensures events == UpdateEvent(old(events), updated)
      ensures Cursor() == old(Cursor()) && selectedSolutions == old(selectedSolutions)
      ensures selectedEvent == old(selectedEvent) && isDetailModalOpen == old(isDetailModalOpen)
      ensures isAddOpen == old(isAddOpen) && isEditOpen == old(isEditOpen) && loadError == old(loadError)
    {
      events := UpdateEvent(events, updated);
    }

    /** `handleDeleteEvent`: the list loses the id and every dialog about
        the selected event closes. */
    method HandleDeleteEvent(id: string)
      modifies this
      ensures events == DeleteEvent(old(events), id)
      ensures !isDetailModalOpen && selectedEvent.None? && !isEditOpen
      ensures Cursor() == old(Cursor()) && selectedSolutions == old(selectedSolutions)
      ensures isAddOpen == old(isAddOpen) && loadError == old(loadError)
    {
      events := DeleteEvent(events, id);
      isDetailModalOpen := false;
      selectedEvent := None;
      isEditOpen := false;
    }

    /** The add dialog's `onCreate` as this app writes it: add, then close. */
    method OnCreate(e: MarketingEvent)
      modifies this
      ensures events == AddEvent(old(events), e) && !isAddOpen
      ensures Cursor() == old(Cursor()) && selectedSolutions == old(selectedSolutions)
      ensures selectedEvent == old(selectedEvent) && isDetailModalOpen == old(isDetailModalOpen)
      ensures isEditOpen == old(isEditOpen) && loadError == old(loadError)
    {
      HandleAddEvent(e);
      isAddOpen := false;
    }

    /** The edit dialog's `onSave` as this app writes it: update, then close. */
    method OnSave(e: MarketingEvent)
      modifies this
      ensures events == UpdateEvent(old(events), e) && !isEditOpen
      ensures Cursor() == old(Cursor()) && selectedSolutions == old(selectedSolutions)
      ensures selectedEvent == old(selectedEvent) && isDetailModalOpen == old(isDetailModalOpen)
      ensures isAddOpen == old(isAddOpen) && loadError == old(loadError)
    {
      HandleUpdateEvent(e);
      isEditOpen := false;
    }
  }
}
