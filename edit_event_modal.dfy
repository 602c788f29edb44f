/** The "Edit Marketing Event" dialog: the inputs are filled from the
    selected event, a submit saves a record with the event's `id`, and a
    confirmed delete emits the `id`. */
module EditEventModal {
  import opened Types
  import opened EventForm

  /** The effect on `event`: the event's fields as inputs, absent `time`
      and URLs as empty strings. */
  function LoadForm(e: MarketingEvent): (f: FormFields)
    ensures f.title == e.title && f.solution == e.solution && f.date == e.date && f.location == e.location
    ensures f.time == OrEmpty(e.time)
    ensures f.regPageUrl == OrEmpty(e.regPageUrl) && f.vivaEngageUrl == OrEmpty(e.vivaEngageUrl)
  {
    FormFields(e.title, e.solution, e.date, OrEmpty(e.time), e.location,
               OrEmpty(e.regPageUrl), OrEmpty(e.vivaEngageUrl))
  }

  /** What `handleSubmit` hands to `onEdit`: nothing without an event or
      with an empty title, date or location (`time` is optional here);
      otherwise the record under the event's `id`, with no `endDate`. */
  function SubmitEdit(event: Option<MarketingEvent>, f: FormFields): (r: Option<MarketingEvent>)
    ensures r.None? <==> event.None? || f.title == "" || f.date == "" || f.location == ""
    ensures r.Some? ==>
      r.value.id == event.value.id &&
      r.value.title == f.title && r.value.solution == f.solution && r.value.date == f.date &&
      r.value.location == f.location && r.value.endDate.None? &&
      r.value.time == OrUndefined(f.time) &&
      r.value.regPageUrl == OrUndefined(f.regPageUrl) && r.value.vivaEngageUrl == OrUndefined(f.vivaEngageUrl)
  {
    if event.None? || f.title == "" || f.date == "" || f.location == "" then None
    else Some(MarketingEvent(event.value.id, f.title, f.solution, f.date, None, OrUndefined(f.time),
                             f.location, OrUndefined(f.regPageUrl), OrUndefined(f.vivaEngageUrl)))
  }

  /** `handleDelete`: the id to delete when there is an event and the
      confirmation is accepted, nothing otherwise. */
  function DeleteRequest(event: Option<MarketingEvent>, confirmed: bool): (r: Option<string>)
    ensures r.Some? <==> event.Some? && confirmed
    ensures r.Some? ==> r.value == event.value.id
  {
    if event.Some? && confirmed then Some(event.value.id) else None
  }

  /** Opening an event and saving it untouched gives the event back except
      that its `endDate` is gone (and empty optional strings become
      absent): a multi-day event becomes a one-day event. */
  lemma SaveUntouched(e: MarketingEvent)
    requires e.title != "" && e.date != "" && e.location != ""
    ensures SubmitEdit(Some(e), LoadForm(e)) ==
      Some(e.(endDate := None,
              time := OrUndefined(OrEmpty(e.time)),
              regPageUrl := OrUndefined(OrEmpty(e.regPageUrl)),
              vivaEngageUrl := OrUndefined(OrEmpty(e.vivaEngageUrl))))
    ensures e.time != Some("") && e.regPageUrl != Some("") && e.vivaEngageUrl != Some("") ==>
      SubmitEdit(Some(e), LoadForm(e)) == Some(e.(endDate := None))
  {
    OrUndefinedOrEmpty(e.time);
    OrUndefinedOrEmpty(e.regPageUrl);
    OrUndefinedOrEmpty(e.vivaEngageUrl);
  }

  /** The dialog's component state. */
  class EditEventForm {
    var title: string
    var solution: Solution
    var date: string
    var time: string
    var location: string
    var regPageUrl: string
    var vivaEngageUrl: string

    function Fields(): FormFields
      reads this
    {
      FormFields(title, solution, date, time, location, regPageUrl, vivaEngageUrl)
    }

    /** The `useState` initial values. */
    constructor ()
      ensures Fields() == EmptyForm
    {
      title, solution, date, time, location, regPageUrl, vivaEngageUrl :=
        "", AIBusinessSolutions, "", "", "", "", "";
    }

    method SetTitle(v: string)
      modifies this
      ensures Fields() == old(Fields()).(title := v)
    {
      title := v;
    }

    method SetSolution(v: Solution)
      modifies this
      ensures Fields() == old(Fields()).(solution := v)
    {
      solution := v;
    }

    method SetDate(v: string)
      modifies this
      ensures Fields() == old(Fields()).(date := v)
    {
      date := v;
    }

    method SetTime(v: string)
      modifies this
      ensures Fields() == old(Fields()).(time := v)
    {
      time := v;
    }

    method SetLocation(v: string)
      modifies this
      ensures Fields() == old(Fields()).(location := v)
    {
      location := v;
    }

    method SetRegPageUrl(v: string)
      modifies this
      ensures Fields() == old(Fields()).(regPageUrl := v)
    {
      regPageUrl := v;
    }

    method SetVivaEngageUrl(v: string)
      modifies this
      ensures Fields() == old(Fields()).(vivaEngageUrl := v)
    {
      vivaEngageUrl := v;
    }

    /** The effect that runs when `event` changes: a present event is
        copied into the inputs, a null one leaves them alone. */
    method LoadEvent(event: Option<MarketingEvent>)
      modifies this
      ensures Fields() == if event.Some? then LoadForm(event.value) else old(Fields())
    {
      if event.Some? {
        var e := event.value;
        title := e.title;
        solution := e.solution;
        date := e.date;
        time := OrEmpty(e.time);
        location := e.location;
        regPageUrl := OrEmpty(e.regPageUrl);
        vivaEngageUrl := OrEmpty(e.vivaEngageUrl);
      }
    }

    /** `resetForm`. */
    method ResetForm()
      modifies this
      ensures Fields() == EmptyForm
    {
      title := "";
      solution := AIBusinessSolutions;
      date := "";
      time := "";
      location := "";
      regPageUrl := "";
      vivaEngageUrl := "";
    }

    /** `handleSubmit`: a rejected submit changes nothing; an accepted one
        hands the record to `onEdit`, resets and asks to close. */
    method HandleSubmit(event: Option<MarketingEvent>) returns (saved: Option<MarketingEvent>, closed: bool)
      modifies this
      ensures saved == SubmitEdit(event, old(Fields()))
      ensures closed <==> saved.Some?
      ensures Fields() == if saved.Some? then EmptyForm else old(Fields())
    {
      saved := SubmitEdit(event, Fields());
      closed := false;
      if saved.Some? {
        ResetForm();
        closed := true;
      }
    }

    /** `handleDelete`, with the answer to `confirm(...)` as `confirmed`:
        a confirmed delete of a present event emits its id, resets and
        asks to close; otherwise nothing happens. */
    method HandleDelete(event: Option<MarketingEvent>, confirmed: bool) returns (deleted: Option<string>, closed: bool)
      modifies this
      ensures deleted == DeleteRequest(event, confirmed)
      ensures closed <==> deleted.Some?
      ensures Fields() == if deleted.Some? then EmptyForm else old(Fields())
    {
      deleted := None;
      closed := false;
      if event.None? {
        return;
      }
      if confirmed {
        deleted := Some(event.value.id);
        ResetForm();
        closed := true;
      }
    }

    /** The Cancel button: reset, then `onClose`. */
    method Cancel() returns (closed: bool)
      modifies this
      ensures closed && Fields() == EmptyForm
    {
      ResetForm();
      closed := true;
    }

    /** `onOpenChange`: closing the dialog resets the form. */
    method HandleOpenChange(isOpen: bool) returns (closed: bool)
      modifies this
      ensures closed <==> !isOpen
      ensures Fields() == if isOpen then old(Fields()) else EmptyForm
    {
      closed := false;
      if !isOpen {
        ResetForm();
        closed := true;
      }
    }
  }
}
