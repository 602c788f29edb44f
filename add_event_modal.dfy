/** The "Add Marketing Event" dialog: seven inputs, a submit that checks
    the required ones and emits an event without `id`, and a reset on
    submit, cancel and close. */
module AddEventModal {
  import opened Types
  import opened EventForm

  /** What `handleSubmit` hands to `onAdd`: nothing when a required input
      (title, date, time, location) is empty, otherwise the draft. */
  function SubmitAdd(f: FormFields): (r: Option<EventDraft>)
    ensures r.None? <==> f.title == "" || f.date == "" || f.time == "" || f.location == ""
    ensures r.Some? ==>
      r.value.title == f.title && r.value.solution == f.solution && r.value.date == f.date &&
      r.value.time == Some(f.time) && r.value.location == f.location &&
      r.value.endDate.None? &&
      r.value.regPageUrl == OrUndefined(f.regPageUrl) && r.value.vivaEngageUrl == OrUndefined(f.vivaEngageUrl)
  {
    if f.title == "" || f.date == "" || f.time == "" || f.location == "" then None
    else Some(EventDraft(f.title, f.solution, f.date, None, Some(f.time), f.location,
                         OrUndefined(f.regPageUrl), OrUndefined(f.vivaEngageUrl)))
  }

  /** The inputs a draft would show again. */
  function DraftForm(d: EventDraft): FormFields
  {
    FormFields(d.title, d.solution, d.date, OrEmpty(d.time), d.location,
               OrEmpty(d.regPageUrl), OrEmpty(d.vivaEngageUrl))
  }

  /** An accepted draft loses nothing the user typed: shown again it gives
      back the very same inputs, and it holds no empty optional field. */
  lemma SubmitAddKeepsInputs(f: FormFields)
    requires SubmitAdd(f).Some?
    ensures DraftForm(SubmitAdd(f).value) == f
    ensures SubmitAdd(f).value.regPageUrl != Some("") && SubmitAdd(f).value.vivaEngageUrl != Some("")
  {
    OrEmptyOrUndefined(f.regPageUrl);
    OrEmptyOrUndefined(f.vivaEngageUrl);
  }

  /** The dialog's component state. */
  class AddEventForm {
    var title: string
    var solution: Solution
    var date: string
    var time: string
    var location: string
    var regPageUrl: string
    var vivaEngageUrl: string

    function Fields(): FormFields
      reads this
    {
      FormFields(title, solution, date, time, location, regPageUrl, vivaEngageUrl)
    }

    /** The `useState` initial values. */
    constructor ()
      ensures Fields() == EmptyForm
    {
      title, solution, date, time, location, regPageUrl, vivaEngageUrl :=
        "", AIBusinessSolutions, "", "", "", "", "";
    }

    method SetTitle(v: string)
      modifies this
      ensures Fields() == old(Fields()).(title := v)
    {
      title := v;
    }

    method SetSolution(v: Solution)
      modifies this
      ensures Fields() == old(Fields()).(solution := v)
    {
      solution := v;
    }

    method SetDate(v: string)
      modifies this
      ensures Fields() == old(Fields()).(date := v)
    {
      date := v;
    }

    method SetTime(v: string)
      modifies this
      ensures Fields() == old(Fields()).(time := v)
    {
      time := v;
    }

    method SetLocation(v: string)
      modifies this
      ensures Fields() == old(Fields()).(location := v)
    {
      location := v;
    }

    method SetRegPageUrl(v: string)
      modifies this
      ensures Fields() == old(Fields()).(regPageUrl := v)
    {
      regPageUrl := v;
    }

    method SetVivaEngageUrl(v: string)
      modifies this
      ensures Fields() == old(Fields()).(vivaEngageUrl := v)
    {
      vivaEngageUrl := v;
    }

    /** `resetForm`. */
    method ResetForm()
      modifies this
      ensures Fields() == EmptyForm
    {
      title := "";
      solution := AIBusinessSolutions;
      date := "";
      time := "";
      location := "";
      regPageUrl := "";
      vivaEngageUrl := "";
    }

    /** `handleSubmit`: on missing inputs nothing is emitted and the form
        stays as typed; otherwise the draft goes to `onAdd`, the form
        resets and the dialog asks to close. */
    method HandleSubmit() returns (added: Option<EventDraft>, closed: bool)
      modifies this
      ensures added == SubmitAdd(old(Fields()))
      ensures closed <==> added.Some?
      ensures Fields() == if added.Some? then EmptyForm else old(Fields())
    {
      added := SubmitAdd(Fields());
      closed := false;
      if added.Some? {
        ResetForm();
        closed := true;
      }
    }

    /** The Cancel button: reset, then `onClose`. */
    method Cancel() returns (closed: bool)
      modifies this
      ensures closed && Fields() == EmptyForm
    {
      ResetForm();
      closed := true;
    }

    /** `onOpenChange`: closing the dialog resets the form; opening does
        nothing. */
    method HandleOpenChange(isOpen: bool) returns (closed: bool)
      modifies this
      ensures closed <==> !isOpen
      ensures Fields() == if isOpen then old(Fields()) else EmptyForm
    {
      closed := false;
      if !isOpen {
        ResetForm();
        closed := true;
      }
    }
  }
}
