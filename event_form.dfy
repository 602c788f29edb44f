/** The seven inputs shared by the add and edit dialogs, and the two
    conversions between optional event fields and input strings. */
module EventForm {
  import opened Types

  /** The form state: every input is a string except the solution. */
  datatype FormFields = FormFields(
    title: string,
    solution: Solution,
    date: string,
    time: string,
    location: string,
    regPageUrl: string,
    vivaEngageUrl: string)

  /** The state a new or reset form starts in. */
  const EmptyForm := FormFields("", AIBusinessSolutions, "", "", "", "", "")

  /** `value || ''`: an absent field shows as the empty input. */
  function OrEmpty(o: Option<string>): (s: string)
    ensures o.None? ==> s == ""
    ensures o.Some? ==> s == o.value
  {
    if o.Some? then o.value else ""
  }

  /** `value || undefined`: an empty input becomes an absent field. */
  function OrUndefined(s: string): (o: Option<string>)
    ensures o.None? <==> s == ""
    ensures o.Some? ==> o.value == s
  {
    if s == "" then None else Some(s)
  }

  /** An input survives the round trip through an optional field. */
  lemma OrEmptyOrUndefined(s: string)
    ensures OrEmpty(OrUndefined(s)) == s
  {
  }

  /** An optional field survives the round trip through an input unless
      it held the empty string, which comes back absent. */
  lemma OrUndefinedOrEmpty(o: Option<string>)
    ensures OrUndefined(OrEmpty(o)) == o <==> o != Some("")
  {
  }
}
