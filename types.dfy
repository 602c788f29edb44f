/** The records the calendar works on: the closed solution tag and the
    marketing event. Optional TypeScript fields become `Option` values. */
module Types {

  datatype Option<+T> = None | Some(value: T)

  /** The four solution tags; every event carries exactly one. */
  datatype Solution = AIBusinessSolutions | CloudAndAIPlatforms | Security | AllCSAs

  /** The tag's string value as it appears in the data. */
  function SolutionName(s: Solution): string
  {
    match s
    case AIBusinessSolutions => "AI Business Solutions"
    case CloudAndAIPlatforms => "Cloud and AI Platforms"
    case Security => "Security"
    case AllCSAs => "All CSAs"
  }

  /** Different tags have different string values, so the enumeration
      is faithfully represented by its names. */
  lemma SolutionNameInjective(a: Solution, b: Solution)
    ensures SolutionName(a) == SolutionName(b) ==> a == b
  {
  }

  /** A calendar event. `id`, `title`, `solution`, `date` and `location`
      are mandatory; the others may be absent. */
  datatype MarketingEvent = MarketingEvent(
    id: string,
    title: string,
    solution: Solution,
    date: string,
    endDate: Option<string>,
    time: Option<string>,
    location: string,
    regPageUrl: Option<string>,
    vivaEngageUrl: Option<string>)

  /** An event as the add form produces it: everything but the `id`. */
  datatype EventDraft = EventDraft(
    title: string,
    solution: Solution,
    date: string,
    endDate: Option<string>,
    time: Option<string>,
    location: string,
    regPageUrl: Option<string>,
    vivaEngageUrl: Option<string>)
}
