/** The fixed tables of the calendar: the solution list in display order,
    the colour of each solution and the weekday column headers. */
module Constants {
  import opened Types
  import opened Seqs

  const SOLUTIONS: seq<Solution> := [AIBusinessSolutions, CloudAndAIPlatforms, Security, AllCSAs]

  /** The CSS colour variable of each solution. */
  function SolutionColor(s: Solution): string
  {
    match s
    case AIBusinessSolutions => "var(--solution-ai)"
    case CloudAndAIPlatforms => "var(--solution-cloud)"
    case Security => "var(--solution-security)"
    case AllCSAs => "var(--solution-csa)"
  }

  /** The background class of each solution, written out as its own table. */
  function SolutionColorClass(s: Solution): string
  {
    match s
    case AIBusinessSolutions => "bg-[var(--solution-ai)]"
    case CloudAndAIPlatforms => "bg-[var(--solution-cloud)]"
    case Security => "bg-[var(--solution-security)]"
    case AllCSAs => "bg-[var(--solution-csa)]"
  }

  const DAYS_OF_WEEK: seq<string> := ["Sun", "Mon", "Tue", "Wed", "Thu", "Fri", "Sat"]

  /** SOLUTIONS lists every tag exactly once, in the order AI, Cloud,
      Security, All CSAs. */
  lemma SolutionsEnumerateAll()
    ensures |SOLUTIONS| == 4 && NoDuplicates(SOLUTIONS)
    ensures forall s: Solution :: s in SOLUTIONS
    ensures SOLUTIONS[0] == AIBusinessSolutions && SOLUTIONS[1] == CloudAndAIPlatforms
    ensures SOLUTIONS[2] == Security && SOLUTIONS[3] == AllCSAs
  {
    assert SOLUTIONS[1..][1..][1..] == [AllCSAs];
    forall s: Solution ensures s in SOLUTIONS {
      match s
      case AIBusinessSolutions => assert SOLUTIONS[0] == s;
      case CloudAndAIPlatforms => assert SOLUTIONS[1] == s;
      case Security => assert SOLUTIONS[2] == s;
      case AllCSAs => assert SOLUTIONS[3] == s;
    }
  }

  /** The colour table is total and gives the four tags four different colours. */
  lemma SolutionColorsDistinct(a: Solution, b: Solution)
    ensures a != b ==> SolutionColor(a) != SolutionColor(b)
  {
  }

  /** Each background class is the colour wrapped in `bg-[...]`. */
  lemma SolutionColorClassWrapsColor(s: Solution)
    ensures SolutionColorClass(s) == "bg-[" + SolutionColor(s) + "]"
  {
    var c := SolutionColor(s);
    var k := SolutionColorClass(s);
    assert |k| == |c| + 5;
    assert forall i :: 0 <= i < |k| ==> k[i] == ("bg-[" + c + "]")[i];
  }

  /** Seven column headers starting on Sunday, in the order of the
      weekday index 0..6. */
  lemma DaysOfWeekSundayFirst()
    ensures |DAYS_OF_WEEK| == 7 && DAYS_OF_WEEK[0] == "Sun" && DAYS_OF_WEEK[6] == "Sat"
    ensures NoDuplicates(DAYS_OF_WEEK)
  {
    assert DAYS_OF_WEEK[1..][1..][1..][1..][1..][1..] == ["Sat"];
  }
}
