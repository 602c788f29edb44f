/** The filter bar: which solution buttons are highlighted, when "Clear
    All" appears, and the toggle calls it issues. */
module CalendarHeader {
  import opened Types
  import opened Seqs
  import opened Constants
  import opened AppHandlers

  /** `isAllSelected`: no solution is selected, which means all are shown. */
  predicate IsAllSelected(selected: seq<Solution>)
  {
    |selected| == 0
  }

  /** A filter button is highlighted when everything is shown or its
      solution is selected. */
  predicate IsHighlighted(selected: seq<Solution>, s: Solution)
  {
    IsAllSelected(selected) || s in selected
  }

  /** The button's background: the solution colour when highlighted. */
  function ButtonColor(selected: seq<Solution>, s: Solution): (c: Option<string>)
    ensures c.Some? <==> IsHighlighted(selected, s)
    ensures c.Some? ==> c.value == SolutionColor(s)
  {
    if IsAllSelected(selected) || s in selected then Some(SolutionColor(s)) else None
  }

  /** "Clear All" is rendered only while something is selected. */
  predicate ShowClearAll(selected: seq<Solution>)
  {
    !IsAllSelected(selected)
  }

  /** With nothing selected every button is highlighted; otherwise exactly
      the selected ones are. */
  lemma HighlightedButtons(selected: seq<Solution>)
    ensures selected == [] ==> forall s: Solution :: IsHighlighted(selected, s)
    ensures selected != [] ==> forall s: Solution :: IsHighlighted(selected, s) <==> s in selected
  {
  }

  /** The "Clear All" handler: for each solution in `SOLUTIONS` order that
      the selection (as rendered) contains, one toggle call. Applied
      through the apps' toggle, the calls leave the selection empty. */
  method ClearAllCalls(selected: seq<Solution>) returns (calls: seq<Solution>)
    ensures forall s :: s in calls <==> s in selected
    ensures IsSubsequence(calls, SOLUTIONS) && NoDuplicates(calls)
    ensures ApplyToggles(selected, calls) == []
    ensures ShowClearAll(selected) || calls == []
  {
    SolutionsEnumerateAll();
    calls := [];
    var i := 0;
    while i < |SOLUTIONS|
      invariant 0 <= i <= |SOLUTIONS|
      invariant CallsUpTo(SOLUTIONS, selected, i, calls)
    {
      var sol := SOLUTIONS[i];
      ClearAllStep(SOLUTIONS, selected, i, calls);
      if sol in selected {
        calls := calls + [sol];
      }
      i := i + 1;
    }
    ClearAllDone(SOLUTIONS, selected, calls);
  }

  /** The invariant of the "Clear All" loop after `i` solutions of
      `order`: one call for each selected one among them, in order, none
      repeated. */
  predicate CallsUpTo(order: seq<Solution>, selected: seq<Solution>, i: int, calls: seq<Solution>)
  {
    0 <= i <= |order| && calls == Filter(order[..i], (s: Solution) => s in selected) && NoDuplicates(calls)
  }

  lemma ClearAllStep(order: seq<Solution>, selected: seq<Solution>, i: int, calls: seq<Solution>)
    requires NoDuplicates(order) && i < |order| && CallsUpTo(order, selected, i, calls)
    ensures CallsUpTo(order, selected, i + 1, if order[i] in selected then calls + [order[i]] else calls)
  {
    var sol := order[i];
    assert order[..i + 1] == order[..i] + [sol];
    FilterSnoc(order[..i], sol, (s: Solution) => s in selected);
    if sol in selected {
      DistinctPrefix(order, i);
      NoDuplicatesAppend(calls, sol);
    }
  }

  lemma ClearAllDone(order: seq<Solution>, selected: seq<Solution>, calls: seq<Solution>)
    requires forall s: Solution :: s in order
    requires CallsUpTo(order, selected, |order|, calls)
    ensures forall s :: s in calls <==> s in selected
    ensures IsSubsequence(calls, order) && NoDuplicates(calls)
    ensures ApplyToggles(selected, calls) == []
    ensures selected != [] || calls == []
  {
    assert order[..|order|] == order;
    ClearAllEmpties(selected, calls);
  }

  lemma FilterSnoc<T(!new)>(s: seq<T>, x: T, p: T -> bool)
    ensures Filter(s + [x], p) == Filter(s, p) + (if p(x) then [x] else [])
  {
    FilterAppend(s, [x], p);
    FilterCons(x, [], p);
    assert [x] == [x] + [];
  }

  /** Toggling each selected solution once, in any order, empties the
      selection. */
  lemma ClearAllEmpties(selected: seq<Solution>, calls: seq<Solution>)
    requires NoDuplicates(calls)
    requires forall s :: s in calls <==> s in selected
    ensures ApplyToggles(selected, calls) == []
  {
    ApplyTogglesRemoves(selected, calls);
    if ApplyToggles(selected, calls) != [] {
      HeadIsMember(ApplyToggles(selected, calls));
      assert false;
    }
  }

  lemma HeadIsMember<T>(s: seq<T>)
    requires s != []
    ensures s[0] in s
  {
  }

  /** Toggling distinct selected solutions removes exactly them. */
  lemma {:induction false} ApplyTogglesRemoves(selected: seq<Solution>, calls: seq<Solution>)
    requires NoDuplicates(calls)
    requires forall s :: s in calls ==> s in selected
    ensures forall x :: x in ApplyToggles(selected, calls) <==> x in selected && x !in calls
    decreases |calls|
  {
    if calls != [] {
      var c := calls[0];
      var next := ToggleSolution(selected, c);
      assert calls == [c] + calls[1..];
      assert forall s :: s in calls[1..] ==> s in next;
      ApplyTogglesRemoves(next, calls[1..]);
    }
  }

  lemma {:induction false} DistinctPrefix<T(!new)>(s: seq<T>, i: int)
    requires NoDuplicates(s) && 0 <= i < |s|
    ensures s[i] !in s[..i]
  {
    if i > 0 {
      assert s[1..][i - 1] == s[i];
      assert s[1..][..i - 1] == s[..i][1..];
      DistinctPrefix(s[1..], i - 1);
      assert s[..i] == [s[0]] + s[1..][..i - 1];
    }
  }
}
