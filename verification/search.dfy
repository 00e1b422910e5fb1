/** The header search box: as the user types, it suggests up to five drugs
    whose designation contains the query, ignoring case, in a popover;
    picking one clears the box and opens that drug in the inventory.
    Only the state transitions are modelled, not the rendering. */
module Search {
  import opened Types
  import opened JsString
  import opened Sequences

  /** At most this many suggestions are shown. */
  const MaxResults := 5

  /** The component state: what is typed, the suggestions, and whether the
      popover is showing. */
  datatype SearchState = SearchState(query: string, results: seq<Drug>, popoverOpen: bool)

  /** The component together with the drug list its live query delivers;
      `None` while that list is not available. */
  datatype Machine = Machine(search: SearchState, drugs: Option<seq<Drug>>)

  const Initial: SearchState := SearchState("", [], false)

  /** Suggestions are computed only once more than one character (UTF-16
      code unit) is typed. */
  predicate LongEnough(query: string)
  {
    Utf16Length(query) > 1
  }

  /** The drug's designation contains the query once both are lower-cased. */
  predicate Matches(d: Drug, query: string)
  {
    Includes(ToLower(d.designation), ToLower(query))
  }

  /** The matching drugs, in list order. */
  function MatchingDrugs(drugs: seq<Drug>, query: string): (r: seq<Drug>)
    ensures |r| <= |drugs|
    ensures forall j :: 0 <= j < |r| ==> Matches(r[j], query) && r[j] in drugs
    ensures forall i :: 0 <= i < |drugs| && Matches(drugs[i], query) ==> drugs[i] in r
    ensures |r| > 0 <==> exists i :: 0 <= i < |drugs| && Matches(drugs[i], query)
  {
    var r := Filter(drugs, d => Matches(d, query));
    assert |r| > 0 ==> Matches(r[0], query) && r[0] in drugs;
    r
  }

  lemma MatchingDrugsInOrder(drugs: seq<Drug>, query: string)
    ensures IsSubsequence(MatchingDrugs(drugs, query), drugs)
  {
    FilterInOrder(drugs, d => Matches(d, query));
  }

  /** Matching ignores case on both sides: lower-casing the query or the
      designation first changes nothing. */
  lemma MatchesIgnoresCase(d: Drug, query: string)
    ensures Matches(d, ToLower(query)) == Matches(d, query)
    ensures Matches(d.(designation := ToLower(d.designation)), query) == Matches(d, query)
  {
    ToLowerIdempotent(query);
    ToLowerIdempotent(d.designation);
  }

  /** The matches for a query are those for its lower-cased form. */
  lemma {:induction false} MatchingIgnoresQueryCase(drugs: seq<Drug>, query: string)
    ensures MatchingDrugs(drugs, ToLower(query)) == MatchingDrugs(drugs, query)
  {
    if |drugs| > 0 {
      MatchesIgnoresCase(drugs[0], query);
      MatchingIgnoresQueryCase(drugs[1..], query);
    }
  }

  /** The suggestions for `query`: nothing while the query is too short or
      the list is unavailable, else the first five matching drugs. */
  function ResultsFor(query: string, drugs: Option<seq<Drug>>): (r: seq<Drug>)
    ensures !LongEnough(query) || drugs.None? ==> r == []
    ensures |r| <= MaxResults
    ensures forall j :: 0 <= j < |r| ==> Matches(r[j], query) && drugs.Some? && r[j] in drugs.value
    ensures LongEnough(query) && drugs.Some? ==>
      var m := MatchingDrugs(drugs.value, query);
      |r| == (if |m| < MaxResults then |m| else MaxResults) && r == m[..|r|]
  {
    if LongEnough(query) && drugs.Some? then
      var m := MatchingDrugs(drugs.value, query);
      if |m| < MaxResults then m else m[..MaxResults]
    else
      []
  }

  /** With fewer than five suggestions, every matching drug is suggested. */
  lemma ResultsComplete(query: string, drugs: seq<Drug>)
    requires LongEnough(query)
    requires |ResultsFor(query, Some(drugs))| < MaxResults
    ensures forall i :: 0 <= i < |drugs| && Matches(drugs[i], query) ==> drugs[i] in ResultsFor(query, Some(drugs))
  {
  }

  /** The suggestions keep the order of the drug list. */
  lemma ResultsInOrder(query: string, drugs: seq<Drug>)
    ensures IsSubsequence(ResultsFor(query, Some(drugs)), drugs)
  {
    var r := ResultsFor(query, Some(drugs));
    if LongEnough(query) {
      var m := MatchingDrugs(drugs, query);
      MatchingDrugsInOrder(drugs, query);
      assert r == m[..|r|];
      SubsequenceOfPrefix(m, drugs, |r|);
    } else {
      assert r == [];
    }
  }

  /** Whether a query is long enough does not depend on its case. */
  lemma LongEnoughIgnoresCase(query: string)
    ensures LongEnough(ToLower(query)) == LongEnough(query)
  {
    ToLowerKeepsLength(query);
  }

  /** Typing a query in upper or lower case gives the same suggestions. */
  lemma ResultsIgnoreQueryCase(query: string, drugs: Option<seq<Drug>>)
    ensures ResultsFor(ToLower(query), drugs) == ResultsFor(query, drugs)
  {
    LongEnoughIgnoresCase(query);
    if LongEnough(query) && drugs.Some? {
      MatchingIgnoresQueryCase(drugs.value, query);
      var m := MatchingDrugs(drugs.value, query);
      var a, b := ResultsFor(query, drugs), ResultsFor(ToLower(query), drugs);
      assert |a| == |b| && a == m[..|a|] && b == m[..|b|];
    }
  }

  /** The effect that re-runs when the query or the drug list changes:
      recompute the suggestions; the popover opens exactly when some drug
      matches, even one beyond the first five. */
  function Recompute(st: SearchState, drugs: Option<seq<Drug>>): (r: SearchState)
    ensures r.query == st.query
    ensures r.results == ResultsFor(st.query, drugs)
    ensures !LongEnough(st.query) || drugs.None? ==> r.results == [] && !r.popoverOpen
    ensures LongEnough(st.query) && drugs.Some? ==>
      (r.popoverOpen <==> exists i :: 0 <= i < |drugs.value| && Matches(drugs.value[i], st.query))
  {
    if LongEnough(st.query) && drugs.Some? then
      var m := MatchingDrugs(drugs.value, st.query);
      SearchState(st.query, ResultsFor(st.query, drugs), |m| > 0)
    else
      SearchState(st.query, [], false)
  }

  /** `onFocus`: reopen the popover when there are suggestions to show. */
  function Focus(st: SearchState): (r: SearchState)
    ensures r.query == st.query && r.results == st.results
    ensures r.popoverOpen <==> st.popoverOpen || (LongEnough(st.query) && |st.results| > 0)
    ensures !(LongEnough(st.query) && |st.results| > 0) ==> r == st
  {
    if LongEnough(st.query) && |st.results| > 0 then st.(popoverOpen := true) else st
  }

  /** The text a template literal makes of a drug id. */
  function IdText(id: Option<string>): string
  {
    match id
    case Some(s) => s
    case None => "undefined"
  }

  /** The inventory page address that opens and highlights a drug. */
  function InventoryRoute(id: Option<string>): string
  {
    "/inventory?view=" + IdText(id) + "&highlight=" + IdText(id)
  }

  /** `handleSelectDrug`: clear the box and navigate to the drug. */
  function SelectDrug(st: SearchState, d: Drug): (r: (SearchState, string))
    ensures r.0 == Initial
    ensures r.1 == "/inventory?view=" + IdText(d.id) + "&highlight=" + IdText(d.id)
  {
    (SearchState("", [], false), InventoryRoute(d.id))
  }

  /** What can happen to the search box. The popover is anchored, not
      triggered, so the popover library only ever reports it closing. */
  datatype Event =
    | QueryChanged(query: string)
    | DrugsChanged(drugs: Option<seq<Drug>>)
    | Focused
    | Dismissed
    | Selected(drug: Drug)

  /** One event and the effect re-run it causes; the second component is
      the address navigated to, if any. A query that does not change does
      not re-run the effect; a new drug list always does. */
  function Step(m: Machine, e: Event): (r: (Machine, Option<string>))
    ensures !e.Selected? ==> r.1 == None
    ensures e.Selected? ==> r.1 == Some(InventoryRoute(e.drug.id)) && r.0.search == Initial
    ensures e.QueryChanged? ==> r.0.search.query == e.query && r.0.drugs == m.drugs
    ensures e.QueryChanged? && e.query == m.search.query ==> r.0 == m
    ensures e.QueryChanged? && e.query != m.search.query ==>
      r.0.search == Recompute(m.search.(query := e.query), m.drugs)
    ensures e.DrugsChanged? ==> r.0.drugs == e.drugs && r.0.search == Recompute(m.search, e.drugs)
    ensures e.Focused? ==> r.0 == m.(search := Focus(m.search))
    ensures e.Dismissed? ==> r.0 == m.(search := m.search.(popoverOpen := false))
    ensures e.Selected? ==> r.0.drugs == m.drugs
  {
    match e
    case QueryChanged(q) =>
      if q == m.search.query then (m, None)
      else (m.(search := Recompute(m.search.(query := q), m.drugs)), None)
    case DrugsChanged(ds) =>
      (Machine(Recompute(m.search, ds), ds), None)
    case Focused =>
      (m.(search := Focus(m.search)), None)
    case Dismissed =>
      (m.(search := m.search.(popoverOpen := false)), None)
    case Selected(d) =>
      var (st, route) := SelectDrug(m.search, d);
      (m.(search := st), Some(route))
  }

  /** What holds between events: the suggestions are those the current
      query and drug list call for, and the popover only shows when there
      is something in it. */
  ghost predicate Valid(m: Machine)
  {
    && m.search.results == ResultsFor(m.search.query, m.drugs)
    && (m.search.popoverOpen ==> |m.search.results| > 0)
  }

  lemma InitialValid(drugs: Option<seq<Drug>>)
    ensures Valid(Machine(Initial, drugs))
  {
  }

  /** Every event keeps the machine valid, so the suggestions shown are
      always at most five drugs of the list that match what is typed. */
  lemma StepPreservesValid(m: Machine, e: Event)
    requires Valid(m)
    ensures Valid(Step(m, e).0)
    ensures var st := Step(m, e).0.search;
      |st.results| <= MaxResults &&
      forall j :: 0 <= j < |st.results| ==> Matches(st.results[j], st.query)
  {
    match e
    case QueryChanged(q) =>
      if q != m.search.query {
        PopoverMeansResults(m.search.(query := q), m.drugs);
      }
    case DrugsChanged(ds) =>
      PopoverMeansResults(m.search, ds);
    case Focused =>
    case Dismissed =>
    case Selected(d) =>
  }

  /** After a recompute the popover shows only if there are suggestions. */
  lemma PopoverMeansResults(st: SearchState, drugs: Option<seq<Drug>>)
    ensures Recompute(st, drugs).popoverOpen ==> |Recompute(st, drugs).results| > 0
  {
  }

  /** Selecting resets the box to its initial state, which the effect it
      triggers leaves alone. */
  lemma SelectSettles(m: Machine, d: Drug)
    ensures Step(m, Selected(d)).0.search == Initial
    ensures Recompute(Step(m, Selected(d)).0.search, m.drugs) == Initial
  {
  }
}
