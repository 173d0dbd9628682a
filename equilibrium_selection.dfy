/** The state machine behind the equilibrium search box of the deposit
    form: `initialState` and `reducer`. */
module EquilibriumSelection {
  import opened Json

  /** The search box's `cancelToken`: `''` before any search, or the cancel
      token source of the latest search. */
  datatype CancelToken = NoToken | Token(id: nat)

  datatype SearchState = SearchState(loading: bool, results: seq<Json>, value: string, cancelToken: CancelToken)

  /** An action: its `type` and the payload fields the reducer reads. */
  datatype Action = Action(kind: string, query: string, token: CancelToken, results: seq<Json>, selection: string)

  const CleanQuery := "CLEAN_QUERY"
  const StartSearch := "START_SEARCH"
  const FinishSearch := "FINISH_SEARCH"
  const UpdateSelection := "UPDATE_SELECTION"

  predicate Known(a: Action)
  {
    a.kind in {CleanQuery, StartSearch, FinishSearch, UpdateSelection}
  }

  /** `initialState`. */
  const Initial := SearchState(false, [], "", NoToken)

  /** `reducer(state, action)`; `None` is the `Error` thrown for an action
      of any other type. */
  function Reducer(state: SearchState, a: Action): (r: Option<SearchState>)
    ensures r.Some? <==> Known(a)
  {
    if a.kind == CleanQuery then Some(Initial)
    else if a.kind == StartSearch then Some(state.(loading := true, value := a.query, cancelToken := a.token))
    else if a.kind == FinishSearch then Some(state.(loading := false, results := a.results))
    else if a.kind == UpdateSelection then Some(state.(value := a.selection))
    else None
  }

  /** `CLEAN_QUERY` returns the initial state whatever the state was. */
  lemma CleanQueryResets(state: SearchState, a: Action)
    requires a.kind == CleanQuery
    ensures Reducer(state, a) == Some(SearchState(false, [], "", NoToken))
  {
  }

  /** `START_SEARCH` marks the box loading with the action's query and
      token, and keeps the results. */
  lemma StartSearchSets(state: SearchState, a: Action)
    requires a.kind == StartSearch
    ensures var r := Reducer(state, a).value;
      r.loading && r.value == a.query && r.cancelToken == a.token && r.results == state.results
  {
  }

  /** `FINISH_SEARCH` stores the results, stops loading, and keeps the
      value and the token. */
  lemma FinishSearchSets(state: SearchState, a: Action)
    requires a.kind == FinishSearch
    ensures var r := Reducer(state, a).value;
      !r.loading && r.results == a.results && r.value == state.value && r.cancelToken == state.cancelToken
  {
  }

  /** `UPDATE_SELECTION` changes the value and nothing else. */
  lemma UpdateSelectionSets(state: SearchState, a: Action)
    requires a.kind == UpdateSelection
    ensures Reducer(state, a) == Some(SearchState(state.loading, state.results, a.selection, state.cancelToken))
  {
  }

  /** Dispatching the same action twice has the effect of dispatching it once. */
  lemma ReducerIdempotent(state: SearchState, a: Action)
    requires Known(a)
    ensures Reducer(Reducer(state, a).value, a) == Reducer(state, a)
  {
  }

  /** The state after dispatching `actions` in turn, or `None` once one of
      them throws. */
  function Run(state: SearchState, actions: seq<Action>): Option<SearchState>
    decreases |actions|
  {
    if actions == [] then Some(state)
    else match Reducer(state, actions[0])
      case None => None
      case Some(next) => Run(next, actions[1..])
  }

  /** A run throws exactly when one of its actions has an unknown type. */
  lemma {:induction false} RunThrows(state: SearchState, actions: seq<Action>)
    ensures Run(state, actions).None? <==> exists i :: 0 <= i < |actions| && !Known(actions[i])
    decreases |actions|
  {
    if actions != [] {
      if Known(actions[0]) {
        RunThrows(Reducer(state, actions[0]).value, actions[1..]);
        if exists i :: 0 <= i < |actions[1..]| && !Known(actions[1..][i]) {
          var i :| 0 <= i < |actions[1..]| && !Known(actions[1..][i]);
          assert !Known(actions[i + 1]);
        }
        if exists i :: 0 <= i < |actions| && !Known(actions[i]) {
          var i :| 0 <= i < |actions| && !Known(actions[i]);
          assert !Known(actions[1..][i - 1]);
        }
      }
    }
  }

  /** The search box value after dispatching `actions`: the last query or
      selection, or the empty string after a clean. */
  function ValueAfter(value: string, actions: seq<Action>): string
    decreases |actions|
  {
    if actions == [] then value
    else
      var a := actions[0];
      var next := if a.kind == CleanQuery then "" else if a.kind == StartSearch then a.query
                  else if a.kind == UpdateSelection then a.selection else value;
      ValueAfter(next, actions[1..])
  }

  /** The value evolves on its own: it depends only on the previous value
      and the actions, never on the results, the loading flag or the token. */
  lemma {:induction false} RunValue(state: SearchState, actions: seq<Action>)
    requires Run(state, actions).Some?
    ensures Run(state, actions).value.value == ValueAfter(state.value, actions)
    decreases |actions|
  {
    if actions != [] {
      RunValue(Reducer(state, actions[0]).value, actions[1..]);
    }
  }

  /** The results after dispatching `actions`: those of the last finished
      search, or none after a clean. */
  function ResultsAfter(results: seq<Json>, actions: seq<Action>): seq<Json>
    decreases |actions|
  {
    if actions == [] then results
    else
      var a := actions[0];
      var next := if a.kind == CleanQuery then [] else if a.kind == FinishSearch then a.results else results;
      ResultsAfter(next, actions[1..])
  }

  /** The results evolve on their own, too. */
  lemma {:induction false} RunResults(state: SearchState, actions: seq<Action>)
    requires Run(state, actions).Some?
    ensures Run(state, actions).value.results == ResultsAfter(state.results, actions)
    decreases |actions|
  {
    if actions != [] {
      RunResults(Reducer(state, actions[0]).value, actions[1..]);
    }
  }

  /** A state that is loading has the token of the search it waits for. */
  predicate Consistent(state: SearchState)
  {
    state.loading ==> state.cancelToken.Token?
  }

  /** Every search the actions start carries a cancel token, as the search
      callback arranges. */
  predicate SearchesHaveTokens(actions: seq<Action>)
  {
    forall i :: 0 <= i < |actions| && actions[i].kind == StartSearch ==> actions[i].token.Token?
  }

  /** Dispatching actions whose searches carry tokens keeps the state
      consistent, starting from the initial state or any consistent one. */
  lemma {:induction false} RunConsistent(state: SearchState, actions: seq<Action>)
    requires Consistent(state) && SearchesHaveTokens(actions) && Run(state, actions).Some?
    ensures Consistent(Run(state, actions).value)
    decreases |actions|
  {
    if actions != [] {
      assert actions[0].kind == StartSearch ==> actions[0].token.Token?;
      assert SearchesHaveTokens(actions[1..]) by {
        forall i | 0 <= i < |actions[1..]| && actions[1..][i].kind == StartSearch
          ensures actions[1..][i].token.Token?
        {
          assert actions[1..][i] == actions[i + 1];
        }
      }
      RunConsistent(Reducer(state, actions[0]).value, actions[1..]);
    }
  }
}
