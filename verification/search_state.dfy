/**
 * The search page's state (`App` in the front end): the query being typed,
 * the results shown, the loading flag, the response metrics, which result
 * cards are expanded, and whether and what was last searched. `handleSearch`
 * is split at its `await`: starting a search and the completion of its fetch
 * are separate events, and completions of earlier fetches may arrive at any
 * later point, in any order. Nothing tags a response with the query it
 * answers, so every completion is applied.
 */
module SearchState {
  import opened Wrappers

  /**
   * The parsed response body: `results`, `query_time` and `total`, each
   * possibly absent (JavaScript's `undefined`, which the model does not
   * distinguish from `null`).
   */
  datatype Response<R> = Response(results: Option<seq<R>>, queryTime: Option<real>, total: Option<int>)

  datatype State<R> = State(
    query: string,
    results: seq<R>,
    loading: bool,
    queryTime: Option<real>,
    totalResults: Option<int>,
    expanded: map<int, bool>,
    hasSearched: bool,
    lastSearchedQuery: string)

  /** `!!expandedResults[index]`: an index never toggled counts as collapsed. */
  predicate Shown<R>(s: State<R>, i: int) {
    i in s.expanded && s.expanded[i]
  }

  /** The loading indicator. */
  predicate Spinner<R>(s: State<R>) {
    s.loading
  }

  /** The "no results" message. */
  predicate NoResults<R>(s: State<R>) {
    !s.loading && s.hasSearched && |s.results| == 0
  }

  /** The result summary and the list of result cards. */
  predicate ResultList<R>(s: State<R>) {
    !s.loading && |s.results| > 0
  }

  /** The `useState` initial values. */
  function Initial<R>(): (s: State<R>)
    ensures !Spinner(s) && !NoResults(s) && !ResultList(s)
    ensures forall i :: !Shown(s, i)
    ensures s.totalResults == Some(0) && s.queryTime.None?
  {
    State("", [], false, None, Some(0), map[], false, "")
  }

  /** `setQuery`: typing changes the query text only. */
  function SetQuery<R>(s: State<R>, q: string): (r: State<R>)
    ensures r.query == q
    ensures Spinner(r) == Spinner(s) && NoResults(r) == NoResults(s) && ResultList(r) == ResultList(s)
    ensures r.results == s.results && forall i :: Shown(r, i) == Shown(s, i)
  {
    s.(query := q)
  }

  /**
   * The synchronous part of `handleSearch`: with an empty query nothing
   * happens and no request is made; any other query, whitespace included,
   * sets the loading flag, collapses every result, records the query as the
   * last searched one and issues a request for it. The results on display
   * are not cleared.
   */
  function Start<R>(s: State<R>): (r: (State<R>, Option<string>))
    ensures s.query == "" <==> r.1.None?
    ensures s.query == "" ==> r.0 == s
    ensures s.query != "" ==> r.1 == Some(s.query)
    ensures s.query != "" ==> Spinner(r.0) && r.0.hasSearched && r.0.lastSearchedQuery == s.query
    ensures s.query != "" ==> forall i :: !Shown(r.0, i)
    ensures r.0.query == s.query && r.0.results == s.results
    ensures r.0.queryTime == s.queryTime && r.0.totalResults == s.totalResults
  {
    if s.query == "" then (s, None)
    else (s.(loading := true, expanded := map[], hasSearched := true, lastSearchedQuery := s.query), Some(s.query))
  }

  /**
   * A fetch that delivered a body: results (`[]` when absent), query time
   * and total are taken from it, then loading is cleared.
   */
  function CompleteOk<R>(s: State<R>, data: Response<R>): (r: State<R>)
    ensures !Spinner(r)
    ensures data.results.Some? ==> r.results == data.results.value
    ensures data.results.None? ==> r.results == []
    ensures r.queryTime == data.queryTime && r.totalResults == data.total
    ensures r.query == s.query && r.expanded == s.expanded
    ensures r.hasSearched == s.hasSearched && r.lastSearchedQuery == s.lastSearchedQuery
  {
    s.(results := data.results.GetOr([]), queryTime := data.queryTime, totalResults := data.total, loading := false)
  }

  /**
   * A fetch or body parse that threw: the error is only logged, so the
   * previous results and metrics stay, and loading is cleared.
   */
  function CompleteFail<R>(s: State<R>): (r: State<R>)
    ensures !Spinner(r)
    ensures r.results == s.results && r.queryTime == s.queryTime && r.totalResults == s.totalResults
    ensures r.query == s.query && r.expanded == s.expanded
    ensures r.hasSearched == s.hasSearched && r.lastSearchedQuery == s.lastSearchedQuery
  {
    s.(loading := false)
  }

  /** `toggleExpand(index)`: flips the shown state of that card and of no other. */
  function Toggle<R>(s: State<R>, i: int): (r: State<R>)
    ensures Shown(r, i) == !Shown(s, i)
    ensures forall j :: j != i ==> Shown(r, j) == Shown(s, j)
    ensures r.results == s.results && r.loading == s.loading && r.hasSearched == s.hasSearched
    ensures r.query == s.query && r.lastSearchedQuery == s.lastSearchedQuery
    ensures r.queryTime == s.queryTime && r.totalResults == s.totalResults
  {
    s.(expanded := s.expanded[i := !(i in s.expanded && s.expanded[i])])
  }

  /** Toggling the same card twice restores every card's shown state. */
  lemma ToggleTwice<R>(s: State<R>, i: int)
    ensures forall j :: Shown(Toggle(Toggle(s, i), i), j) == Shown(s, j)
    ensures i in s.expanded ==> Toggle(Toggle(s, i), i) == s
  {
    var t := Toggle(Toggle(s, i), i);
    if i in s.expanded {
      assert t.expanded == s.expanded;
    }
  }

  /** At most one of the three views is rendered. */
  lemma ViewsExclusive<R>(s: State<R>)
    ensures !(Spinner(s) && NoResults(s))
    ensures !(Spinner(s) && ResultList(s))
    ensures !(NoResults(s) && ResultList(s))
  {
  }

  /** The user's actions and the arrivals of fetch outcomes. */
  datatype Event<R> = Type(q: string) | Submit | Succeed(data: Response<R>) | Fail | ToggleCard(index: int)

  /** The page state together with the number of fetches not yet settled. */
  datatype Session<R> = Session(state: State<R>, inFlight: nat)

  /**
   * One event. A completion needs a fetch in flight to settle, so it is
   * `None` when there is none; which of the outstanding fetches it belongs
   * to does not matter, as the code treats them all alike.
   */
  function Apply<R>(c: Session<R>, e: Event<R>): (r: Option<Session<R>>)
    ensures r.None? <==> (e.Succeed? || e.Fail?) && c.inFlight == 0
    ensures r.Some? && e.Submit? ==> r.value.inFlight == if c.state.query == "" then c.inFlight else c.inFlight + 1
    ensures r.Some? && (e.Succeed? || e.Fail?) ==> r.value.inFlight == c.inFlight - 1 && !r.value.state.loading
    ensures r.Some? && (e.Type? || e.ToggleCard?) ==> r.value.inFlight == c.inFlight
  {
    match e
    case Type(q) => Some(Session(SetQuery(c.state, q), c.inFlight))
    case Submit =>
      var (s, request) := Start(c.state);
      Some(Session(s, if request.Some? then c.inFlight + 1 else c.inFlight))
    case Succeed(data) =>
      if c.inFlight == 0 then None else Some(Session(CompleteOk(c.state, data), c.inFlight - 1))
    case Fail =>
      if c.inFlight == 0 then None else Some(Session(CompleteFail(c.state), c.inFlight - 1))
    case ToggleCard(i) => Some(Session(Toggle(c.state, i), c.inFlight))
  }

  /** A sequence of events from a session; `None` once a completion has no fetch to settle. */
  function Run<R>(c: Session<R>, events: seq<Event<R>>): Option<Session<R>>
    decreases |events|
  {
    if |events| == 0 then Some(c)
    else match Apply(c, events[0])
      case None => None
      case Some(c') => Run(c', events[1..])
  }

  /**
   * What every reachable session satisfies: the spinner is on only while a
   * fetch is in flight and after a search began; before the first search
   * nothing is shown and nothing is in flight; a recorded query is never
   * empty.
   */
  predicate Consistent<R>(c: Session<R>) {
    && (c.state.loading ==> c.inFlight > 0 && c.state.hasSearched)
    && (!c.state.hasSearched ==> c.state.results == [] && c.inFlight == 0 && c.state.lastSearchedQuery == "")
    && (c.state.hasSearched ==> c.state.lastSearchedQuery != "")
  }

  lemma ApplyConsistent<R>(c: Session<R>, e: Event<R>)
    requires Consistent(c) && Apply(c, e).Some?
    ensures Consistent(Apply(c, e).value)
  {
  }

  /** Every session reached from the initial page is consistent. */
  lemma {:induction false} RunConsistent<R>(c: Session<R>, events: seq<Event<R>>)
    requires Consistent(c) && Run(c, events).Some?
    ensures Consistent(Run(c, events).value)
    decreases |events|
  {
    if |events| > 0 {
      ApplyConsistent(c, events[0]);
      RunConsistent(Apply(c, events[0]).value, events[1..]);
    }
  }

  /** The page as first rendered. */
  function Fresh<R>(): (c: Session<R>)
    ensures Consistent(c) && c.inFlight == 0
  {
    Session(Initial(), 0)
  }

  /**
   * In a consistent session nothing is rendered before the first search and
   * exactly one of the three views after it.
   */
  lemma OneView<R>(c: Session<R>)
    requires Consistent(c)
    ensures !c.state.hasSearched ==> !Spinner(c.state) && !NoResults(c.state) && !ResultList(c.state)
    ensures c.state.hasSearched ==> Spinner(c.state) || NoResults(c.state) || ResultList(c.state)
  {
  }

  /**
   * Two searches whose responses arrive in the opposite order: the first
   * arrival clears the spinner while the later search is still in flight,
   * and the older response, arriving last, replaces the newer results while
   * the page names the newer query as the one searched.
   */
  lemma {:induction false} StaleResponseWins<R>(c: Session<R>, q1: string, q2: string, older: Response<R>, newer: Response<R>)
    requires q1 != "" && q2 != ""
    ensures Run(c, [Type(q1), Submit, Type(q2), Submit, Succeed(newer)]).Some?
    ensures var mid := Run(c, [Type(q1), Submit, Type(q2), Submit, Succeed(newer)]).value;
      !Spinner(mid.state) && mid.inFlight == c.inFlight + 1
    ensures var last := Run(c, [Type(q1), Submit, Type(q2), Submit, Succeed(newer), Succeed(older)]);
      && last.Some?
      && last.value.state.results == older.results.GetOr([])
      && last.value.state.lastSearchedQuery == q2
      && last.value.inFlight == c.inFlight
  {
    var c1 := Session(SetQuery(c.state, q1), c.inFlight);
    var c2 := Session(Start(c1.state).0, c.inFlight + 1);
    var c3 := Session(SetQuery(c2.state, q2), c.inFlight + 1);
    var c4 := Session(Start(c3.state).0, c.inFlight + 2);
    var c5 := Session(CompleteOk(c4.state, newer), c.inFlight + 1);
    var c6 := Session(CompleteOk(c5.state, older), c.inFlight);
    RunCons(c5, Succeed(older), []);
    RunCons(c4, Succeed(newer), [Succeed(older)]);
    RunCons(c3, Submit, [Succeed(newer), Succeed(older)]);
    RunCons(c2, Type(q2), [Submit, Succeed(newer), Succeed(older)]);
    RunCons(c1, Submit, [Type(q2), Submit, Succeed(newer), Succeed(older)]);
    RunCons(c, Type(q1), [Submit, Type(q2), Submit, Succeed(newer), Succeed(older)]);
    RunCons(c4, Succeed(newer), []);
    RunCons(c3, Submit, [Succeed(newer)]);
    RunCons(c2, Type(q2), [Submit, Succeed(newer)]);
    RunCons(c1, Submit, [Type(q2), Submit, Succeed(newer)]);
    RunCons(c, Type(q1), [Submit, Type(q2), Submit, Succeed(newer)]);
  }

  /** Running a trace is applying its first event, then running the rest. */
  lemma RunCons<R>(c: Session<R>, e: Event<R>, rest: seq<Event<R>>)
    requires Apply(c, e).Some?
    ensures Run(c, [e] + rest) == Run(Apply(c, e).value, rest)
  {
    assert ([e] + rest)[1..] == rest;
  }

  /**
   * A failed search leaves the previous query's results on the page: after
   * the spinner clears, the result list shows them under the new query.
   */
  lemma FailureShowsPreviousResults<R>(c: Session<R>, q: string)
    requires q != "" && |c.state.results| > 0
    ensures var r := Run(c, [Type(q), Submit, Fail]);
      && r.Some?
      && ResultList(r.value.state)
      && r.value.state.results == c.state.results
      && r.value.state.lastSearchedQuery == q
  {
    var c1 := Session(SetQuery(c.state, q), c.inFlight);
    var c2 := Session(Start(c1.state).0, c.inFlight + 1);
    var c3 := Session(CompleteFail(c2.state), c.inFlight);
    RunCons(c2, Fail, []);
    RunCons(c1, Submit, [Fail]);
    RunCons(c, Type(q), [Submit, Fail]);
  }
}
