/**
 * The search screen of the property finder: the three fields of its
 * component state, the handlers that update them, and the requests the
 * screen makes of the outside world (a fetch of a query URL, a navigation
 * to the results screen).
 *
 * The handlers are first given as functions on a `State` value, one per
 * event, and a run of the screen as the fold of those functions over a
 * sequence of events. The class `SearchPage` then holds the same three
 * fields as mutable state, with one method per handler, and keeps the
 * invariant that its fields are the fold over the events it has seen.
 */
module SearchScreen {
  import opened Wrappers
  import opened PropertyTable
  import Query

  const INITIAL_SEARCH_STRING: string := "london"
  const PLACE_NAME_KEY: string := "place_name"
  const FIRST_PAGE: nat := 1
  const RESULTS_ROUTE: string := "Results"
  const NOT_RECOGNIZED: string := "Location not recognized; please try again."
  const FAILURE_PREFIX: string := "Something bad happened "

  /** The component state `{searchString, isLoading, message}`. */
  datatype State = State(searchString: string, isLoading: bool, message: string)

  const INITIAL_STATE: State := State(INITIAL_SEARCH_STRING, false, "")

  /** The object passed to `setState`: the fields it names, and nothing else. */
  datatype Update = Update(searchString: Option<string>, isLoading: Option<bool>, message: Option<string>)

  /** The body of an API reply: its response code and its listings, which stay opaque. */
  datatype Response<L> = Response(applicationResponseCode: string, listings: L)

  /** A request to the navigator to show `route` with the given listings. */
  datatype Navigation<L> = Navigation(route: string, listings: L)

  /** The events that change the state. */
  datatype Event<L> =
    | TextEdited(text: string)
    | QueryStarted(query: string)
    | ResponseArrived(response: Response<L>)
    | RequestFailed(error: string)

  predicate IsCompletion<L>(e: Event<L>) {
    e.ResponseArrived? || e.RequestFailed?
  }

  // ---------------------------------------------------------------------
  // setState as an immediate merge
  // ---------------------------------------------------------------------

  function Override<T>(current: T, update: Option<T>): T {
    if update.Some? then update.value else current
  }

  /** `setState(u)`: the fields `u` names take its values, the others stay. */
  function Merge(s: State, u: Update): State {
    State(Override(s.searchString, u.searchString),
          Override(s.isLoading, u.isLoading),
          Override(s.message, u.message))
  }

  /** Two updates as one object, the later one winning on the fields both name. */
  function Combine(first: Update, second: Update): Update {
    Update(if second.searchString.Some? then second.searchString else first.searchString,
           if second.isLoading.Some? then second.isLoading else first.isLoading,
           if second.message.Some? then second.message else first.message)
  }

  /**
   * Merging two updates one after the other is the same as merging their
   * combination once, so treating each `setState` as immediate gives the
   * state a batched pair of calls would give.
   */
  lemma MergeCombine(s: State, first: Update, second: Update)
    ensures Merge(Merge(s, first), second) == Merge(s, Combine(first, second))
  {
  }

  // ---------------------------------------------------------------------
  // One function per handler
  // ---------------------------------------------------------------------

  /** The text field changed: only the search string changes. */
  function WithText(s: State, text: string): (r: State)
    ensures r.searchString == text
    ensures r.isLoading == s.isLoading && r.message == s.message
  {
    Merge(s, Update(Some(text), None, None))
  }

  /** A query was sent: the screen is loading, the text and message stay. */
  function Loading(s: State): (r: State)
    ensures r.isLoading
    ensures r.searchString == s.searchString && r.message == s.message
  {
    Merge(s, Update(None, Some(true), None))
  }

  /**
   * The URL a press of the search button fetches: the place name typed so
   * far, on the first page, after the fixed parameters.
   */
  function SearchQuery(s: State): (url: string)
    ensures |url| > |Query.API_BASE| && url[..|Query.API_BASE|] == Query.API_BASE
    ensures Query.ParseUrl(url)
      == Some(Query.Defaults(FIRST_PAGE) + [Property(PLACE_NAME_KEY, s.searchString)])
  {
    Query.PlaceNameUrl(s.searchString, FIRST_PAGE);
    Query.UrlForQueryAndPage(PLACE_NAME_KEY, s.searchString, FIRST_PAGE)
  }

  /**
   * `s.substr(start, length)` for non-negative arguments: the characters
   * from `start` on, at most `length` of them.
   */
  function Substr(s: string, start: nat, length: nat): (r: string)
    ensures |r| == if start >= |s| then 0 else if start + length <= |s| then length else |s| - start
    ensures forall i :: 0 <= i < |r| ==> start + i < |s| && r[i] == s[start + i]
  {
    if start >= |s| then ""
    else if start + length <= |s| then s[start..start + length]
    else s[start..]
  }

  /** The test `code.substr(0, 1) === '1'`. */
  function IsSuccessCode(code: string): (b: bool)
    ensures b <==> |code| > 0 && code[0] == '1'
  {
    Substr(code, 0, 1) == "1"
  }

  /** The navigation a response asks for: none, or one to the results screen. */
  function NavigationFor<L>(response: Response<L>): (n: seq<Navigation<L>>)
    ensures |n| <= 1
    ensures |n| == 1 <==> IsSuccessCode(response.applicationResponseCode)
    ensures forall i :: 0 <= i < |n| ==> n[i] == Navigation(RESULTS_ROUTE, response.listings)
  {
    if IsSuccessCode(response.applicationResponseCode) then [Navigation(RESULTS_ROUTE, response.listings)]
    else []
  }

  /**
   * A reply arrived: loading stops and the message is cleared; then, when
   * the code does not report success, the message says the location was
   * not recognised.
   */
  function AfterResponse<L>(s: State, response: Response<L>): (r: State)
    ensures !r.isLoading && r.searchString == s.searchString
    ensures r.message == if IsSuccessCode(response.applicationResponseCode) then "" else NOT_RECOGNIZED
  {
    var cleared := Merge(s, Update(None, Some(false), Some("")));
    if IsSuccessCode(response.applicationResponseCode) then cleared
    else Merge(cleared, Update(None, None, Some(NOT_RECOGNIZED)))
  }

  /** The request failed: loading stops and the message reports the error. */
  function AfterFailure(s: State, error: string): (r: State)
    ensures !r.isLoading && r.searchString == s.searchString
    ensures r.message == FAILURE_PREFIX + error
  {
    Merge(s, Update(None, Some(false), Some(FAILURE_PREFIX + error)))
  }

  function Next<L>(s: State, e: Event<L>): State {
    match e
    case TextEdited(text) => WithText(s, text)
    case QueryStarted(_) => Loading(s)
    case ResponseArrived(response) => AfterResponse(s, response)
    case RequestFailed(error) => AfterFailure(s, error)
  }

  /** The state after the events `es`, in order, starting from `s`. */
  function Run<L>(s: State, es: seq<Event<L>>): State {
    if es == [] then s else Next(Run(s, es[..|es| - 1]), es[|es| - 1])
  }

  /** The navigations the events `es` request, in order. */
  function Requested<L>(es: seq<Event<L>>): seq<Navigation<L>> {
    if es == [] then []
    else
      var last := es[|es| - 1];
      Requested(es[..|es| - 1]) + if last.ResponseArrived? then NavigationFor(last.response) else []
  }

  /** The URLs the events `es` fetch, in order. */
  function Queries<L>(es: seq<Event<L>>): seq<string> {
    if es == [] then []
    else
      var last := es[|es| - 1];
      Queries(es[..|es| - 1]) + if last.QueryStarted? then [last.query] else []
  }

  // ---------------------------------------------------------------------
  // Properties of runs
  // ---------------------------------------------------------------------

  /** Running two stretches of events is running the first, then the second. */
  lemma {:induction false} RunAppend<L>(s: State, a: seq<Event<L>>, b: seq<Event<L>>)
    ensures Run(s, a + b) == Run(Run(s, a), b)
  {
    if b != [] {
      assert (a + b)[..|a + b| - 1] == a + b[..|b| - 1];
      assert (a + b)[|a + b| - 1] == b[|b| - 1];
      RunAppend(s, a, b[..|b| - 1]);
    } else {
      assert a + b == a;
    }
  }

  /** The three messages the screen can show. */
  predicate KnownMessage(m: string) {
    m == "" || m == NOT_RECOGNIZED || (|m| >= |FAILURE_PREFIX| && m[..|FAILURE_PREFIX|] == FAILURE_PREFIX)
  }

  /** From the initial state, the message is always one of the three. */
  lemma {:induction false} ReachableMessage<L>(es: seq<Event<L>>)
    ensures KnownMessage(Run(INITIAL_STATE, es).message)
  {
    if es != [] {
      ReachableMessage(es[..|es| - 1]);
      var e := es[|es| - 1];
      if e.RequestFailed? {
        assert (FAILURE_PREFIX + e.error)[..|FAILURE_PREFIX|] == FAILURE_PREFIX;
      }
    }
  }

  /** Only an edit of the text field changes the search string. */
  lemma {:induction false} TextOnlyFromEdits<L>(s: State, es: seq<Event<L>>)
    requires forall i :: 0 <= i < |es| ==> !es[i].TextEdited?
    ensures Run(s, es).searchString == s.searchString
  {
    if es != [] {
      TextOnlyFromEdits(s, es[..|es| - 1]);
    }
  }

  /**
   * The screen is loading exactly when some query was sent and no reply or
   * failure has come in since, or it was loading before and nothing has
   * come in at all. With two queries in flight, the first reply already
   * ends the loading.
   */
  lemma {:induction false} LoadingIffPending<L>(s: State, es: seq<Event<L>>)
    ensures Run(s, es).isLoading <==>
      (exists i :: 0 <= i < |es| && es[i].QueryStarted? &&
         forall j :: i < j < |es| ==> !IsCompletion(es[j])) ||
      (s.isLoading && forall j :: 0 <= j < |es| ==> !IsCompletion(es[j]))
  {
    if es != [] {
      var init := es[..|es| - 1];
      var e := es[|es| - 1];
      LoadingIffPending(s, init);
      assert forall j :: 0 <= j < |init| ==> init[j] == es[j];
      if !e.QueryStarted? && !IsCompletion(e) {
        if Run(s, init).isLoading {
          if i :| 0 <= i < |init| && init[i].QueryStarted? && forall j :: i < j < |init| ==> !IsCompletion(init[j]) {
            assert es[i].QueryStarted? && forall j :: i < j < |es| ==> !IsCompletion(es[j]);
          }
        } else {
          forall i | 0 <= i < |es| && es[i].QueryStarted?
            ensures exists j :: i < j < |es| && IsCompletion(es[j])
          {
            assert i < |init|;
            assert init[i].QueryStarted?;
            var j :| i < j < |init| && IsCompletion(init[j]);
            assert IsCompletion(es[j]);
          }
        }
      }
    }
  }

  /** Whatever came before, a reply and a failure both leave the screen idle. */
  lemma CompletionStopsLoading<L>(s: State, es: seq<Event<L>>, e: Event<L>)
    requires IsCompletion(e)
    ensures !Run(s, es + [e]).isLoading
    ensures Run(s, es + [e]).searchString == Run(s, es).searchString
  {
    assert (es + [e])[..|es + [e]| - 1] == es;
  }

  /** Every requested navigation goes to the results screen; failures request none. */
  lemma {:induction false} RequestedGoToResults<L>(es: seq<Event<L>>)
    ensures |Requested(es)| <= |es|
    ensures forall n :: n in Requested(es) ==> exists i :: 0 <= i < |es| && PassingReply(es[i], n)
    ensures (forall i :: 0 <= i < |es| ==> !es[i].ResponseArrived?) ==> Requested(es) == []
  {
    if es != [] {
      var init := es[..|es| - 1];
      var e := es[|es| - 1];
      RequestedGoToResults(init);
      forall n | n in Requested(es) ensures exists i :: 0 <= i < |es| && PassingReply(es[i], n) {
        if n in Requested(init) {
          var i :| 0 <= i < |init| && PassingReply(init[i], n);
          assert es[i] == init[i];
        } else {
          assert PassingReply(es[|es| - 1], n);
        }
      }
    }
  }

  /** `e` is a reply whose code passes, and `n` is the navigation it asks for. */
  ghost predicate PassingReply<L>(e: Event<L>, n: Navigation<L>) {
    && e.ResponseArrived?
    && IsSuccessCode(e.response.applicationResponseCode)
    && n == Navigation(RESULTS_ROUTE, e.response.listings)
  }

  /** A single event asks for at most one navigation, and only a passing reply asks for one. */
  lemma RequestedPerEvent<L>(es: seq<Event<L>>, e: Event<L>)
    ensures |Requested(es + [e])| <= |Requested(es)| + 1
    ensures |Requested(es + [e])| == |Requested(es)| + 1 <==>
      e.ResponseArrived? && IsSuccessCode(e.response.applicationResponseCode)
  {
    assert (es + [e])[..|es + [e]| - 1] == es;
  }

  /**
   * Each URL fetched by a press of the search button reads back to the
   * fixed parameters and the search string of the moment.
   */
  lemma PressedQueryFetched<L>(s: State, es: seq<Event<L>>)
    ensures Queries(es + [QueryStarted(SearchQuery(Run(s, es)))])
      == Queries(es) + [SearchQuery(Run(s, es))]
    ensures Query.ParseUrl(Queries(es + [QueryStarted(SearchQuery(Run(s, es)))])[|Queries(es)|])
      == Some(Query.Defaults(FIRST_PAGE) + [Property(PLACE_NAME_KEY, Run(s, es).searchString)])
  {
    var e: Event<L> := QueryStarted(SearchQuery(Run(s, es)));
    assert (es + [e])[..|es + [e]| - 1] == es;
  }

  // ---------------------------------------------------------------------
  // The component
  // ---------------------------------------------------------------------

  /**
   * The search screen component. `fetches` and `navigations` record the
   * requests it has made of the network and of the navigator; `history`
   * records the events it has handled.
   */
  class SearchPage<L> {
    var searchString: string
    var isLoading: bool
    var message: string
    ghost var history: seq<Event<L>>
    ghost var fetches: seq<string>
    ghost var navigations: seq<Navigation<L>>

    function Current(): State
      reads this
    {
      State(searchString, isLoading, message)
    }

    /** The fields are the run of the recorded events, and so are the two logs. */
    ghost predicate Valid()
      reads this
    {
      Current() == Run(INITIAL_STATE, history) &&
      fetches == Queries(history) &&
      navigations == Requested(history)
    }

    constructor ()
      ensures Valid() && history == []
      ensures Current() == State(INITIAL_SEARCH_STRING, false, "")
    {
      searchString := INITIAL_SEARCH_STRING;
      isLoading := false;
      message := "";
      history := [];
      fetches := [];
      navigations := [];
    }

    /** `this.setState(u)`, taken to apply at once. */
    method SetState(u: Update)
      modifies this
      ensures Current() == Merge(old(Current()), u)
      ensures history == old(history) && fetches == old(fetches) && navigations == old(navigations)
    {
      if u.searchString.Some? { searchString := u.searchString.value; }
      if u.isLoading.Some? { isLoading := u.isLoading.value; }
      if u.message.Some? { message := u.message.value; }
    }

    /** `this.props.navigation.navigate(route, {listings})`: only the request is recorded. */
    method Navigate(route: string, listings: L)
      modifies this
      ensures navigations == old(navigations) + [Navigation(route, listings)]
      ensures Current() == old(Current()) && history == old(history) && fetches == old(fetches)
    {
      navigations := navigations + [Navigation(route, listings)];
    }

    /** `_onSearchTextChanged`: the text field now holds `text`. */
    method OnSearchTextChanged(text: string)
      requires Valid()
      modifies this
      ensures Valid() && history == old(history) + [TextEdited(text)]
      ensures Current() == WithText(old(Current()), text)
      ensures fetches == old(fetches) && navigations == old(navigations)
    {
      SetState(Update(Some(text), None, None));
      history := history + [TextEdited(text)];
      assert history[..|history| - 1] == old(history);
    }

    /** `_executeQuery`: the fetch of `query` is sent and the screen shows it is loading. */
    method ExecuteQuery(query: string)
      requires Valid()
      modifies this
      ensures Valid() && history == old(history) + [QueryStarted(query)]
      ensures Current() == Loading(old(Current()))
      ensures fetches == old(fetches) + [query] && navigations == old(navigations)
    {
      SetState(Update(None, Some(true), None));
      fetches := fetches + [query];
      history := history + [QueryStarted(query)];
      assert history[..|history| - 1] == old(history);
    }

    /** `_onSearchPressed`: fetch the first page of listings for the text typed so far. */
    method OnSearchPressed() returns (query: string)
      requires Valid()
      modifies this
      ensures query == SearchQuery(old(Current()))
      ensures Query.ParseUrl(query)
        == Some(Query.Defaults(FIRST_PAGE) + [Property(PLACE_NAME_KEY, old(searchString))])
      ensures Valid() && history == old(history) + [QueryStarted(query)]
      ensures Current() == Loading(old(Current()))
      ensures fetches == old(fetches) + [query] && navigations == old(navigations)
    {
      query := Query.UrlForQueryAndPage(PLACE_NAME_KEY, searchString, FIRST_PAGE);
      ExecuteQuery(query);
    }

    /** `_handleResponse`: stop loading, then go to the results or explain the failure. */
    method HandleResponse(response: Response<L>)
      requires Valid()
      modifies this
      ensures Valid() && history == old(history) + [ResponseArrived(response)]
      ensures Current() == AfterResponse(old(Current()), response)
      ensures navigations == old(navigations) + NavigationFor(response)
      ensures fetches == old(fetches)
    {
      SetState(Update(None, Some(false), Some("")));
      if Substr(response.applicationResponseCode, 0, 1) == "1" {
        Navigate(RESULTS_ROUTE, response.listings);
      } else {
        SetState(Update(None, None, Some(NOT_RECOGNIZED)));
      }
      history := history + [ResponseArrived(response)];
      assert history[..|history| - 1] == old(history);
    }

    /** The `.catch` branch: the fetch or the reading of its reply failed with `error`. */
    method OnRequestFailed(error: string)
      requires Valid()
      modifies this
      ensures Valid() && history == old(history) + [RequestFailed(error)]
      ensures Current() == AfterFailure(old(Current()), error)
      ensures fetches == old(fetches) && navigations == old(navigations)
    {
      SetState(Update(None, Some(false), Some(FAILURE_PREFIX + error)));
      history := history + [RequestFailed(error)];
      assert history[..|history| - 1] == old(history);
    }
  }
}
