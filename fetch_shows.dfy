/**
 * The data-fetching composables of the catalogue front end: the request
 * builders for the paginated show list and for one show's details, and the
 * search coordinator with its three observable fields.
 */
module FetchShows {
  import opened Optional
  import opened JsString
  import opened ShowTypes
  import UriComponent

  const ApiBaseUrl: string := "https://api.tvmaze.com"

  // =====================================================================
  // List and detail requests
  // =====================================================================

  /** The options handed to Nuxt's `useFetch`; `watchesKey` stands for `watch: [key]` (true) or `watch: false`. */
  datatype FetchOptions = FetchOptions(baseURL: string, key: string, immediate: bool, watchesKey: bool, server: bool)

  /** One `useFetch` call: the request path (relative to `baseURL`) and its options. */
  datatype FetchCall = FetchCall(path: string, options: FetchOptions)

  const ShowsPagePrefix: string := "/shows?page="
  const ShowsPageKeyPrefix: string := "shows-page-"

  function ShowsPagePath(page: int): string {
    ShowsPagePrefix + IntText(page)
  }

  function ShowsPageKey(page: int): string {
    ShowsPageKeyPrefix + IntText(page)
  }

  /** The request `useFetchAllShows(page)` makes: fetched at once, never re-fetched by a watcher, client side only. */
  function UseFetchAllShows(page: int): FetchCall {
    FetchCall(ShowsPagePath(page), FetchOptions(ApiBaseUrl, ShowsPageKey(page), true, false, false))
  }

  /** A show id is a number or a string (a route parameter); both are printed as they are. */
  datatype ShowId = NumberId(n: int) | StringId(s: string)

  function IdText(id: ShowId): string {
    match id
    case NumberId(n) => IntText(n)
    case StringId(s) => s
  }

  const ShowDetailsPrefix: string := "/shows/"
  const ShowDetailsSuffix: string := "?embed=cast"
  const ShowDetailsKeyPrefix: string := "show-details-"

  function ShowDetailsPath(id: ShowId): string {
    ShowDetailsPrefix + IdText(id) + ShowDetailsSuffix
  }

  function ShowDetailsKey(id: ShowId): string {
    ShowDetailsKeyPrefix + IdText(id)
  }

  /** The request `useFetchShowDetails(id)` makes: fetched at once and again whenever the key changes. */
  function UseFetchShowDetails(id: ShowId): FetchCall {
    FetchCall(ShowDetailsPath(id), FetchOptions(ApiBaseUrl, ShowDetailsKey(id), true, true, false))
  }

  /** The text after `prefix`, when `s` starts with it. */
  function After(prefix: string, s: string): (r: Option<string>)
    ensures r.Some? <==> prefix <= s
    ensures r.Some? ==> s == prefix + r.value
  {
    if prefix <= s then Some(s[|prefix|..]) else None
  }

  /** The text between `prefix` and `suffix`, when `s` is framed by them. */
  function Between(prefix: string, suffix: string, s: string): (r: Option<string>)
    ensures r.Some? ==> s == prefix + r.value + suffix
  {
    if |prefix| + |suffix| <= |s| && prefix <= s && s[|s| - |suffix|..] == suffix
    then
      var mid := s[|prefix|..|s| - |suffix|];
      assert s == s[..|prefix|] + mid + s[|s| - |suffix|..];
      Some(mid)
    else None
  }

  /** The page a list path or key asks for. */
  function PageOf(prefix: string, s: string): Option<int> {
    match After(prefix, s)
    case Some(t) => ParseInt(t)
    case None => None
  }

  lemma AfterPrefix(prefix: string, t: string)
    ensures After(prefix, prefix + t) == Some(t)
  {
    assert prefix <= prefix + t;
    assert (prefix + t)[|prefix|..] == t;
  }

  lemma BetweenFrame(prefix: string, mid: string, suffix: string)
    ensures Between(prefix, suffix, prefix + mid + suffix) == Some(mid)
  {
    var s := prefix + mid + suffix;
    assert prefix <= s;
    assert s[|s| - |suffix|..] == suffix;
    assert s[|prefix|..|s| - |suffix|] == mid;
  }

  /**
   * The list request follows its page: the page can be read back from both
   * the path and the cache key, so two different pages never share a path
   * or a key.
   */
  lemma ListRequestNamesPage(page: int)
    ensures var call := UseFetchAllShows(page);
      && PageOf(ShowsPagePrefix, call.path) == Some(page)
      && PageOf(ShowsPageKeyPrefix, call.options.key) == Some(page)
      && call.options.baseURL == ApiBaseUrl
  {
    AfterPrefix(ShowsPagePrefix, IntText(page));
    AfterPrefix(ShowsPageKeyPrefix, IntText(page));
    IntTextRoundTrip(page);
  }

  lemma ListKeysDistinct(p: int, q: int)
    requires p != q
    ensures ShowsPageKey(p) != ShowsPageKey(q) && ShowsPagePath(p) != ShowsPagePath(q)
  {
    ListRequestNamesPage(p);
    ListRequestNamesPage(q);
  }

  /**
   * The details request follows its id: the path and the key both carry the
   * id's text, and for numeric ids the number itself can be read back.
   */
  lemma DetailsRequestNamesId(id: ShowId)
    ensures var call := UseFetchShowDetails(id);
      && Between(ShowDetailsPrefix, ShowDetailsSuffix, call.path) == Some(IdText(id))
      && After(ShowDetailsKeyPrefix, call.options.key) == Some(IdText(id))
      && (id.NumberId? ==> ParseInt(IdText(id)) == Some(id.n))
      && call.options.watchesKey
  {
    BetweenFrame(ShowDetailsPrefix, IdText(id), ShowDetailsSuffix);
    AfterPrefix(ShowDetailsKeyPrefix, IdText(id));
    if id.NumberId? {
      IntTextRoundTrip(id.n);
    }
  }

  lemma DetailsKeysDistinct(a: ShowId, b: ShowId)
    requires IdText(a) != IdText(b)
    ensures ShowDetailsKey(a) != ShowDetailsKey(b) && ShowDetailsPath(a) != ShowDetailsPath(b)
  {
    DetailsRequestNamesId(a);
    DetailsRequestNamesId(b);
  }

  // =====================================================================
  // Search
  // =====================================================================

  /** What a failed `$fetch` throws; the coordinator stores it unchanged. */
  datatype FetchError = FetchError(message: string)

  /** The decoded body of the search endpoint: an array of items, or anything that is not an array. */
  datatype Response = Items(items: seq<SearchResultItem>) | NotAnArray

  /** How the network call ends. */
  datatype Outcome = Resolved(response: Response) | Rejected(error: FetchError)

  const SearchPrefix: string := ApiBaseUrl + "/search/shows?q="

  /** `!query || !query.trim()` */
  predicate IsBlankQuery(query: string) {
    query == [] || Trim(query) == []
  }

  function SearchUrl(query: string): string {
    SearchPrefix + UriComponent.Encode(Trim(query))
  }

  /** The URL `search(query)` fetches, or `None` when it fetches nothing. */
  function SearchRequest(query: string): Option<string> {
    if IsBlankQuery(query) then None else Some(SearchUrl(query))
  }

  /** The shows embedded in the items, in order, without their scores. */
  function ShowsOf(items: seq<SearchResultItem>): (shows: seq<Show>)
    ensures |shows| == |items|
    ensures forall i :: 0 <= i < |items| ==> shows[i] == items[i].show
  {
    if items == [] then [] else [items[0].show] + ShowsOf(items[1..])
  }

  function ResultsOf(response: Response): seq<Show> {
    match response
    case Items(items) => ShowsOf(items)
    case NotAnArray => []
  }

  /** The three refs `useSearchShows` exposes. */
  datatype SearchState = SearchState(results: seq<Show>, loading: bool, error: Option<FetchError>)

  const Idle: SearchState := SearchState([], false, None)

  /**
   * The synchronous part of `search(query)`, up to the network call. It
   * overwrites all three fields, so the state it leaves does not depend on
   * the state it found.
   */
  function AfterBegin(s: SearchState, query: string): SearchState {
    if IsBlankQuery(query) then SearchState([], false, None) else SearchState([], true, None)
  }

  /** The continuation after `$fetch` resolves; the error field is not touched. */
  function AfterSuccess(s: SearchState, response: Response): SearchState {
    s.(results := ResultsOf(response), loading := false)
  }

  /** The continuation after `$fetch` rejects. */
  function AfterFailure(s: SearchState, e: FetchError): SearchState {
    SearchState([], false, Some(e))
  }

  function Complete(s: SearchState, outcome: Outcome): SearchState {
    match outcome
    case Resolved(response) => AfterSuccess(s, response)
    case Rejected(e) => AfterFailure(s, e)
  }

  /** A whole awaited `search(query)` whose network call, if made, ends with `outcome`. */
  function AfterSearch(s: SearchState, query: string, outcome: Outcome): SearchState {
    if IsBlankQuery(query) then AfterBegin(s, query) else Complete(AfterBegin(s, query), outcome)
  }

  /** The query text a server reads from a search URL. */
  function QueryOf(url: string): Option<string> {
    match After(SearchPrefix, url)
    case Some(t) => UriComponent.Decode(t)
    case None => None
  }

  /** No request is made exactly when the query is empty or whitespace only. */
  lemma BlankQueryMakesNoRequest(query: string)
    ensures SearchRequest(query) == None <==> AllWhitespace(query)
  {
    TrimEmptyIffBlank(query);
  }

  /**
   * A request, when made, is the search endpoint with the trimmed query as
   * its only parameter: a server decodes exactly the trimmed query from it,
   * and the encoded part holds no delimiter that could start another
   * parameter or a fragment.
   */
  lemma SearchRequestCarriesTrimmedQuery(query: string)
    requires SearchRequest(query).Some?
    ensures var url := SearchRequest(query).value;
      && SearchPrefix <= url
      && QueryOf(url) == Some(Trim(query))
      && UriComponent.AllEncoded(url[|SearchPrefix|..])
  {
    var e := UriComponent.Encode(Trim(query));
    AfterPrefix(SearchPrefix, e);
    UriComponent.DecodeEncode(Trim(query));
    UriComponent.EncodeIsSafe(Trim(query));
    assert (SearchPrefix + e)[|SearchPrefix|..] == e;
  }

  /** Different trimmed queries are sent as different URLs. */
  lemma SearchUrlsDistinct(q1: string, q2: string)
    requires Trim(q1) != Trim(q2)
    ensures SearchUrl(q1) != SearchUrl(q2)
  {
    var e1, e2 := UriComponent.Encode(Trim(q1)), UriComponent.Encode(Trim(q2));
    AfterPrefix(SearchPrefix, e1);
    AfterPrefix(SearchPrefix, e2);
    UriComponent.DecodeEncode(Trim(q1));
    UriComponent.DecodeEncode(Trim(q2));
  }

  /**
   * Every call clears the results before anything else, whatever an earlier
   * call left behind, and shows `loading` with no error exactly while its
   * request is outstanding.
   */
  lemma BeginResets(s: SearchState, query: string)
    ensures AfterBegin(s, query).results == []
    ensures AfterBegin(s, query).error == None
    ensures AfterBegin(s, query).loading <==> SearchRequest(query).Some?
  {
  }

  /** A blank query leaves the coordinator idle, whatever it held before. */
  lemma BlankSearchEndsIdle(s: SearchState, query: string, outcome: Outcome)
    requires AllWhitespace(query)
    ensures AfterSearch(s, query, outcome) == Idle
  {
    TrimEmptyIffBlank(query);
  }

  /** A successful search publishes the embedded shows, same length and order, scores dropped, with no error. */
  lemma SuccessfulSearch(s: SearchState, query: string, items: seq<SearchResultItem>)
    requires !AllWhitespace(query)
    ensures var t := AfterSearch(s, query, Resolved(Items(items)));
      && |t.results| == |items|
      && (forall i :: 0 <= i < |items| ==> t.results[i] == items[i].show)
      && !t.loading && t.error == None
  {
    TrimEmptyIffBlank(query);
  }

  /** A response that is not an array publishes no results and no error. */
  lemma NonArraySearch(s: SearchState, query: string)
    requires !AllWhitespace(query)
    ensures AfterSearch(s, query, Resolved(NotAnArray)) == Idle
  {
    TrimEmptyIffBlank(query);
  }

  /** A failed search stores the thrown error and empties the results. */
  lemma FailedSearch(s: SearchState, query: string, e: FetchError)
    requires !AllWhitespace(query)
    ensures AfterSearch(s, query, Rejected(e)) == SearchState([], false, Some(e))
  {
    TrimEmptyIffBlank(query);
  }

  /** However an awaited search ends, it is no longer loading. */
  lemma SearchEndsNotLoading(s: SearchState, query: string, outcome: Outcome)
    ensures !AfterSearch(s, query, outcome).loading
  {
  }

  /**
   * Overlapping searches have no staleness guard. When a first search's
   * request resolves after a second search's, the first one's outcome is
   * what remains: its results replace the newer ones, and a stale success
   * even sits beside the newer search's error.
   */
  lemma LateCompletionOverwrites(s: SearchState, q1: string, q2: string, o1: Outcome, o2: Outcome)
    requires !AllWhitespace(q1) && !AllWhitespace(q2)
    ensures var t := Complete(Complete(AfterBegin(AfterBegin(s, q1), q2), o2), o1);
      && t.results == (if o1.Resolved? then ResultsOf(o1.response) else [])
      && !t.loading
      && t.error == (if o1.Rejected? then Some(o1.error) else if o2.Rejected? then Some(o2.error) else None)
  {
  }

  /** When the older of two overlapping requests resolves first, `loading` drops while the newer one is still outstanding. */
  lemma LoadingDropsWhileNewerPending(s: SearchState, q1: string, q2: string, o1: Outcome)
    requires !AllWhitespace(q1) && !AllWhitespace(q2)
    ensures AfterBegin(AfterBegin(s, q1), q2).loading
    ensures !Complete(AfterBegin(AfterBegin(s, q1), q2), o1).loading
  {
    TrimEmptyIffBlank(q2);
  }

  /**
   * `useSearchShows()`: the three refs and the `search` operation, split at
   * the network call. `Begin` runs the synchronous part of `search` and
   * returns the URL to fetch, if any; `CompleteOk` and `CompleteErr` run
   * the continuation for the two ways the fetch can end.
   */
  class SearchShows {
    var searchResults: seq<Show>
    var loading: bool
    var error: Option<FetchError>

    function State(): SearchState
      reads this
    {
      SearchState(searchResults, loading, error)
    }

    constructor ()
      ensures State() == Idle
    {
      searchResults := [];
      loading := false;
      error := None;
    }

    method Begin(query: string) returns (request: Option<string>)
      modifies this
      ensures request == SearchRequest(query)
      ensures State() == AfterBegin(old(State()), query)
      ensures searchResults == [] && error == None
      ensures loading <==> request.Some?
    {
      searchResults := [];
      if query == [] || Trim(query) == [] {
        loading := false;
        error := None;
        return None;
      }
      loading := true;
      error := None;
      var encodedQuery := UriComponent.Encode(Trim(query));
      request := Some(ApiBaseUrl + "/search/shows?q=" + encodedQuery);
    }

    method CompleteOk(response: Response)
      modifies this
      ensures State() == AfterSuccess(old(State()), response)
      ensures searchResults == ResultsOf(response) && !loading && error == old(error)
    {
      searchResults := ResultsOf(response);
      loading := false;
    }

    method CompleteErr(e: FetchError)
      modifies this
      ensures State() == AfterFailure(old(State()), e)
      ensures searchResults == [] && !loading && error == Some(e)
    {
      error := Some(e);
      searchResults := [];
      loading := false;
    }

    /** An awaited `search(query)`: the fetch, if it is made, ends with `outcome`. */
    method Search(query: string, outcome: Outcome) returns (request: Option<string>)
      modifies this
      ensures request == SearchRequest(query)
      ensures State() == AfterSearch(old(State()), query, outcome)
      ensures !loading
    {
      request := Begin(query);
      if request.Some? {
        match outcome
        case Resolved(response) => CompleteOk(response);
        case Rejected(e) => CompleteErr(e);
      }
    }
  }
}
