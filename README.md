# TVmaze catalogue composables in Dafny

This project models the data layer of a Nuxt front end for the TVmaze show
catalogue. It has three parts:

- The request builders `useFetchAllShows(page)` and
  `useFetchShowDetails(id)`. Each one is the path, cache key and options it
  hands to Nuxt's `useFetch`.
- The search coordinator `useSearchShows()`. It has three observable
  fields: `searchResults`, `loading` and `error`. Its `search(query)`
  operation works in two steps:
  - It first runs synchronously: it resets the fields, trims the query,
    percent-encodes it and builds the request URL.
  - After the network call it runs a continuation. If the call resolves,
    it publishes the shows. If it rejects, it stores the error.
- The debounce helper `useDebounce(value, delay)`. It mirrors a watched
  value, but takes each new value only once `delay` milliseconds have
  passed without a further change.

Modules:

| module | file | contents |
|---|---|---|
| `Optional` | `optional.dfy` | the `Option` type |
| `JsString` | `js_string.dfy` | `String.prototype.trim` over JavaScript's whitespace and line-terminator set; the text of `${n}` for an integer, with a parser that inverts it |
| `UriComponent` | `uri_component.dfy` | `encodeURIComponent`, including UTF-8 for non-ASCII characters; a decoder that inverts it |
| `ShowTypes` | `show_types.dfy` | `Show` and `SearchResultItem` |
| `FetchShows` | `fetch_shows.dfy` | the two request builders; the search state machine, as pure transition functions and as the class `SearchShows` whose methods update the three fields in place |
| `Debounce` | `debounce.dfy` | the debounce state, as transition functions over an explicit millisecond clock and as the class `Debouncer` |

### How the asynchronous parts are modelled

**Search.** `search` awaits `$fetch`, so it is split at the `await`:

- `SearchShows.Begin` is everything up to the network call. It returns the
  URL that would be fetched, or `None` for a blank query.
- `CompleteOk` and `CompleteErr` are the two continuations.
- `SearchShows.Search` is one awaited call, with the network's answer given
  as a parameter.

The pure functions `AfterBegin`, `Complete` and `AfterSearch` specify these
methods. Because those functions compose, interleavings of overlapping
calls can be stated directly.

**Debounce.** The timer is one variable. A change cancels the pending timer
and re-arms it; time passes only through `Advance(dt)`. A timer fires
during an `Advance` that reaches its deadline and writes the value it
captured when it was armed.

### Behaviour of the code worth knowing

- A blank query still clears `searchResults` (line 76 runs before the blank
  check).
- Overlapping searches have no staleness guard. Whichever request resolves
  last writes the results. A stale success can stand beside a newer
  search's error. `loading` drops as soon as any request finishes
  (`LateCompletionOverwrites`, `LoadingDropsWhileNewerPending`).
- The debounced value written is the one captured when the change was
  observed. It is not re-read from the source when the timer fires.
- The composable has no record cache of shows fetched earlier. The test file imports `getCachedShowById`, but `useFetchShows.ts` does not define it.

## Model

| member | source | states |
|---|---|---|
| `JsString.Trim` | app/composables/useFetchShows.ts:85 | `query.trim()` keeps a contiguous slice of the query. Everything cut off on either side is whitespace, and a non-empty result neither starts nor ends with whitespace. |
| `JsString.TrimEmptyIffBlank` | app/composables/useFetchShows.ts:77 | The trimmed query is empty if and only if every character of the query is whitespace. |
| `JsString.TrimIdempotent` | app/composables/useFetchShows.ts:85 | Trimming twice gives the same result as trimming once. |
| `JsString.IntTextRoundTrip` | app/composables/useFetchShows.ts:19-20 | The text that `${page}` produces for an integer parses back to that integer. |
| `JsString.IntTextInjective` | app/composables/useFetchShows.ts:19-20 | Different integers are printed as different texts. |
| `UriComponent.DecodeEncode` | app/composables/useFetchShows.ts:85 | Decoding the output of `encodeURIComponent` gives back the original string, for every string, including multi-byte UTF-8 characters. |
| `UriComponent.EncodeInjective` | app/composables/useFetchShows.ts:85 | Different strings encode to different components. |
| `UriComponent.EncodeIsSafe` | app/composables/useFetchShows.ts:85 | Every character of an encoded component is unreserved or `%`. So it never contains `&`, `=`, `#`, `+`, `?` or a space. |
| `UriComponent.EncodeAppend` | app/composables/useFetchShows.ts:85 | Encoding works character by character: encoding `s + t` gives `Encode(s) + Encode(t)`. |
| `UriComponent.EncodeKeepsUnreserved` | app/composables/useFetchShows.ts:85 | A string of unreserved characters encodes to itself. |
| `FetchShows.ListRequestNamesPage` | app/composables/useFetchShows.ts:18-29 | The list request has path `/shows?page=<page>`, key `shows-page-<page>` and the TVmaze base URL. The page can be read back from both the path and the key. |
| `FetchShows.ListKeysDistinct` | app/composables/useFetchShows.ts:19-20 | Different pages never share a path or a cache key. |
| `FetchShows.DetailsRequestNamesId` | app/composables/useFetchShows.ts:44-56 | The details path is `/shows/<id>?embed=cast` and the key is `show-details-<id>`. The id's text sits between those fixed parts; a numeric id reads back as the number. The options watch the computed key (`watch: [key]`). |
| `FetchShows.DetailsKeysDistinct` | app/composables/useFetchShows.ts:46-47 | Ids with different texts never share a details path or key. |
| `FetchShows.ShowsOf` | app/composables/useFetchShows.ts:91 | Mapping `item => item.show` keeps the length and the order of the items. |
| `FetchShows.BlankQueryMakesNoRequest` | app/composables/useFetchShows.ts:77-81 | No request is made if and only if the query is empty or whitespace only. |
| `FetchShows.SearchRequestCarriesTrimmedQuery` | app/composables/useFetchShows.ts:83-86 | A request URL is `https://api.tvmaze.com/search/shows?q=` followed by the encoded trimmed query. A server decodes exactly the trimmed query from it, and the encoded part holds no delimiter. |
| `FetchShows.SearchUrlsDistinct` | app/composables/useFetchShows.ts:85-86 | Queries with different trimmed texts are sent as different URLs. |
| `FetchShows.BeginResets` | app/composables/useFetchShows.ts:76-84 | Whatever state an earlier call left, starting a search empties the results and clears the error. `loading` is true exactly when a request is made. |
| `FetchShows.BlankSearchEndsIdle` | app/composables/useFetchShows.ts:76-81 | A blank query leaves no results, `loading` false and no error, whatever the coordinator held before. |
| `FetchShows.SuccessfulSearch` | app/composables/useFetchShows.ts:88-91 | When the request resolves with an array, the results are the items' shows in order, `loading` is false and there is no error. |
| `FetchShows.NonArraySearch` | app/composables/useFetchShows.ts:91 | A response that is not an array gives empty results and no error. |
| `FetchShows.FailedSearch` | app/composables/useFetchShows.ts:93-97 | A rejected request stores the thrown error unchanged, empties the results and ends not loading. |
| `FetchShows.SearchEndsNotLoading` | app/composables/useFetchShows.ts:98-100 | However an awaited search ends, `loading` is false. |
| `FetchShows.LateCompletionOverwrites` | app/composables/useFetchShows.ts:75-101 | When an older search resolves after a newer one, the older outcome decides the results. The error is the older rejection's, or else the newer one's. |
| `FetchShows.LoadingDropsWhileNewerPending` | app/composables/useFetchShows.ts:98-100 | When the older of two overlapping requests finishes first, `loading` turns false while the newer request is still outstanding. |
| `FetchShows.SearchShows.constructor` | app/composables/useFetchShows.ts:71-73 | A fresh coordinator has no results, is not loading and has no error. |
| `FetchShows.SearchShows.Begin` | app/composables/useFetchShows.ts:76-86 | Returns the URL to fetch, which is `None` for a blank query. Empties the results and clears the error. `loading` is true exactly when a URL is returned. |
| `FetchShows.SearchShows.CompleteOk` | app/composables/useFetchShows.ts:90-91 | Publishes the response's shows, or `[]` when the response is not an array. Clears `loading` and leaves the error as it is. |
| `FetchShows.SearchShows.CompleteErr` | app/composables/useFetchShows.ts:93-100 | Stores the error, empties the results and clears `loading`. |
| `FetchShows.SearchShows.Search` | app/composables/useFetchShows.ts:75-101 | One awaited `search(query)`: the same request as `Begin`, then the state `AfterSearch` prescribes, with `loading` false. |
| `Debounce.Debouncer.constructor` | app/composables/useDebounce.ts:5 | The debounced value starts equal to the source, with no timer pending. |
| `Debounce.Debouncer.Change` | app/composables/useDebounce.ts:8-12 | A change leaves the output as it is: no immediate update. It cancels any pending timer and arms one that carries the new value and fires `delay` later. |
| `Debounce.Debouncer.Advance` | app/composables/useDebounce.ts:10-12 | Lets time pass. A timer whose deadline is reached writes the value it carries and is gone; otherwise nothing changes but the clock. |
| `Debounce.RunKeepsValid` | app/composables/useDebounce.ts:7-13 | Every run keeps the invariant. At most one timer is pending. With none pending the output equals the source; otherwise the timer carries the source and fires within `delay`. |
| `Debounce.OutputIsLastPublished` | app/composables/useDebounce.ts:11 | At the end of a run, the output is the last value the run published, or the starting output if the run published nothing. |
| `Debounce.PublishedValuesWereChanges` | app/composables/useDebounce.ts:8-12 | Every published value was carried by a change in the run, or by the timer pending when the run began. |
| `Debounce.NoChangeNoUpdate` | app/composables/useDebounce.ts:8-13 | With no change and no pending timer, time passing publishes nothing and leaves the output as it was. |
| `Debounce.QuietPeriodPublishes` | app/composables/useDebounce.ts:10-12 | After a change followed by quiet, the output takes the changed value exactly once, as soon as `delay` has passed in total, and not before. |
| `Debounce.QuietCatchesUp` | app/composables/useDebounce.ts:8-12 | From any state the invariant allows, once `delay` has passed in total without a change, the output equals the source. |
| `Debounce.BurstPublishesNothing` | app/composables/useDebounce.ts:9-10 | Changes closer together than `delay` publish nothing. They leave one timer, which carries the last value and fires `delay` after the last change. |
| `Debounce.BurstCollapsesToLast` | app/composables/useDebounce.ts:8-12 | A burst followed by a wait collapses to one update. The last value is published after `delay` and no intermediate value ever is. |
| `Debounce.CancelledTimerNeverFires` | app/components/__tests__/useDebounce.spec.ts:90-107 | The "clear previous timeout" scenario. The timer for the first change is cancelled, so at 600 ms the output is still the initial value; at 800 ms it is the last value. |

## Left out

- The network. `$fetch` is not modelled. The way it ends is a parameter (`Outcome`): a resolved response, either an array of items or something else, or a thrown error.
- `console.error` logging on a failed search (line 94).
- Nuxt's `useFetch` machinery: request execution, `data`, `pending`, `error`, `execute`, `refresh` and its payload cache. A list or details request is modelled as the `useFetch` call it makes: path, base URL, key and the `immediate`, `watch` and `server` options.
- Reactivity of the page ref in `useFetchAllShows`. The URL is a computed ref (line 19), but the key is taken once (line 20). If the page ref changes later, the URL changes under the old key, and with `watch: false` nothing re-fetches. The model takes the page's value at call time.
- Reactivity in `useFetchShowDetails`. The key is passed as `key.value` (line 52), again taken once, while the watcher observes the computed key. The model takes the id at call time.
- Page numbers other than integers. `${page}` on a fractional, `NaN` or exponent-formatted number prints text this model does not produce. The default argument `page = 0` is the call with page 0.
- The catalogue records. `Show` keeps only an id and a name, because the composables never look inside a show.
- Lone surrogates. `encodeURIComponent` throws on them, but Dafny characters are Unicode scalar values, so such a query cannot be written. In the code, the throw happens at line 85, before the `try` at line 88. `search` then rejects and leaves `loading` true and `error` null; the model has no such state.
- Search responses whose items are not objects, such as `[null]`. For these, `item.show` throws inside the `try` at line 91, so the code stores the `TypeError` and empties the results. `Items` holds well-formed `SearchResultItem`s only, so the model cannot express such an array. A failure of this kind is covered only as a `Rejected` outcome.
- Vue's `watch` semantics. The watcher runs only when the source really changes, and its callback flush timing is not modelled. A `Changed` event stands for one run of the watcher callback.
- Real timers. `setTimeout` and `clearTimeout` are a single pending-timer variable over an explicit millisecond clock. The delay is a natural number and is honoured as given. Real timers treat a delay above 2^31-1 ms as about 1 ms, so such a timer fires almost at once; the model does not capture this.
- Concurrency. The class `SearchShows` handles one call at a time, as `Begin` followed by a continuation. Overlapping calls are stated over the transition functions (`LateCompletionOverwrites`, `LoadingDropsWhileNewerPending`).
