# Property Finder search screen

This project models the search screen of the Property Finder React Native
app (`SearchPage.js`). It covers two parts.

**The query builder `urlForQueryAndPage`.**
- It starts from a JavaScript object holding five fixed parameters and `page`.
- It stores one caller-supplied key/value into that object.
- It lists the object's keys with `Object.keys`.
- It renders each pair as `key=encodeURIComponent(value)`, joins the pairs with `&`, and puts the Nestoria API address in front.

**The screen's state machine.**
- The component state holds `searchString`, `isLoading` and `message`.
- Four handlers update it: text changed, query executed (started by the search button), reply arrived, and request failed.

The model has five modules.

- `UriEncoding` (`uri_encoding.dfy`) is `encodeURIComponent` as ECMA-262 5.1, section 15.1.3.4 defines it:
  - the characters `A–Z a–z 0–9 - _ . ! ~ * ' ( )` stand for themselves;
  - every other code point becomes its UTF-8 octets, each written as `%XX` with upper-case hex.

  Its partner is `decodeURIComponent` (section 15.1.3.2). That decoder accepts both hex cases and rejects truncated escapes, overlong forms, surrogates and values above U+10FFFF. Decoding the encoding of any string gives the string back.
- `PropertyTable` (`property_table.dfy`) models the object `data` as an ordered table of string-valued data properties, with three operations:
  - assignment through `[[Set]]`;
  - property lookup;
  - the key order of `Object.keys`: array-index keys first in ascending numeric order, then the other keys in creation order.

  Assigning a string to `__proto__` reaches the inherited accessor. Its setter ignores a value that is not an object, so the table does not change. ECMAScript's Number-to-String rendering of a non-negative integer is included too.
- `Query` (`query.dfy`) holds the parameter table, the rendering and joining, and `UrlForQueryAndPage`. Its partner is a parser: it splits at `&`, then at the first `=`, and decodes each value. It recovers the exact table from any URL the builder produces whenever the caller's key holds neither `&` nor `=`.
- `SearchScreen` (`search_screen.dfy`) does two things:
  - It gives each handler as a function on a `State` value, and a run of the screen as the fold of those functions over a sequence of events.
  - It declares the class `SearchPage`, which holds the three fields with one method per handler. `setState` is a method that merges the fields an update names.

  The class also keeps ghost records of the events handled, the URLs fetched and the navigations requested. It keeps the invariant that its fields and both records are the ones the fold over its events gives.
- `Wrappers` (`wrappers.dfy`) holds the `Option` type.

The code accepts any override key, and the model follows the code:
- a key equal to one of the fixed names replaces that value in place;
- `__proto__` is silently dropped, leaving 6 pairs;
- an array-index key such as `"7"` is listed *first*;
- any other key is listed last.

`ParametersKeyOrder` and `ParametersShape` state all four cases.

## Model

| member | source | states |
|---|---|---|
| UriEncoding.Utf8Encode | SearchPage.js:29 | one to four octets; a single octet exactly for code points below 0x80; every octet after the first is a continuation byte |
| UriEncoding.Utf8RoundTrip | SearchPage.js:29 | the lead octet announces the sequence length, and UTF-8 decoding of the encoding of any code point gives that code point back |
| UriEncoding.EscapeOctet | SearchPage.js:29 | an octet is written as three characters: `%` and two upper-case hex digits |
| UriEncoding.EncodeChar | SearchPage.js:29 | an unreserved character stands for itself; any other becomes three characters per UTF-8 octet, starting with `%` |
| UriEncoding.EncodedCharIsEscapes | SearchPage.js:29 | the encoding of a reserved character is a run of `%XX` triples: `%` exactly at positions divisible by three, upper-case hex elsewhere |
| UriEncoding.EncodeUriComponent | SearchPage.js:29 | every output character is unreserved or `%`, so an encoded value never holds `&` or `=`; the output is no shorter than the input |
| UriEncoding.EncodeUriComponentAppend | SearchPage.js:29 | encoding distributes over concatenation |
| UriEncoding.EncodeUnreservedIsIdentity | SearchPage.js:29 | a value made only of unreserved characters is emitted unchanged |
| UriEncoding.DecodeEncodeRoundTrip | SearchPage.js:29 | `decodeURIComponent(encodeURIComponent(s)) == s` for every string |
| UriEncoding.EncodeUriComponentInjective | SearchPage.js:29 | distinct values have distinct encodings |
| PropertyTable.DecimalString | SearchPage.js:24 | the numeral of a non-negative integer: non-empty, all digits, no leading zero, and denoting that integer |
| PropertyTable.DecimalStringIsArrayIndex | SearchPage.js:24 | a numeral is an array-index key exactly when its value is below 2^32 - 1 |
| PropertyTable.Lookup | SearchPage.js:29 | a lookup misses exactly when the name is not among the keys |
| PropertyTable.Put | SearchPage.js:26 | storing a data property: the name then maps to the value, every other name keeps its value, and the key list grows only by a new name at the end |
| PropertyTable.PutExisting | SearchPage.js:26 | storing to an existing name replaces that one property in place |
| PropertyTable.PutAbsent | SearchPage.js:26 | storing to a new name appends the property |
| PropertyTable.PutDistinct | SearchPage.js:26 | storing keeps every name unique |
| PropertyTable.Assign | SearchPage.js:26 | `data[k] = v`: `__proto__` leaves the object unchanged; any other name then maps to `v`; all other names keep their values |
| PropertyTable.SortSorted | SearchPage.js:28 | the array-index keys are put in ascending numeric order |
| PropertyTable.OwnProperties | SearchPage.js:28 | enumeration lists each property exactly once (a permutation of the object) |
| PropertyTable.OwnPropertiesOrder | SearchPage.js:28 | enumeration lists array-index keys first, ascending, then every other key in creation order |
| PropertyTable.LookupOwnProperties | SearchPage.js:28-29 | with unique names, looking a name up in the enumeration gives the object's own value |
| PropertyTable.OwnPropertiesWithoutIndices | SearchPage.js:28 | an object with no array-index keys is listed in creation order |
| PropertyTable.AssignExisting | SearchPage.js:26-28 | assigning to an existing named key changes only its value, in place |
| PropertyTable.AssignProto | SearchPage.js:26-28 | assigning a string to `__proto__` changes nothing that is listed |
| PropertyTable.AssignNamed | SearchPage.js:26-28 | a new name that is not an array index is listed last |
| PropertyTable.AssignIndex | SearchPage.js:26-28 | a new array-index name is listed first ahead of the named keys |
| Query.Defaults | SearchPage.js:18-25 | six parameters, with names `country, pretty, encoding, listing_type, action, page` in this order |
| Query.DefaultsFacts | SearchPage.js:18-25 | the fixed names are distinct and none is an array index |
| Query.DefaultsLookup | SearchPage.js:18-25 | the fixed values are `uk`, `1`, `json`, `buy`, `search_listings` and the decimal page number; no other name is present |
| Query.ParametersOverrideFixed | SearchPage.js:18-28 | a fixed name keeps its position and only its value changes |
| Query.ParametersProto | SearchPage.js:18-28 | the key `__proto__` leaves the six defaults as they were |
| Query.ParametersIndexKey | SearchPage.js:18-28 | a new array-index key is listed before the six defaults |
| Query.ParametersNamedKey | SearchPage.js:18-28 | any other new key is listed after the six defaults |
| Query.Parameters | SearchPage.js:18-28 | the pairs in the order `Object.keys` lists them after the literal and `data[key] = value`; it has no contract of its own, and its shape, count, key order and values are the contracts of `ParametersShape`, `ParametersCount`, `ParametersKeyOrder` and `ParametersValues` |
| Query.ParametersShape | SearchPage.js:18-28 | the whole parameter table in each of the four cases |
| Query.ParametersKeyOrder | SearchPage.js:18-28 | the keys are listed in the fixed order, with the caller's key replacing in place, dropped, first, or last |
| Query.ParametersCount | SearchPage.js:18-28 | 6 pairs when the key is a fixed name or `__proto__`, 7 otherwise; each name appears once |
| Query.ParametersValues | SearchPage.js:18-29 | the caller's key maps to the caller's value; each fixed name not overridden keeps its default value, `page` giving the decimal page number; no other name appears |
| Query.RemovePrefix | SearchPage.js:32 | a prefix is removed exactly when the string starts with it, and the string is the prefix followed by the rest |
| Query.RenderProperty | SearchPage.js:29 | a pair starts with the name verbatim, followed by `=`; `ParseRenderedProperty` reads it back to the same name and value |
| Query.RenderAll | SearchPage.js:28-29 | the `.map`: one part per property |
| Query.RenderAllAt | SearchPage.js:28-29 | each part is the rendering of the property at the same position |
| Query.Join | SearchPage.js:30 | `.join('&')`; it has no contract of its own, and `SplitJoin` shows splitting at the separator inverts it |
| Query.QueryString | SearchPage.js:28-30 | the rendered pairs joined by `&`; it has no contract of its own, and its contents are the contracts of `QueryStringPairs` and `QueryStringRoundTrip` |
| Query.SplitJoin | SearchPage.js:30 | joining parts free of the separator and splitting at it gives the parts back |
| Query.ParseRenderedProperty | SearchPage.js:29 | a rendered pair with a plain name reads back to the same name and value |
| Query.QueryStringPairs | SearchPage.js:28-30 | the query string is the rendered pairs separated by single `&`, each pair holding its `=`, with no empty piece |
| Query.QueryStringRoundTrip | SearchPage.js:28-30 | reading the query string back gives exactly the parameter table, in order, values decoded |
| Query.UrlForQueryAndPage | SearchPage.js:32 | the URL begins with exactly `https://api.nestoria.co.uk/api?`, and the rest is the query string |
| Query.UrlRoundTrip | SearchPage.js:17-33 | reading the URL back gives the parameter table |
| Query.NamedKeyUrl | SearchPage.js:17-33 | for a new plain key, the URL reads back to the six defaults followed by the caller's pair |
| Query.PlaceNameUrl | SearchPage.js:82 | the URL built with `place_name` reads back to the six defaults followed by `place_name` and the value |
| SearchScreen.Merge | SearchPage.js:58-93 | each `setState(u)`: the fields `u` names take its values; it has no contract of its own, and each handler function states the fields it changes and keeps, with `MergeCombine` relating two merges |
| SearchScreen.MergeCombine | SearchPage.js:88-93 | two `setState` merges one after the other equal one merge of their combination, the later one winning |
| SearchScreen.WithText | SearchPage.js:56-60 | a text change sets the search string and leaves `isLoading` and `message` alone |
| SearchScreen.Loading | SearchPage.js:67 | starting a query sets `isLoading` and leaves the text and message alone |
| SearchScreen.SearchQuery | SearchPage.js:81-82 | the query uses key `place_name`, the current text, and page 1: it starts with the API address and reads back to the defaults plus `place_name=<text>` |
| SearchScreen.Substr | SearchPage.js:89 | `substr` returns exactly `length` characters from `start` when the string is long enough, the rest of the string when it is shorter, and nothing when `start` is past its end; each character is copied from `start` on |
| SearchScreen.IsSuccessCode | SearchPage.js:89 | the code passes exactly when it is non-empty and starts with `1`; an empty code fails |
| SearchScreen.NavigationFor | SearchPage.js:89-91 | a reply asks for one navigation exactly when its code passes, to `Results` and carrying exactly its listings |
| SearchScreen.AfterResponse | SearchPage.js:87-95 | after a reply `isLoading` is false and the text is kept; the message is `''` when the code passes and `Location not recognized; please try again.` otherwise |
| SearchScreen.AfterFailure | SearchPage.js:72-76 | a failure clears `isLoading`, sets the message to `Something bad happened ` followed by the error, and keeps the text |
| SearchScreen.Next | SearchPage.js:56-95 | the handler for each event; it has no contract of its own, and the handler functions it dispatches to carry the contracts |
| SearchScreen.Run | SearchPage.js:43-95 | the state after a sequence of events; it has no contract of its own, and `RunAppend`, `ReachableMessage`, `TextOnlyFromEdits` and `LoadingIffPending` state its properties |
| SearchScreen.RunAppend | SearchPage.js:43-95 | running two stretches of events is running the first and then the second |
| SearchScreen.ReachableMessage | SearchPage.js:48-93 | from the initial state the message is always `''`, the not-recognised text, or starts with the failure prefix |
| SearchScreen.TextOnlyFromEdits | SearchPage.js:56-95 | only a text change alters the search string |
| SearchScreen.LoadingIffPending | SearchPage.js:47-88 | the screen is loading exactly when a query has been started and no reply or failure has arrived after it (or it was loading and nothing has arrived at all) |
| SearchScreen.CompletionStopsLoading | SearchPage.js:72-88 | after any history, a reply or a failure leaves the screen not loading, with the same text |
| SearchScreen.RequestedGoToResults | SearchPage.js:89-91 | every navigation requested is the one to `Results` carrying the listings of some reply in the history whose code passes; there are no more navigations than events, and none without a reply |
| SearchScreen.RequestedPerEvent | SearchPage.js:89-91 | one event adds at most one navigation, and adds one exactly when it is a reply whose code passes |
| SearchScreen.PressedQueryFetched | SearchPage.js:69-83 | a press of the search button logs one fetch, of a URL that reads back to the defaults plus the text of the moment |
| SearchScreen.SearchPage.constructor | SearchPage.js:43-50 | the initial state is (`london`, false, `''`), with nothing handled, fetched or navigated |
| SearchScreen.SearchPage.SetState | SearchPage.js:58-93 | `setState` merges the named fields into the state and touches nothing else |
| SearchScreen.SearchPage.Navigate | SearchPage.js:91 | a navigation request is recorded and the state is unchanged |
| SearchScreen.SearchPage.OnSearchTextChanged | SearchPage.js:56-60 | the new state is `WithText` of the old; no fetch and no navigation; the invariant is kept |
| SearchScreen.SearchPage.ExecuteQuery | SearchPage.js:64-78 | `isLoading` becomes true with text and message kept, and exactly one fetch of the given URL is recorded |
| SearchScreen.SearchPage.OnSearchPressed | SearchPage.js:81-84 | the URL fetched is the `place_name` query for the old text on page 1, and the screen is loading |
| SearchScreen.SearchPage.HandleResponse | SearchPage.js:87-95 | two merges as in the code: the new state is `AfterResponse` of the old, and the navigation to `Results` with the listings is recorded exactly when the code passes |
| SearchScreen.SearchPage.OnRequestFailed | SearchPage.js:72-76 | the new state is `AfterFailure` of the old; no navigation; the invariant is kept |

## Left out

- `fetch`, the promise chain and `response.json()` (SearchPage.js:69-71) are network and parsing calls into the runtime. They are not performed. `ExecuteQuery` records the URL it would fetch, and `HandleResponse` and `OnRequestFailed` take the outcome as a parameter.
- SearchScreen.SearchPage.OnRequestFailed: the error is taken as the string `String(error)` would give; the conversion of an arbitrary thrown value to text is not modelled.
- A reply without an `application_response_code` makes `substr` throw, and the `.catch` branch handles it. The model covers this as an `OnRequestFailed` event; `HandleResponse` has no state for a missing code.
- An exception thrown by `navigate` would also reach `.catch`. It is not modelled, because the navigator is outside the model.
- React's `setState` is asynchronous and batches updates. Each call is modelled as an immediate merge, and `MergeCombine` shows a batched pair gives the same state. Overlapping in-flight requests are modelled only as interleaved events, with no timing.
- `render()`, JSX, styles, `navigationOptions`, the image and `console.log` (SearchPage.js:37-39, 66, 98-177) are UI and logging only.
- `App.js` is a static route table for the navigation library. It is not part of this model. The navigation internals are also left out: only the request to show `Results` with the listings is recorded.
- Listings are an opaque type parameter `L`.
- UriEncoding.EncodeUriComponent: strings are sequences of Unicode scalar values, so a lone surrogate, for which `encodeURIComponent` throws `URIError`, cannot be written down.
- PropertyTable.DecimalString: the page number is a non-negative integer. The exponent form JavaScript uses from 1e21 up, and negative or fractional numbers, are not modelled.
- Query.UrlRoundTrip: the read-back is stated for caller keys without `&` or `=`. Keys are emitted verbatim, so other keys make the URL ambiguous.
