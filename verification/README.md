# Unleash toggle client — Dafny model

A model of the feature-toggle client of `hathor-unleash-client`: a small
TypeScript client that polls an Unleash proxy for the toggles that apply to an
evaluation context and answers "is feature X enabled" from its last snapshot.

Two pieces make up the core:

- **The context serializer** (`urlWithContextAsQuery`). It turns the client's
  evaluation context into query parameters and appends them to a copy of the
  request URL. `ContextQuery.ContextParams` is the functional definition, and
  `ContextQuery.UrlWithContextAsQuery` is the source's nested loop. The
  serializer sees an ordered sequence of entries (`Types.Field`), in the
  order `Object.entries` lists them. A `None` value stands for
  `undefined`/`null`. The `properties` record is its own ordered sequence of
  entries, also in that order.
- **The toggle-sync client** (`UnleashClient`). A client value holds the
  configuration, the validator `etag` (`""` for none) and the snapshot
  `toggles` (absent until the first fresh response). `Create` is the
  constructor. `GetHeaders`/`BuildRequest` give the conditional GET of section
  3.2 of RFC 7232. `FetchToggles` is a pure transition from a client and an
  already received response to a status and the next client. `GetToggles`
  and `IsEnabled` read the snapshot. `Poll` strings fetches together, as a
  caller that awaits each fetch before the next one.

The client's stored context is an object built by spread, and JavaScript
lists an object's keys in two orders. The module `Objects` models both:

- `Objects.Spread` keeps the context in insertion order.
- `Objects.OwnKeys` gives the enumeration order of section 10.1.11.1 of
  ECMAScript (OrdinaryOwnPropertyKeys). Keys that are array indices
  (`"0"`, `"42"`; section 6.1.7 of ECMAScript) come first, in ascending
  numeric order. Every other key follows, in insertion order.

`BuildRequest` serializes the context in the enumeration order. So a caller
key `"0"` reaches the query before `appName`, although `appName` was
inserted first. A context the caller hands over is given in its own
enumeration order, which is the order in which spread copies it.

Modules: `Wrappers` (Option/Result), `Seqs` (first-match search, concat-map,
filter and a stable sort over sequences, with their lemmas), `Types`
(src/types.ts), `Objects` (the JavaScript object semantics above),
`ContextQuery` (src/utils/index.ts), `UnleashClient` (src/index.ts) and
`Scenarios` (the repository's test cases, and one example with an
array-index key, as lemmas).

Two behaviours of the code are worth stating, since a reader might expect otherwise:

- The serializer keeps whatever query the URL already had and appends the
  context after it. It does not clear the query first (`new URL(url.toString())`).
- A 304 is `Unchanged` whatever `ok` says. A response that is `ok` but has an
  empty `ETag` header stores `""`, so the next request is unconditional.

## Model

| member | source | states |
|---|---|---|
| ContextQuery.UrlWithContextAsQuery | src/utils/index.ts:26-49 | The loop over context entries, with its inner loop over properties, returns a new URL. The base is unchanged, and the query is the original query followed by exactly the context's parameters in order. |
| ContextQuery.WithContextAsQueryExtends | src/utils/index.ts:29-48 | The result keeps the input URL's base and existing query as a prefix. Its length grows by the number of present scalar entries plus present properties. |
| ContextQuery.ContextParamsCount | src/utils/index.ts:31-46 | The number of appended parameters equals the number of non-null scalar entries (a set of positions) plus the number of non-null properties over all `properties` records. |
| ContextQuery.PropertyParamsCount | src/utils/index.ts:35-42 | A `properties` record contributes exactly one parameter per property whose value is not null/undefined. |
| ContextQuery.EntryParamsInPlace | src/utils/index.ts:31-46 | Enumeration order is preserved: an entry's parameters come after those of every earlier entry and before those of every later one. |
| ContextQuery.SilentEntriesContributeNothing | src/utils/index.ts:27-42 | Inserting a null/undefined entry, a null `properties` entry or an empty `properties` record anywhere leaves the query unchanged. |
| ContextQuery.ContextParamsMembership | src/utils/index.ts:31-46 | A parameter `(k, v)` is emitted iff the context has a scalar entry `k: v`, or its `properties` record has an entry `pk: v` with `k = properties[pk]`. Both directions are proved. |
| ContextQuery.NoBarePropertiesKey | src/utils/index.ts:34-42 | No emitted parameter is named bare `properties`. |
| UnleashClient.Create | src/index.ts:12-34 | `url`, `clientKey` and `appName` are checked in that order, and the first falsy one gives its own error. Construction succeeds iff all three are truthy and the URL parses. A new client has `etag = ""`, no snapshot, the given key and URL, and the merged context. |
| UnleashClient.MergeContext | src/index.ts:32 | The stored context is never empty, and in insertion order its first key is `appName`. |
| Objects.Spread | src/index.ts:32 | Object spread keeps every target key at its insertion position. Every key of the caller's context ends up in the result holding the caller's last value for it, and every entry of the result comes from the target or the caller. |
| UnleashClient.CallerAppNameWins | src/index.ts:32 | A caller context that carries `appName` overrides the configured one: the stored `appName` entry is the caller's last one. |
| Objects.SpreadDisjoint | src/index.ts:32 | Spreading entries whose keys are new and distinct inserts them, in order, after the target's entries. |
| Objects.SpreadKeysUnique | src/index.ts:32 | The stored context never holds two entries with the same key, whatever the caller passes. |
| UnleashClient.MergeTypedContext | src/index.ts:32 | If the caller's context has distinct keys and no `appName`, the stored context in insertion order is `appName` followed by the caller's entries in order. |
| Objects.OwnKeysOrder | src/utils/index.ts:31 | `Object.entries` lists exactly the object's entries (same multiset). Every array-index key comes before every other key, and the array-index keys are in ascending numeric order. The other keys keep their insertion order. |
| Objects.OwnKeysWithoutIndices | src/utils/index.ts:31 | An object with no array-index key is enumerated in insertion order. |
| UnleashClient.MergedEnumeration | src/index.ts:32-51 | The serializer walks the stored context as the caller's array-index entries in ascending numeric order, then `appName`, then the caller's other entries in their order. |
| UnleashClient.MergedEnumerationNamed | src/index.ts:32-51 | When no caller key is an array index, the serializer walks `appName` first, then the caller's entries in their order. |
| UnleashClient.EnvironmentIgnored | src/index.ts:12-17 | The `environment` option has no effect on construction, so it never reaches the context. |
| UnleashClient.NewClientHasNothing | src/index.ts:74-85 | On a freshly constructed client, `getToggles` and `isEnabled` fail, and the first request carries no `If-None-Match`. |
| UnleashClient.BuildRequest | src/index.ts:51-56 | The request goes to the configured URL base. Its query keeps the URL's own parameters first. The parameters after them are exactly those the stored context carries, whatever order the enumeration puts them in. |
| ContextQuery.ContextParamsPermutation | src/utils/index.ts:31-46 | Reordering the context's entries keeps the set of emitted parameters. |
| UnleashClient.GetHeaders | src/index.ts:36-48 | `Authorization` is the client key, and `Accept` and `Content-Type` are `application/json`. `If-None-Match` is present iff the stored etag is non-empty, and then equals it. |
| UnleashClient.FetchToggles | src/index.ts:50-72 | `Updated` iff `ok` and not 304. `Unchanged` iff 304. Failure iff not `ok` and not 304. Anything but `Updated` leaves the client exactly as it was. `Updated` installs the body's toggles and the ETag (or `""`) together. The configuration never changes. |
| UnleashClient.ValidatorRoundTrip | src/index.ts:43-65 | After a fresh response with ETag `E`, the next request carries `If-None-Match: E`. With no ETag or an empty one, the next request carries none. |
| UnleashClient.NotFreshRepeatsRequest | src/index.ts:51-71 | After a 304 or a failure, the next request is identical to the one just sent. |
| UnleashClient.ReadsAfterFetch | src/index.ts:62-80 | After a fresh fetch, `getToggles` returns that body. After a 304 or a failure, `getToggles` and `isEnabled` return what they returned before. |
| UnleashClient.PollKeepsConfiguration | src/index.ts:50-72 | No run of fetches changes the URL, the client key or the context. |
| UnleashClient.PollWithoutFresh | src/index.ts:58-71 | A run of responses none of which is fresh (only 304s and failures) leaves the client exactly as it was. |
| UnleashClient.PollServesLastFresh | src/index.ts:58-71 | After a run whose last fresh response is `resps[i]`, the etag and snapshot are those of `resps[i]`, taken together, and nothing else changed. The last good snapshot stays authoritative. |
| UnleashClient.PollRequest | src/index.ts:36-68 | In a polling run, every request goes to the same URL with the same credential. It carries `If-None-Match` equal to the non-empty ETag of the last fresh response. |
| UnleashClient.GetToggles | src/index.ts:74-80 | Fails with "not downloaded" iff there is no snapshot (an empty snapshot is still a snapshot). Otherwise it returns the stored snapshot. |
| UnleashClient.IsEnabled | src/index.ts:82-94 | Fails with "not loaded" iff there is no snapshot. Otherwise it returns the `enabled` of the first toggle named exactly `name`, or `false` when none matches. |
| UnleashClient.IsEnabledScan | src/index.ts:87-93 | The source's early-return loop computes exactly `IsEnabled`. |
| Scenarios.SerializerExample | __tests__/utils.test.ts:9-22 | `{appName:'appName', properties:{prop1, prop2}}` gives `appName=appName, properties[prop1]=propValue1, properties[prop2]=propValue2`. |
| Scenarios.CreateExample | __tests__/UnleashClient.test.ts:13-20 | The test configuration builds a client with context `appName: tester, userId: user-id`, no validator and no snapshot. |
| Scenarios.IndexKeyExample | src/index.ts:32-51 | For the caller context `{userId: 'u', 0: 'x'}`, the stored context starts with `appName` in insertion order, yet the serializer walks `0`, `appName`, `userId`, in that order. |
| Scenarios.FetchExample | __tests__/UnleashClient.test.ts:31-97 | A 200 with ETag `ETAG-1` stores the body and gives `Updated`. The next request goes to `/?appName=tester&userId=user-id` with `If-None-Match: ETAG-1`. A 304 then gives `Unchanged` and keeps the snapshot. |
| Scenarios.FailedFetchExample | src/index.ts:58-60 | After that 200, a 500 fails and keeps the snapshot. |

## Left out

- The network call (`fetch`), `cache: 'no-cache'` and `async`/`await` are I/O. The response is a parameter of `FetchToggles`. Overlapping fetches are the caller's concern, and `Poll` models only a caller that waits for each fetch.
- `ok` is taken from the response as given. The model does not tie it to the 2xx range, because the fetch library computes it.
- JSON parsing and the unchecked cast of `data.toggles` are not modelled. The body arrives as an already parsed toggle sequence, so a body without `toggles` (where later reads would throw) is outside the model.
- UnleashClient.FetchToggles: installs the ETag and the snapshot together only when the JSON body is an object. The source stores the new ETag (src/index.ts:65) before it reads `data.toggles` (src/index.ts:66). A body of `null` therefore stores the new ETag, then throws a `TypeError`, and keeps the old snapshot. The model has no such body, because the response is an already parsed toggle sequence.
- UnleashClient.PollKeepsConfiguration: holds only if the caller never mutates objects the client shares with it. The client stores the caller's URL object itself (src/index.ts:30). The spread at src/index.ts:32 is shallow, so the stored `properties` record is the caller's own object. `getToggles` returns the internal snapshot array (src/index.ts:79). The model has values, not shared references, so it assumes the caller leaves these three objects alone.
- Symbol keys and non-enumerable properties of the caller's context are not modelled. `Object.entries` never lists them.
- The `EventEmitter` base class is left out: the client never emits an event.
- WHATWG URL parsing is not modelled. `new URL(string)` is the parameter `parse`, and a `None` result stands for its `TypeError`.
- Percent-encoding of the query and rendering the URL as a string are not modelled. The query is an ordered list of unencoded pairs.
- Context values of the wrong type are outside the model: a string under the `properties` key, or non-string scalars. The declared types exclude them.
- The example in the serializer's doc comment is not used. It disagrees with the code (`clientKey=` with an empty value, and no `/` before `?`).
