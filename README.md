# Snowplow Inspector timeline and schema validator, in Dafny

This project models the core of the Snowplow Inspector browser extension. The extension
watches the HTTP exchanges a page sends to a Snowplow collector. It turns each exchange into
one summary per tracked event, names the event, and grades its self-describing JSON against
Iglu schemas that it fetches from the configured repositories and keeps in a cache.

The model has these modules:

- `Wrappers`: `Option`.
- `Text`: `split` and `join` (proved inverses of each other), decimal rendering of indices
  (proved injective), ASCII lower-casing, substring search, and insertion-ordered sets
  (`AppendNew`, the order a JavaScript `Set` keeps).
- `Json`: the parsed JSON values the source handles, with the JavaScript behaviour it relies
  on. Property access throws on `null`. The module also covers truthiness, `String(...)`,
  `for ... of` and `Object.entries`.
- `Iglu`: `SCHEMA_PATTERN` as a parser. It is proved to accept exactly the renderings of
  well-formed Iglu URIs and to return their four parts. It also builds the URL a repository is
  asked for.
- `Validator`: the schema registry of `src/validator.ts`. The class `SchemaRegistry` holds the
  module's mutable state:
  - `cache` and `status`;
  - the repository set, as an insertion-ordered sequence;
  - the extension's local storage area.

  Each callback of the module is a method. Pure functions on `RegistryState` specify the
  methods, and lemmas state what the source promises about lookup, fetching, responses,
  clearing and restoring.
- `Beacons`: `extractRequests`:
  - the request metadata read from cookies and headers;
  - POST bodies as a JSON `data` array whose elements are enriched with that metadata;
  - GET query strings, where the language is trimmed to its first tag;
  - the group's id, collector host and HTTP method.
- `Naming`: `nameEvent`, including the cases where it throws.
- `BeaconValidity`: `validateEvent`. Its two accumulators are threaded through a sequence of
  validation actions. They are proved to summarise those actions as the verdict
  `Valid`/`Unrecognised`/`Invalid` promises.
- `Timeline`: `filterRequest`, `summariseBeacons` (the summaries it keeps, in order, with
  distinct ids, and the abort when naming throws), and `getPageUrl` (the most frequent
  referrer; among those tied, the one whose first occurrence is latest).

Code the source calls but does not show becomes a parameter:

- `Beacons.Host` holds `JSON.parse`, `tryb64`, `b64d`, `hash`, `Date.prototype.toJSON`, the
  URL parser's `hostname` and `searchParams`, and the protocol's event labels.
- `Validator.Jsv` stands for `jsonschema`'s `validate`.

Network requests and storage callbacks are methods, called when the response or the stored
data arrives. `Validate` returns the URLs it would request.

Where the code differs from the extension's documented design, the model follows the code:

- A repository response that matches is persisted every time one arrives, so with several
  repositories the last one wins. Responses that arrive after `clearCache` are persisted too.
  The design says that the first match wins and that later responses are ignored.
- `validateEvent` decodes a payload only as `JSON.parse(tryb64(payload))`. Unlike `nameEvent`,
  it has no fallback to raw JSON.
- `nameEvent` is not total. It throws in three cases, and the model returns `None` for each:
  - both decodes of the payload fail;
  - the payload's `data` is `null`;
  - `data.schema` is truthy but not a string.

  When it throws, `summariseBeacons` throws too, and the model returns `None`. A schema that
  starts with `iglu:` names the event after its second `/`-separated part, even when it is
  not a valid Iglu URI (`iglu:acme/click` gives `click`, and `iglu:acme` gives `undefined`).
  Any other non-empty string schema names the event verbatim; a missing or empty one gives
  `Unstructured`.
- The design says a context needs an array-valued `data`. In the code, the context envelope
  is validated first. After that, a `data` that is not an array throws, because only arrays
  have `forEach`. The accumulators keep what was done before the throw.
- Schemas seeded from the local schema list get no status entry of their own, so their
  location is `undefined`, not `null`. A check against a seeded schema that has no status
  entry is never counted as unrecognised. A schema that went pending before the list loaded
  keeps its `null` status, so a check against it is still unresolved.
- A local schema is keyed as `'iglu:' + [vendor, name, format, version].join('/')`, where
  `join` writes a missing or `null` field as the empty string. Such a key never matches
  `SCHEMA_PATTERN`, so a local schema with an incomplete `self` is never used.

## Model

| member | source | states |
|---|---|---|
| Iglu.ParseUri | src/validator.ts:11 | an accepted string is the rendering of a well-formed URI: vendor in `[a-zA-Z0-9_.-]+`, name and format in `[a-zA-Z0-9_-]+`, version `M-m-p` without leading zeros |
| Iglu.ParseRender | src/validator.ts:11 | every well-formed URI is accepted, and its own four parts are the groups |
| Iglu.ParseUriExact | src/validator.ts:11 | a string is accepted if and only if it is the rendering of some well-formed URI |
| Iglu.RenderSecondSegment | src/components/Debugger/Timeline.ts:79-80 | splitting a rendered URI at `/` gives its four parts; the second is the schema name |
| Iglu.FetchUrlShape | src/validator.ts:102 | the URL is the repository, then `/schemas/`, then the URI without its `iglu:` scheme |
| Text.SplitJoin | src/components/Debugger/Timeline.ts:80 | splitting the join of separator-free parts gives those parts back |
| Text.JoinSplit | src/validator.ts:102 | joining the split of a string gives the string back |
| Text.JoinAvoids | src/validator.ts:102 | a character other than the separator that no part contains is absent from the join |
| Text.ParseNatToString | src/components/Debugger/Timeline.ts:175 | the decimal rendering of an index reads back as that index |
| Text.NatToStringInjective | src/components/Debugger/Timeline.ts:175 | distinct indices render as distinct strings |
| Text.AppendNew | src/validator.ts:18-19 | adding to an insertion-ordered set keeps the old elements as a prefix, holds exactly the old and the added elements, and has no duplicates |
| Text.AppendNewKeepsFirstOccurrenceOrder | src/validator.ts:18-19 | the added elements come in the order of their first occurrence: an element after another in the result first occurs after it in the input |
| Json.Member | src/components/Debugger/Timeline.ts:116 | property access throws exactly on `null`, and yields a value exactly for an object's own key |
| Json.DataItems | src/components/Debugger/Timeline.ts:251 | `for ... of v.data` visits an array's elements; it throws when `v` is not an object, and when `data` is missing or is `null`, an object, a number or a boolean |
| Json.Entries | src/components/Debugger/Timeline.ts:252 | `Object.entries` throws exactly on `null`; an object yields its keys, and its values as `String(...)` |
| Validator.ValidateSpec | src/validator.ts:84-118 | a validation never changes the cache or the repositories; at most it adds a pending `null` status under the schema asked for; a well-formed URI that is not cached gets the not-found result |
| Validator.MalformedUriRejected | src/validator.ts:85-88 | a string that is not an Iglu URI gets the invalid-URI error with a `null` location, and nothing changes |
| Validator.CachedUriAnswered | src/validator.ts:90-94 | a cached schema answers with the validator's result on the cached document and the stored location, and nothing changes |
| Validator.FirstMissRequestsEveryRepository | src/validator.ts:96-115 | the first miss marks the schema pending and requests it once from every repository, in order, at `repo/schemas/vendor/name/format/version` |
| Validator.PendingIsIdempotent | src/validator.ts:98-117 | a second miss while the schema is pending requests nothing and changes nothing |
| Validator.PersistSpec | src/validator.ts:39-43 | persisting stores the document and its URL under the key and leaves every other key as it was |
| Validator.AcceptedResponseResolves | src/validator.ts:104-108 | after a matching response, validating that schema answers from the cache with the response's URL as location |
| Validator.MismatchedResponseIgnored | src/validator.ts:105-111 | a response without `self`, or whose `self` names another schema, changes nothing |
| Validator.FetchResponseSpec | src/validator.ts:104-112 | a response whose `self` names the schema is persisted under it with its URL as location; any other response changes nothing; other keys and the repositories are never touched |
| Validator.AcceptedResponseKeyedLikeLocalSchema | src/validator.ts:106-108 | a matching response would be cached under the same key as the same document in the local schema list |
| Validator.ClearedValidateIsFirstMiss | src/validator.ts:45-57 | after clearing, any well-formed URI is a first miss again |
| Validator.PendingNotResumedAfterRestart | src/validator.ts:65-69 | a schema stored as pending is not restored as pending, so it is requested again |
| Validator.SeedSpec | src/validator.ts:24-36 | every local schema that has a key is cached under it, no other key is added, and no existing key is lost |
| Validator.SeedKeepsLastSchema | src/validator.ts:25-34 | under a local schema's key the cache holds the last schema in the list with that key |
| Validator.SeedKeepsOtherEntries | src/validator.ts:25-34 | an existing entry whose key no local schema has keeps its document |
| Validator.LocalSchemaKey | src/validator.ts:26-32 | a local schema has a key exactly when it is an object with a non-`null` `self` (otherwise reading `self.vendor` throws and the schema is skipped); every key starts with `iglu:` |
| Validator.IncompleteSelfNeverValidated | src/validator.ts:29 | a key built from a `self` that lacks a field, or holds `null` or `""` there, is rejected as an Iglu URI, so validation never reaches that schema |
| Validator.RestoredStatus | src/validator.ts:65-69 | restoring keeps exactly the stored statuses that are not `null` |
| Validator.SchemaRegistry.constructor | src/validator.ts:5-15 | the registry starts empty, with IgluCentral as its only repository |
| Validator.SchemaRegistry.SyncRepos | src/validator.ts:13-15 | the repository set becomes IgluCentral alone; the cache and the statuses are untouched |
| Validator.SchemaRegistry.OnRepoListLoaded | src/validator.ts:17-22 | the configured repositories are added after the existing ones, each once |
| Validator.SchemaRegistry.OnSchemaListLoaded | src/validator.ts:24-36 | the cache becomes the seeded cache; statuses and repositories are untouched |
| Validator.SchemaRegistry.PersistCache | src/validator.ts:39-43 | the state is the persisted state, and storage holds the whole cache and all the statuses |
| Validator.SchemaRegistry.ClearCache | src/validator.ts:45-57 | the cache and the statuses become empty and are stored empty; the repositories stay |
| Validator.SchemaRegistry.OnStorageLoaded | src/validator.ts:59-70 | the stored cache is merged over the cache, and the stored non-`null` statuses over the statuses |
| Validator.SchemaRegistry.LoadCache | src/validator.ts:60-64 | every stored cache entry is copied, and nothing else changes |
| Validator.SchemaRegistry.LoadStatus | src/validator.ts:65-69 | every stored status that is not `null` is copied, and nothing else changes |
| Validator.SchemaRegistry.OnStorageChanged | src/validator.ts:72-78 | a change to the repository list or the schema list clears the registry and resets the repositories; any other change does nothing |
| Validator.SchemaRegistry.Validate | src/validator.ts:84-118 | result, new state and requested URLs are those of the validation specification; storage is untouched |
| Validator.SchemaRegistry.OnFetchResponse | src/validator.ts:104-113 | the new state is the response specification: a match is persisted and stored, and a mismatch changes nothing |
| Beacons.FirstMatch | src/components/Debugger/Timeline.ts:232-241 | `find` yields the first header that satisfies the test, or nothing when no header does |
| Beacons.LangPrefixLength | src/components/Debugger/Timeline.ts:286 | the length of the longest prefix that contains no `;` or `,` |
| Beacons.PrimaryLanguageIsMaximalPrefix | src/components/Debugger/Timeline.ts:285-288 | the trimmed language is a prefix of the header; when it is not the whole header, it is non-empty, contains no `;` or `,`, and stops just before one of them |
| Beacons.SetIfAbsent | src/components/Debugger/Timeline.ts:253-264 | an existing field is never overwritten; the field is set exactly when it was there or the metadata has a value |
| Beacons.Enriched | src/components/Debugger/Timeline.ts:253-291 | the beacon's own fields are kept; `nuid`, `ua`, `lang` and `url` are added exactly when absent and the request has the cookie or header, with its value (the GET language trimmed); nothing else is added |
| Beacons.FromPairsKeys | src/components/Debugger/Timeline.ts:275-278 | the fields are exactly the keys of the query string |
| Beacons.FromPairsLastWins | src/components/Debugger/Timeline.ts:276-277 | a repeated query key keeps its last value |
| Beacons.ExtractRequests | src/components/Debugger/Timeline.ts:220-297 | the group and the beacons are those of the extraction specification |
| Beacons.PostItems | src/components/Debugger/Timeline.ts:243-251 | a missing or empty body yields nothing; items come only from a body that parses to an object; an array-valued `data` yields its elements, and a missing or non-iterable `data` yields nothing |
| Beacons.ExtractedBeacons | src/components/Debugger/Timeline.ts:243-294 | a request that is not a POST yields one beacon, a POST without items yields none, and every beacon carries the `nuid` cookie and the user-agent, language and referer headers the request has |
| Beacons.NonIterableDataYieldsNothing | src/components/Debugger/Timeline.ts:249-251 | a POST body that parses to an object whose `data` is missing, `null`, an object, a number or a boolean yields no beacons |
| Beacons.CollectPost | src/components/Debugger/Timeline.ts:249-267 | the beacons are the enriched elements up to the first one that makes `Object.entries` throw |
| Beacons.CollectQuery | src/components/Debugger/Timeline.ts:275-278 | the beacon is the query string's pairs, the later ones winning |
| Beacons.GetYieldsOneBeacon | src/components/Debugger/Timeline.ts:274-294 | a request that is not a POST yields exactly one beacon; it holds every query key, with the key's last value |
| Beacons.PostYieldsProcessedElements | src/components/Debugger/Timeline.ts:243-273 | a POST without a body, or with a body that does not parse, yields no beacon; otherwise each beacon is its element enriched, and the language is not trimmed |
| Naming.NameOfCodes | src/components/Debugger/Timeline.ts:54-93 | `se` is named by its label and category, the four labelled codes by their label, any other code verbatim, and a missing code `Unknown Event` |
| Naming.NameEvent | src/components/Debugger/Timeline.ts:54-94 | naming fails only for a `ue` event, and a named `ue` event is always `SD Event: ...` |
| Naming.NameFailsOnlyForUe | src/components/Debugger/Timeline.ts:54-93 | naming can throw only for a `ue` event |
| Naming.NameOfIgluEvent | src/components/Debugger/Timeline.ts:72-85 | a decodable `ue` payload whose inner schema is an Iglu URI is named `SD Event: <name>` |
| Naming.NameOfIgluPrefixedEvent | src/components/Debugger/Timeline.ts:78-81 | an inner schema that starts with `iglu:` names the event after its second `/`-separated part, valid URI or not, and `undefined` when it has no `/` |
| Naming.NameOfOtherUeEvent | src/components/Debugger/Timeline.ts:62-85 | a payload that is not self-describing is `SD Event: Unstructured` |
| BeaconValidity.Step | src/components/Debugger/Timeline.ts:112-118 | one validation appends one outcome, and the accumulators only move one way: valid iff still valid and passed, unrecognised iff already so or unresolved |
| BeaconValidity.UeActions | src/components/Debugger/Timeline.ts:101-126 | an undecodable payload does nothing; at most two validations; an unrecognisable envelope is one forced failure and nothing else |
| BeaconValidity.ContextActions | src/components/Debugger/Timeline.ts:128-155 | an undecodable payload does nothing; an unrecognisable envelope is one forced failure and nothing else |
| BeaconValidity.EventActions | src/components/Debugger/Timeline.ts:96-155 | the event's actions come first and the contexts' after them; an event that is not `ue` and has no context does nothing |
| BeaconValidity.AtMostTwoForcedFailures | src/components/Debugger/Timeline.ts:119-151 | an event is forced to fail at most twice, once per payload |
| BeaconValidity.AccumulatorsSummarise | src/components/Debugger/Timeline.ts:96-157 | after any run, `valid` holds iff every outcome passed, and `unrec` holds iff some outcome was forced or had a `null` location |
| BeaconValidity.AccumulatorsOnlyMoveOneWay | src/components/Debugger/Timeline.ts:113-146 | along a run, `valid` never becomes true again and `unrec` never becomes false again |
| BeaconValidity.VerdictCharacterised | src/components/Debugger/Timeline.ts:157 | the verdict is `Valid` iff all checks passed, `Unrecognised` iff some failed and some was unresolved, and `Invalid` otherwise |
| BeaconValidity.MalformedEnvelopeIsUnrecognised | src/components/Debugger/Timeline.ts:119-122 | a decodable payload that is not self-describing makes the event `Unrecognised` |
| BeaconValidity.SeededHitIsResolved | src/validator.ts:90-94 | a check against a cached schema that has no status entry, as a seeded one has, is never unresolved |
| BeaconValidity.NothingToCheckIsValid | src/components/Debugger/Timeline.ts:96-101 | an event that is not `ue` and has no context is `Valid` |
| BeaconValidity.ValidateStep | src/components/Debugger/Timeline.ts:112-114 | one validation updates the registry and both accumulators as one step of the run |
| BeaconValidity.ValidateUe | src/components/Debugger/Timeline.ts:101-126 | the event branch performs the event's actions in order |
| BeaconValidity.ValidateElements | src/components/Debugger/Timeline.ts:143-147 | each context element is validated in order, up to the first one that throws |
| BeaconValidity.ValidateContexts | src/components/Debugger/Timeline.ts:128-155 | the context branch performs the context actions in order |
| BeaconValidity.ValidateEvent | src/components/Debugger/Timeline.ts:96-158 | the verdict, the new registry state and the requested URLs are those of the validation run; storage is untouched |
| Timeline.BeaconIdInjective | src/components/Debugger/Timeline.ts:175 | two beacons of one exchange never share an id |
| Timeline.FilterFindsPayload | src/components/Debugger/Timeline.ts:41-50 | a filter that finds a payload value, decoded or raw, keeps the summary |
| Timeline.FilterDropsUnmatched | src/components/Debugger/Timeline.ts:33-52 | a filter that finds no field drops the summary; an empty application id or page is not searched |
| Timeline.FilterSearchesExactlyTexts | src/components/Debugger/Timeline.ts:33-52 | a filter keeps a summary if and only if it matches one of the searched texts: the non-empty application id and page, the collector, name and method, and each payload value raw and base64-decoded |
| Timeline.FilterIgnoresValidity | src/components/Debugger/Timeline.ts:33-52 | the filter's verdict does not depend on the summary's validity |
| Timeline.SummariseStep | src/components/Debugger/Timeline.ts:170-190 | a beacon either aborts the whole call (naming throws), or is kept as its own summary at its index, or is dropped by the filter |
| Timeline.AbortIsFinal | src/components/Debugger/Timeline.ts:174 | once naming has thrown, no later beacon changes the outcome |
| Timeline.NameFailureAborts | src/components/Debugger/Timeline.ts:174 | a beacon whose name throws makes the whole call throw |
| Timeline.AllNamedSucceeds | src/components/Debugger/Timeline.ts:170-190 | when every beacon can be named, the call returns summaries |
| Timeline.FailsIffSomeNameFails | src/components/Debugger/Timeline.ts:170-192 | the call throws if and only if some beacon cannot be named |
| Timeline.KeptAreFilteredBeacons | src/components/Debugger/Timeline.ts:170-192 | each kept summary is the summary of the beacon at its position: same id, fields, collector, method, application id, page and name, accepted by the filter; the positions strictly increase |
| Timeline.KeptExactlySelected | src/components/Debugger/Timeline.ts:187-189 | the positions of the kept summaries are exactly the selected beacons' indices, in order |
| Timeline.SelectedIndicesMembers | src/components/Debugger/Timeline.ts:187-189 | a beacon is selected, and so kept, if and only if it can be named and the filter accepts its summary |
| Timeline.KeptIdsDistinct | src/components/Debugger/Timeline.ts:175 | the kept summaries have pairwise distinct ids |
| Timeline.NoFilterKeepsEveryBeacon | src/components/Debugger/Timeline.ts:35 | without a filter every beacon is kept, in order |
| Timeline.SummariseBeacons | src/components/Debugger/Timeline.ts:160-193 | the summaries, new registry state and requested URLs are those of the summarising specification over the extracted beacons |
| Timeline.SummariseRequests | src/components/Debugger/Timeline.ts:168-192 | the loop produces the summarising specification over the beacons |
| Timeline.SummariseNext | src/components/Debugger/Timeline.ts:171-189 | one iteration performs one step of the specification |
| Timeline.CountReferrers | src/components/Debugger/Timeline.ts:196-203 | the counts are each referrer's number of occurrences, and the key order is `FirstSeen` of the referrers |
| Timeline.FirstSeenIsFirstOccurrenceOrder | src/components/Debugger/Timeline.ts:196-203 | the key order lists each referrer once, and a key listed before another first occurs before it |
| Timeline.LastMostFrequent | src/components/Debugger/Timeline.ts:205-211 | the result has the highest count, and no later key has as high a count |
| Timeline.GetPageUrl | src/components/Debugger/Timeline.ts:195-218 | there is no URL exactly when no request has a referrer header; otherwise it is the most frequent referrer, the last in first-seen order among those tied |

## Left out

- Rendering: the `view` function, `m.redraw`, `colourOf` and its colour table, and titles and
  icons. They are display only.
- `trackerAnalytics` and `repoAnalytics`: outgoing analytics calls that do not affect any
  result.
- The `time` field of a summary. It reads the clock (`new Date()`) and parses timestamps.
- Timeline.GetPageUrl: returns the winning referrer string, not `new URL(url)`. The model does
  not capture the `TypeError` that URL parsing throws for an invalid referrer.
- Timeline.CountReferrers: keys keep first-occurrence order. JavaScript lists integer-like
  object keys first, in numeric order, and the model does not capture that.
- `new URL(req.url).hostname` throwing on an invalid request URL: the host parser is a total
  parameter.
- `jsonschema` is a parameter (`Jsv`); its algorithm, and any exception it throws, are not
  part of this model.
- Asynchrony: storage reads, `m.request` promises and their interleavings are explicit method
  calls. Races between them are not modelled. A rejected request has no handler
  (`.catch(null)` installs none), changes no state, and has no method in the model.
- Map insertion order of beacon fields and summary payloads: fields are `map`s. Order is only
  visible in the display.
- POST element values are coerced with `String(...)`. The source keeps the raw JSON values in
  a map typed as holding strings and reads them raw when it names, validates and filters an
  event. So for a POST element whose value is not a string, the model differs as follows:
  - a falsy `0`, `false` or `null` becomes the truthy string `"0"`, `"false"` or `"null"`.
    So `{"e": 0}` is named `0` in the model but `Unknown Event` in the source. The same
    holds for the `||` fallbacks of `ue_pr`/`ue_px` and `co`/`cx`, and for the `&&` tests
    on `aid` and `url` in the filter;
  - the strict `switch` in `nameEvent` and `=== "ue"` in `validateEvent` compare the coerced
    string. So `{"e": ["ue"]}` counts as a `ue` event in the model, but not in the source;
  - the filter's `b64d` gets the coerced string, where the source passes it the raw value.
    `RegExp.test` coerces its argument itself, so it sees the same string in both.
- JSON numbers are integers. Parsing, floating point and duplicate keys are the host parser's
  concern.
- `__proto__` and other inherited object properties: objects hold only own keys.
- The search filter is a pure predicate. The statefulness of a `RegExp` with the `g` flag is
  not modelled.
- Lower-casing is ASCII only.
- Json.Entries: a JSON string is keyed by code point. `Object.entries` keys it by UTF-16 code
  unit, so a character outside the Basic Multilingual Plane is two entries in the source and
  one in the model.
- `tryb64` and `b64d` are total host functions. `tryb64` cannot throw in the model, and `b64d`
  failures are `None`.
- `src/ts/Registries/DataStructures.ts` declares types that neither core file uses, and it is
  not part of this model.
