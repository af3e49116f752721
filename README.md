# EjemploREST `get()` in Dafny

A model of the one REST resource of the `ejemplo_rest` Drupal module: `GET /rest/ejemplo`.
The handler reads the `node_ids` and `lang` query parameters and normalises them.
It queries published `article` nodes in the requested language, optionally restricted to the requested ids.
It answers 404 when a requested id was not found.
Otherwise it answers 200 with one `{titulo, contenido}` entry per found node, an empty `message` and a `time` stamp.

The model follows the handler's own steps:

- `php.dfy` (module `Php`): the PHP built-ins the handler relies on. These are `empty()` on strings, `intval()` on strings, `(string)` of an integer, `trim()` and `join()`.
- `normalizer.dfy` (module `Normalizer`): `node_ids` and `lang` to a `Filter`, or to a 400 message.
- `query.dfy` (module `Query`): the store as the sequence of nodes in storage order. `Matches` holds the query's conditions and `Select` is the query.
- `reconciler.dfy` (module `Reconciler`): `array_diff` of requested and found ids, and the 404 message.
- `assembler.dfy` (module `Assembler`): the entries, the JSON payload, and the list of cacheable dependencies the response receives.
- `endpoint.dfy` (module `Endpoint`): the outcome type and `Handle`, the handler as a function. It also holds `Get`, the handler as a method with its loops and early returns, proved equal to `Handle`. The end-to-end lemmas are here too.

The content store, the sanitiser (`Xss::filter`), the renderer and the clock are parameters.
The store is a `seq<Node>`, the sanitiser and the renderer are `string -> string`, and the clock is `now: int`.

Some of the code's behaviour is easy to misread; the model follows the code:

- Missing ids are reported in request order, with repetitions. This is how `array_diff` and `join` behave.
- An id is accepted when `intval` of the sanitised value is non-zero. So `"12abc"` becomes 12 and negative ids pass. Only a value that converts to 0 is refused.
- `empty()` also holds for the string `"0"`. So `node_ids=0` gets the "must provide" 400, and `lang=0` falls back to `"en"`.
- `time` is `DrupalDateTime::format('U')`, which is a string of decimal digits.

In one case the model departs from the code, and records the code as written beside it:

- When `node_ids=all` finds no article, `Handle` and `Get` answer `data = []`. The code as written leaves `$data` undefined, so its payload carries `null`. That behaviour is `Assembler.DataAsWritten`, and "## Findings" records it.

## Model

| member | source | states |
|---|---|---|
| `Php.IntValOfIntToString` | modules/custom/ejemplo_rest/src/Plugin/rest/resource/EjemploREST.php:95 | reading the decimal form of any 64-bit integer back with `intval` gives that integer |
| `Php.IntValOfNonNumeric` | modules/custom/ejemplo_rest/src/Plugin/rest/resource/EjemploREST.php:59-60 | a string starting with no white space, sign or digit has `intval` 0 |
| `Php.LeadingDigitsIsLongestDigitPrefix` | modules/custom/ejemplo_rest/src/Plugin/rest/resource/EjemploREST.php:59 | `intval` reads the longest run of digits at the front: a prefix, all digits, followed by a non-digit or the end |
| `Php.DigitsValueOfNatToString` | modules/custom/ejemplo_rest/src/Plugin/rest/resource/EjemploREST.php:95 | the digits an id is printed with have that id as their value |
| `Php.SkipTrimPassesTrimChars` | modules/custom/ejemplo_rest/src/Plugin/rest/resource/EjemploREST.php:110 | the forward scan of `trim` passes only trim characters and stops at the first kept character or the end |
| `Php.BackTrimPassesTrimChars` | modules/custom/ejemplo_rest/src/Plugin/rest/resource/EjemploREST.php:110 | the backward scan of `trim` passes only trim characters and stops just after the last kept character |
| `Php.TrimIsStrippedSlice` | modules/custom/ejemplo_rest/src/Plugin/rest/resource/EjemploREST.php:110 | `trim` keeps a contiguous slice, everything cut is a trim character, and neither end of the result is one |
| `Php.TrimFixedPoint` | modules/custom/ejemplo_rest/src/Plugin/rest/resource/EjemploREST.php:110 | a string is its own `trim` if and only if neither end is a trim character |
| `Php.TrimIdempotent` | modules/custom/ejemplo_rest/src/Plugin/rest/resource/EjemploREST.php:110 | trimming twice is trimming once |
| `Php.JoinContainsEach` | modules/custom/ejemplo_rest/src/Plugin/rest/resource/EjemploREST.php:95 | every part occurs in the string `join` builds |
| `Query.SelectExactly` | modules/custom/ejemplo_rest/src/Plugin/rest/resource/EjemploREST.php:75-83 | a node is selected if and only if it is in the store and meets all the query's conditions |
| `Query.SelectedNodesMeetTheConditions` | modules/custom/ejemplo_rest/src/Plugin/rest/resource/EjemploREST.php:75-83 | every selected node is an `article` with status 1 and `field_idioma` equal to the language, and its id is requested when ids were given |
| `Query.NoIdsMeansNoIdCondition` | modules/custom/ejemplo_rest/src/Plugin/rest/resource/EjemploREST.php:80-83 | with an empty id list every published article in the language is selected: no id condition applies |
| `Query.NoMatchSelectsNothing` | modules/custom/ejemplo_rest/src/Plugin/rest/resource/EjemploREST.php:87-90 | when no stored node meets the conditions the query returns nothing |
| `Query.SelectKeepsOrder` | modules/custom/ejemplo_rest/src/Plugin/rest/resource/EjemploREST.php:87-90 | the query keeps store order: selecting from two consecutive parts gives their selections in sequence |
| `Query.DistinctNidsCount` | modules/custom/ejemplo_rest/src/Plugin/rest/resource/EjemploREST.php:87-90 | a node list keyed by nid, as `loadMultiple` returns it, has as many distinct ids as nodes |
| `Query.SelectKeepsDistinct` | modules/custom/ejemplo_rest/src/Plugin/rest/resource/EjemploREST.php:87-90 | from a store keyed by nid the query loads at most one node per id |
| `Normalizer.CleanIdsAccepts` | modules/custom/ejemplo_rest/src/Plugin/rest/resource/EjemploREST.php:58-64 | when no element converts to 0, each element is replaced by its integer, and length and order are kept |
| `Normalizer.CleanIdsRejectsFirst` | modules/custom/ejemplo_rest/src/Plugin/rest/resource/EjemploREST.php:58-62 | the first element that converts to 0 is the one reported, by its raw value |
| `Normalizer.Language` | modules/custom/ejemplo_rest/src/Plugin/rest/resource/EjemploREST.php:67-70 | the language is never empty in the sense of `empty()`; it is `"en"` for an absent, `""` or `"0"` value and the given value otherwise |
| `Normalizer.MissingNodesExactlyWhenEmpty` | modules/custom/ejemplo_rest/src/Plugin/rest/resource/EjemploREST.php:38-43 | the "must provide" rejection happens if and only if `node_ids` is absent, `""`, `"0"` or an empty list |
| `Normalizer.InvalidValueNamesFirstBadCandidate` | modules/custom/ejemplo_rest/src/Plugin/rest/resource/EjemploREST.php:58-62 | a non-empty `node_ids` whose k-th candidate is the first to convert to 0 is rejected with `Invalid value "<raw>".` |
| `Normalizer.AcceptedFilter` | modules/custom/ejemplo_rest/src/Plugin/rest/resource/EjemploREST.php:58-70 | when every candidate converts to non-zero, the filter holds those integers in order, same length, and the defaulted language |
| `Normalizer.AllMeansNoIds` | modules/custom/ejemplo_rest/src/Plugin/rest/resource/EjemploREST.php:46-49 | the scalar `"all"` becomes the empty id list |
| `Normalizer.SingleValueIsListOfOne` | modules/custom/ejemplo_rest/src/Plugin/rest/resource/EjemploREST.php:46-53 | a non-empty scalar other than `"all"` is handled exactly as the list holding it |
| `Normalizer.NegativeIdAccepted` | modules/custom/ejemplo_rest/src/Plugin/rest/resource/EjemploREST.php:59-63 | `"-3"` is accepted as the id -3: only 0 is refused |
| `Normalizer.NonNumericIdRejected` | modules/custom/ejemplo_rest/src/Plugin/rest/resource/EjemploREST.php:59-61 | `node_ids=abc` is refused with `Invalid value "abc".` |
| `Reconciler.MissingExactly` | modules/custom/ejemplo_rest/src/Plugin/rest/resource/EjemploREST.php:93 | an id is missing if and only if it was requested and no found node has it |
| `Reconciler.MissingKeepsOrder` | modules/custom/ejemplo_rest/src/Plugin/rest/resource/EjemploREST.php:93 | the difference keeps request order and repetitions: it distributes over consecutive parts of the request |
| `Reconciler.NothingFoundMeansAllMissing` | modules/custom/ejemplo_rest/src/Plugin/rest/resource/EjemploREST.php:87-93 | when nothing is found the missing list is the whole request |
| `Reconciler.MissingFromStore` | modules/custom/ejemplo_rest/src/Plugin/rest/resource/EjemploREST.php:74-93 | a requested id is missing if and only if the store holds no published article in the language with it; in "all" mode nothing is missing |
| `Reconciler.NotFoundMessageNamesEach` | modules/custom/ejemplo_rest/src/Plugin/rest/resource/EjemploREST.php:95 | the 404 message contains the decimal form of every missing id |
| `Assembler.EntriesOnePerNode` | modules/custom/ejemplo_rest/src/Plugin/rest/resource/EjemploREST.php:102-112 | one entry per found node, in order, titled by its label, holding its trimmed rendered body, which neither starts nor ends with a trim character |
| `Assembler.DependenciesCoverTheFoundNodes` | modules/custom/ejemplo_rest/src/Plugin/rest/resource/EjemploREST.php:102-127 | the response depends on the query arguments first and then on every found node and on no other node, one dependency more than there are entries |
| `Assembler.TimeReadsBack` | modules/custom/ejemplo_rest/src/Plugin/rest/resource/EjemploREST.php:119 | the `time` string read with `intval` is the clock value |
| `Assembler.UndefinedDataWhenNothingFound` | modules/custom/ejemplo_rest/src/Plugin/rest/resource/EjemploREST.php:108-118 | as written, `data` is null when no node was found and the entries otherwise |
| `Endpoint.CleanEach` | modules/custom/ejemplo_rest/src/Plugin/rest/resource/EjemploREST.php:58-64 | the in-order cleaning loop with its early exit computes `CleanIds` |
| `Endpoint.BuildResponse` | modules/custom/ejemplo_rest/src/Plugin/rest/resource/EjemploREST.php:101-127 | the loop over the found nodes and the response around it compute `Assemble` |
| `Endpoint.Get` | modules/custom/ejemplo_rest/src/Plugin/rest/resource/EjemploREST.php:36-129 | the handler with its reassignments, loops and early returns answers exactly `Handle` |
| `Endpoint.MissingNodeIdsIsBadRequest` | modules/custom/ejemplo_rest/src/Plugin/rest/resource/EjemploREST.php:38-43 | the answer is the "must provide" 400 if and only if `node_ids` is empty in the sense of `empty()` |
| `Endpoint.RejectionIgnoresStore` | modules/custom/ejemplo_rest/src/Plugin/rest/resource/EjemploREST.php:41-62 | a 400 does not depend on the store, the renderer or the clock: it is decided before any query |
| `Endpoint.AllModeNeverNotFound` | modules/custom/ejemplo_rest/src/Plugin/rest/resource/EjemploREST.php:81-96 | `node_ids=all` always gets a 200 listing every published article in the language, in store order |
| `Endpoint.NotFoundListsExactlyTheMissing` | modules/custom/ejemplo_rest/src/Plugin/rest/resource/EjemploREST.php:93-96 | once normalised, the request never gets a 400; it gets a 404 if and only if some requested id has no published article in the language, and the 404 lists, in request order, exactly those ids, with a message naming each |
| `Endpoint.OkReturnsExactlyTheRequested` | modules/custom/ejemplo_rest/src/Plugin/rest/resource/EjemploREST.php:81-96 | a 200 is answered if and only if every requested id was found; for explicit ids the found ids and the requested ids are then the same set |
| `Endpoint.OkHasOneEntryPerRequestedId` | modules/custom/ejemplo_rest/src/Plugin/rest/resource/EjemploREST.php:81-112 | with a store keyed by nid, a 200 for explicit ids has exactly one entry per distinct requested id, so `node_ids=5` gives one entry |
| `Endpoint.OkPayload` | modules/custom/ejemplo_rest/src/Plugin/rest/resource/EjemploREST.php:102-120 | a 200 has an empty message, the clock as its time, and one `{label, trimmed rendered body}` entry per selected node in store order |
| `Endpoint.EmptyAllModeGivesEmptyList` | modules/custom/ejemplo_rest/src/Plugin/rest/resource/EjemploREST.php:108-118 | `node_ids=all` with no matching article gets a 200 whose data is the empty list |

## Left out

- Entity storage, the entity query and `loadMultiple` are not modelled as services. The store is the sequence of nodes in the order the query returns them, and `Select` stands for running the query and loading the result. A node that the query finds but `loadMultiple` cannot load is not modelled.
- The store is any `seq<Node>`, so it may repeat a nid, which Drupal's storage, keyed by nid, never does. For such a store the model answers with one entry per stored copy. The results that depend on unique ids, such as `Endpoint.OkHasOneEntryPerRequestedId`, require `DistinctNids(store)`.
- The database compares `field_idioma` under its own collation, which may ignore case. The model compares strings exactly.
- `Xss::filter`, the renderer, `RenderContext` and the field formatter are foreign code. They become the `sanitize` and `render` function parameters. A renderer failure (a 500) is not modelled.
- `intval` is modelled as leading white space, an optional sign and leading decimal digits, saturated to 64 bits. PHP also reads exponent and decimal forms, for example `"1e3"` as 1000 and `"5e-1"` as 0. The model reads these as 1 and 5, so for such values the accept-or-reject decision can differ. A decimal string beyond the range of a double (about 309 digits or more) becomes infinity in PHP, and PHP converts infinity to the integer 0, so such an id is refused with a 400. The model saturates it to the largest 64-bit integer instead and accepts it.
- The wall-clock read of `DrupalDateTime` is the parameter `now`.
- Cache metadata: the model records only the order of the `addCacheableDependency` calls. The query-arguments array comes first, then each node. How Drupal merges them is not modelled: the arrays' `context` key, the fate of a plain array passed as a dependency, and the resulting tags, contexts and max-age.
- Translation with `t()` is not modelled, and neither is the HTML escaping of `@` placeholders. The messages are plain strings with the raw value inserted verbatim.
- Exceptions become the `BadRequest` and `NotFound` outcomes.
- `lang` given as a list is not modelled; `lang` is absent or one string.
- The elements of a `node_ids` list are strings, and array keys are not modelled. A nested list would make `Xss::filter` fail, and that is not modelled either.
- Parsing the query string itself is outside the handler and not modelled. For example, PHP keeps only the last of several plain `node_ids=` parameters.

## Findings

| source | as written | input that shows it | evidently intended | confidence | as-written member | corrected member |
|---|---|---|---|---|---|---|
| modules/custom/ejemplo_rest/src/Plugin/rest/resource/EjemploREST.php:108-118 | `$data` is assigned only inside the loop over the found nodes. When none is found it is undefined, so the payload's `data` is null and PHP emits a warning | `node_ids=all` with no published article in the language | `data` is an empty list | high, not executed | `Assembler.UndefinedDataWhenNothingFound` | `Endpoint.EmptyAllModeGivesEmptyList` |
