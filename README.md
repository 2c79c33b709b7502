# Price lookup service — a Dafny model

This project models the core of a small Go web service that answers "what is
the price of these items?" and lets a caller set an item's price. It covers four parts:

- **The price service** (`PriceService`). It is cache-aside on reads and
  write-through on writes:
  - A read asks the cache for all requested codes in one batch. A clean answer
    is returned at once.
  - Otherwise the storage is asked, in one batch, for the codes the cache did
    not return. A storage failure is an internal error. The storage's answer
    is written back into the cache and merged with the cache hits, cache
    values winning.
  - Codes that neither source knows are reported in a not-found error.
  - A write goes to the storage first and reaches the cache only when the
    storage took it.
- **The HTTP handler** (`Handlers`):
  - Validation of the comma-separated `items_codes` parameter: at least one
    code, at most ten, none longer than five bytes.
  - The response with one item per price.
  - The mapping of service errors to 404 and 500.
  - The write request with its binding rules.
- **The error values** (`Errors`): a code and a message that may be a one-`%s`
  template which `WithParams` fills with comma-joined codes.
- **The Redis cache repository** (`CacheRepository`):
  - The key `price:<code>`.
  - The fold of one MGET reply into the prices that parse and an ordered list
    of failure messages.
  - The batch of SETs, which stops at the first failure.

Two support modules model the Go library functions the core relies on.
`GoStrings` covers `strings.Split`, `strings.Join`, `len` as the UTF-8 byte
count, and `fmt.Sprintf` with one string argument. `Wrappers` defines `Option`.

The collaborators are abstract state:

- **Storage** is a map with upsert semantics. Its batch read returns the
  requested codes it holds.
- **Cache**, as the service sees it, is a map whose batch read reports an error
  whenever a requested code is absent.
- **Call log**: the service class records every collaborator call in a log
  (`calls`). This states which calls are made, with what arguments and how
  many.
- **Faults**: an infrastructure failure of a collaborator is a boolean input
  per call.

The repository layer models Redis as a map from keys to entries, each with an
expiry: an instant, or never for a SET issued without a positive timeout. The clock is an explicit `now`.

Each imperative Go function is a method proved against a specification
function:
- `Service.GetPricesFor` against `Read`;
- `GetMissingItems` against `MissingOf`;
- `DecodeReply` against `Decoded`, `Failures` and `ReplyError`;
- `WriteBatch` against `Written`;
- `GetInvalidItems` against `InvalidOf`;
- `BuildPricesResponse` against `ToMap`.

The lemmas prove what the code promises about those functions.

Two behaviours of the code are recorded as lemmas:

- **`validateItems` can never report zero codes.** Its empty-input branch also
  tests `totalItems == 0`, but `strings.Split` always yields at least one
  piece (`GoStrings.Split`, `Handlers.ValidateEmpty`).
- **A code can be stored but not read.** The write request's `max=5` binding
  counts characters, while read validation counts bytes. A code of three
  two-byte characters can be stored but is refused when read
  (`Handlers.WritableCodeNotReadable`).

Two choices the code makes that a reader may not expect:

- The storage is asked for the missing codes as a list, in request order and
  with duplicates kept, not as a set (`PriceService.ReadStoreOnce`).
- A storage failure answers with the internal error together with the (empty)
  map the storage returned (`PriceService.ReadStoreFailure`).

## Model

| member | source | states |
|---|---|---|
| GoStrings.Split | handlers/prices/prices.go:89 | splitting always yields at least one piece, so an empty string is one empty code |
| GoStrings.SplitCount | handlers/prices/prices.go:89-90 | the number of pieces is the number of separators plus one |
| GoStrings.SplitPiecesFree | handlers/prices/prices.go:89 | no piece contains the separator |
| GoStrings.JoinSplit | handlers/prices/prices.go:89 | joining the pieces with the separator gives the original string back |
| GoStrings.SplitJoin | handlers/prices/prices.go:89 | splitting a join of separator-free pieces gives back exactly those pieces |
| GoStrings.SplitFree | handlers/prices/prices.go:89 | a string without the separator splits into itself alone |
| GoStrings.SplitAfterPiece | handlers/prices/prices.go:89 | a separator-free prefix followed by the separator is split off as the first piece |
| GoStrings.Join | errors/errors.go:30 | `strings.Join`: the parts in order with one separator between consecutive parts, so its length is theirs plus the separators', and it starts with the first part |
| GoStrings.JoinAppend | errors/errors.go:30 | joining one more part appends the separator and that part |
| GoStrings.JoinCons | errors/errors.go:30 | joining a part before at least one more puts the separator after it |
| GoStrings.Utf8Length | handlers/prices/prices.go:105 | a character's UTF-8 encoding takes one to four bytes |
| GoStrings.AsciiByteLength | handlers/prices/prices.go:105 | an ASCII string's byte length is its character count |
| GoStrings.ByteLength | handlers/prices/prices.go:105 | Go's `len` of a string is its UTF-8 byte count, between its character count and four times it |
| GoStrings.SprintfOneVerb | errors/errors.go:30 | Sprintf of a template with one `%s` puts the argument in place of the verb and keeps the rest |
| GoStrings.FormatPrefix | errors/errors.go:30 | the formatter, before any verb is used, replaces the first `%s` by the argument |
| GoStrings.FormatPlain | errors/errors.go:30 | `fmt.Sprintf` with one string argument: verb-free text is copied unchanged, followed by `%!(EXTRA string=…)` when the argument was never used, so a template without a verb gets the argument appended |
| GoStrings.Sprintf | errors/errors.go:30 | Go's `fmt.Sprintf` with one string argument; its meaning is given by `SprintfOneVerb` and `FormatPlain` |
| GoStrings.Format | errors/errors.go:30 | the formatter's scan of the template: `%s` takes the argument once, then `%!s(MISSING)`; other text is copied; an unused argument is appended as `%!(EXTRA string=…)` |
| GoStrings.OneVerbTemplate | errors/errors.go:30 | a template with one `%s` and no other `%` is one the formatter accepts |
| GoStrings.VerbsOnlyDrop | errors/errors.go:30 | dropping a prefix that does not end inside a verb keeps a template acceptable |
| Errors.CustomError.WithParams | errors/errors.go:27-32 | the new error keeps the receiver's code |
| Errors.CustomError.Error | errors/errors.go:34-36 | the `error` interface returns the message unchanged |
| Errors.WithParamsFillsTemplate | errors/errors.go:27-32 | for a template `pre%spost`, the message becomes pre, the comma-joined parameters, post; the code is kept |
| Errors.NotFoundItemsMessage | errors/errors.go:40 | the not-found error's message is "Items not found: " + joined codes + "." with code NotFoundCode |
| Errors.InvalidItemsMessage | errors/errors.go:41 | the invalid-items error's message is "Invalid items: " + joined codes + "." with code BadRequestCode |
| Errors.NotFoundTwo | errors/errors.go:27-36 | for two codes a and b the error text is "Items not found: a,b." |
| Errors.ErrorCodes | errors/errors.go:9-13 | the codes are 0, 1 and 2; every predefined error carries its code; `Error()` is the message |
| PriceService.MissingOfMembers | services/prices/prices.go:38-46 | a code is missing exactly when it was requested and the map lacks it |
| PriceService.MissingOfEmpty | services/prices/prices.go:38-46 | nothing is missing exactly when every requested code is a key |
| PriceService.MissingOfCounts | services/prices/prices.go:38-46 | a missing code occurs as often as it was requested, a present one never (duplicates kept) |
| PriceService.MissingOfSameKeys | services/prices/prices.go:38-46 | the missing codes depend only on which requested codes are keys |
| PriceService.MissingOfTwice | services/prices/prices.go:30-31 | filtering by the cache hits and then by the storage answer is filtering by their union |
| PriceService.MissingOfNone | services/prices/prices.go:38-46 | when no requested code is a key, every code is missing, in request order |
| PriceService.GetMissingItems | services/prices/prices.go:38-46 | the loop returns exactly MissingOf: requested codes absent from the map, request order, duplicates kept |
| PriceService.GetItemsUnion | services/prices/prices.go:48-53 | keys are the union of both maps; a shared code gets the cache value, any other code keeps its own |
| PriceService.NotFound | services/prices/prices.go:31-33 | no error iff no code is unresolved; otherwise the not-found error "Items not found: " + the codes comma-joined + "." |
| PriceService.Merge | services/prices/prices.go:30-35 | the merged keys are those of both answers, the cache value winning on a shared code; any error is a not-found one |
| PriceService.Read | services/prices/prices.go:14-36 | a read starts with one cache batch read and makes at most three calls; its error is internal or not-found, and an internal error comes with no prices and an untouched cache |
| PriceService.LogConcat | services/prices/models.go:12-20 | the storage reads, storage call count and cache writes of a concatenated log add up |
| PriceService.LogOne | services/prices/models.go:12-20 | which of the three log views a single collaborator call contributes to |
| PriceService.ReadLogs | services/prices/prices.go:17-27 | the log views of the three call sequences a read can make |
| PriceService.ReadExtendsLog | services/prices/prices.go:14-36 | a read appends the same calls to whatever log it starts from, with the same answer |
| PriceService.ReadOnlyRequested | services/prices/prices.go:14-36 | a read never returns a price for a code that was not requested |
| PriceService.ReadFastPath | services/prices/prices.go:17-20 | when the cache holds every code: one cache call, no storage call, no cache write, no error, the cache's prices |
| PriceService.ReadStoreOnce | services/prices/prices.go:22-23 | on a cache error the storage is read once, for exactly the codes the cache did not return, unless there are none |
| PriceService.ReadAllMiss | services/prices/prices.go:22-23 | when the cache holds none of the codes, one storage read carries all of them |
| PriceService.ReadStoreFailure | services/prices/prices.go:23-26 | a failing storage read gives the internal error, no prices and no cache write, whatever the cache returned |
| PriceService.ReadFillsCache | services/prices/prices.go:27 | the cache receives exactly the storage answer, once, and keeps its other entries |
| PriceService.ReadMerges | services/prices/prices.go:30 | the answer holds every requested code either source knows; the cache value wins on a shared code |
| PriceService.ReadReportsUnresolved | services/prices/prices.go:31-35 | the not-found error lists exactly the codes neither source resolved, in request order; no error iff there are none |
| PriceService.MergedAgreesWithFill | services/prices/prices.go:27-30 | on the requested codes, the merged answer agrees with the filled cache |
| PriceService.FillServesNextRead | services/prices/prices.go:17-30 | after a successful fallback, whether the first cache read missed or failed, the same request is served by the cache alone with the same prices |
| PriceService.Service.constructor | services/prices/prices.go:6-11 | a service over the given storage and cache, with an empty call log |
| PriceService.Service.CacheGetPricesFor | services/prices/prices.go:17 | the cache batch read returns the hits and fails on a fault or any miss; one call is logged |
| PriceService.Service.CacheSetPricesFor | services/prices/prices.go:27 | the cache batch write overwrites the given entries; one call is logged |
| PriceService.Service.StoreGetPricesFor | services/prices/prices.go:23 | the storage batch read returns the requested codes it holds, or fails with nothing |
| PriceService.Service.StoreSetPriceFor | services/prices/prices.go:57 | the storage upsert inserts or replaces the price unless it fails |
| PriceService.Service.GetPricesFor | services/prices/prices.go:14-36 | the prices, error, new cache and new call log are exactly those of `Read` |
| PriceService.Service.SetPriceFor | services/prices/prices.go:55-66 | a storage failure gives the internal error and no cache write; success writes storage then exactly one cache entry |
| PriceService.WriteThenRead | services/prices/prices.go:55-66 | after a successful write, a read of that code is served by the cache alone with the written price |
| PriceService.MixedHitsExample | services/prices/prices.go:14-36 | cache {p1:5}, storage {p2:7}, request [p1,p2]: storage asked for [p2], cache given {p2:7}, answer {p1:5,p2:7} |
| PriceService.CachesResults | services/prices/prices_test.go:153-168 | three reads of p1 all give 5 with one storage call |
| PriceService.StorageErrorFails | services/prices/prices_test.go:171-183 | a failing storage read gives "Internal server error." |
| PriceService.SeveralPricesAtOnce | services/prices/prices_test.go:186-202 | reads of [p1], [p1,p2], [p1,p2] give 5; 5,7; 5,7 with two storage calls |
| PriceService.SeveralPricesReads | services/prices/prices_test.go:186-202 | the same three reads described by `Read` |
| PriceService.NotFoundNamesCodes | services/prices/prices_test.go:279-285 | with both sources empty, [p1,p2] gives "Items not found: p1,p2." and no prices |
| PriceService.NotFoundRead | services/prices/prices_test.go:279-285 | the same read described by `Read`: the not-found error and an empty map |
| PriceService.InsertPrice | services/prices/prices_test.go:287-309 | an accepted write returns no error; a rejected one "Internal server error." |
| CacheRepository.BuildPriceKey | repositories/cache/prices.go:61-63 | the key is "price:" followed by the code |
| CacheRepository.BuildPriceKeyFillsTemplate | repositories/cache/prices.go:61-63 | the key is the expansion of the template "price:%s" with the code |
| CacheRepository.PriceKeyInjective | repositories/cache/prices.go:61-63 | distinct codes never share a key |
| CacheRepository.BuildPricesKeys | repositories/cache/prices.go:54-59 | one key per code, same length and order, each "price:" + code |
| CacheRepository.DescribeFillsTemplate | repositories/cache/prices.go:26-31 | the failure messages are the expansions of "Item %s do not exist" and "Invalid value for %s" |
| CacheRepository.DescribeInjective | repositories/cache/prices.go:26-31 | distinct failures never get the same message |
| CacheRepository.AbsentIsNotUnparsable | repositories/cache/prices.go:26-31 | a missing-key message never reads like an unparsable-value message |
| CacheRepository.DecodeReply | repositories/cache/prices.go:17-40 | a failed MGET gives no prices and "Redis get error"; otherwise the prices and error of the reply fold |
| CacheRepository.DecodedMembers | repositories/cache/prices.go:24-35 | a code has a price exactly when some position for it is non-nil and parses |
| CacheRepository.DecodedLastWins | repositories/cache/prices.go:34 | a code's price is the one parsed at its last parsing position |
| CacheRepository.FailuresMembers | repositories/cache/prices.go:24-33 | a failure is reported exactly when some position is nil (absent) or does not parse (unparsable) |
| CacheRepository.FailuresAppend | repositories/cache/prices.go:23-33 | failures keep request order: those of a split reply are the first part's followed by the second's |
| CacheRepository.ReplyErrorIffFailure | repositories/cache/prices.go:37-40 | there is an error exactly when some position failed |
| CacheRepository.SingleFailure | repositories/cache/prices.go:37-40 | one failed position is reported by its own message alone |
| CacheRepository.WrittenSets | repositories/cache/prices.go:44-45 | each written code's key holds its formatted price with the batch's expiry |
| CacheRepository.WrittenKeeps | repositories/cache/prices.go:44-45 | every other key keeps its entry and no other key appears |
| CacheRepository.WrittenNothing | repositories/cache/prices.go:43-44 | writing no code leaves Redis unchanged |
| CacheRepository.WrittenStep | repositories/cache/prices.go:44-45 | one more SET extends the written set by that code |
| CacheRepository.CacheContract | repositories/cache/prices.go:14-41 | the read returns exactly the requested codes whose key lives and parses; no error iff the MGET goes through, something was requested and every code resolves; an empty request gives "Redis get error" |
| CacheRepository.ReplyContract | repositories/cache/prices.go:24-40 | the fold of an MGET reply yields exactly the codes whose key lives and parses, with an error iff some code does not |
| CacheRepository.Describe | repositories/cache/prices.go:26-31 | the message for a nil reply is "Item <code> do not exist", for an unparsable value "Invalid value for <code>" |
| CacheRepository.Decoded | repositories/cache/prices.go:24-35 | the price map the reply fold builds; `DecodedMembers` and `DecodedLastWins` state its contents |
| CacheRepository.Failures | repositories/cache/prices.go:24-33 | the failure messages the reply fold collects, in reply order; `FailuresMembers` and `FailuresAppend` state them |
| CacheRepository.MGet | repositories/cache/prices.go:17 | Redis MGET: one reply per key, the stored value of a live key and nil for a missing or expired one; `CacheContract` states what a read makes of it |
| CacheRepository.Written | repositories/cache/prices.go:44-45 | the entries after SETs of the given codes; `WrittenSets`, `WrittenKeeps`, `WrittenNothing` and `WrittenStep` state them |
| CacheRepository.Fetch | repositories/cache/prices.go:14-41 | the batch read: a transport fault or an empty key list fails the MGET with "Redis get error"; otherwise the reply fold at `now` |
| CacheRepository.ExpiryAfter | repositories/cache/prices.go:45 | a SET with a positive timeout lives until `now` + timeout; with a timeout of zero or less it never expires |
| CacheRepository.SetThenGet | repositories/cache/prices.go:14-41 | codes stored, still alive, with the formatted value of a price that parses back to it, are read back exactly, with no error unless nothing was requested |
| CacheRepository.WrittenValueRead | repositories/cache/prices.go:34 | a live key whose value parses yields that price |
| CacheRepository.WrittenThenRead | repositories/cache/prices.go:43-52 | after a complete batch and while it lives, a read of written codes whose prices survive formatting and parsing returns those prices, with no error unless nothing was requested |
| CacheRepository.ExpiredIsAbsent | repositories/cache/prices.go:25-28 | a code whose key is missing or expired gets no price and is reported as not existing |
| CacheRepository.ExpiredAfterRewrite | repositories/cache/prices_test.go:65-74 | after a later batch of other codes, an expired code is reported and the new code is read, provided its price survives formatting and parsing |
| CacheRepository.SecondBatchValues | repositories/cache/prices_test.go:65-72 | after the second batch, its code's key lives and the stale code's key has expired |
| CacheRepository.FreshAndStale | repositories/cache/prices.go:24-40 | a live parsing key and a dead key give that one price and the dead code's message |
| CacheRepository.WriteBatch | repositories/cache/prices.go:43-52 | the SETs go through for a set of codes; a failing one ends the batch with "Set cache error"; no error iff none fails, and then all are written |
| CacheRepository.Repository.constructor | repositories/cache/redis.go:16-25 | a client with the given default timeout of a Redis server holding the given entries |
| CacheRepository.Repository.GetPricesFor | repositories/cache/prices.go:14-41 | the prices and error are those of `Fetch`: a fault or an empty request gives no prices and "Redis get error"; otherwise the fold of the MGET at `now` |
| CacheRepository.Repository.SetPricesFor | repositories/cache/prices.go:43-52 | the new entries are those of the batch, expiring `defaultTimeout` after `now` (never for a timeout ≤ 0); errors as `WriteBatch` |
| CacheRepository.ValueExpired | repositories/cache/prices_test.go:52-75 | with 10.5 and 9.0 surviving formatting and parsing, timeout 100: c3 read back as 10.5 at 0; at 200 after {c4,c7}, [c4,c3] gives c4 = 9 and "Item c3 do not exist" |
| CacheRepository.RedisErrors | repositories/cache/prices_test.go:13-42 | a missing c1 gives "Item c1 do not exist", a failed MGET "Redis get error", failing SETs "Set cache error" |
| CacheRepository.InvalidValueRead | repositories/cache/prices_test.go:44-50 | a live "invalid_format" value for c3 gives no price and "Invalid value for c3" |
| Handlers.GetInvalidItems | handlers/prices/prices.go:103-110 | the loop returns exactly InvalidOf: the too-long codes in order |
| Handlers.InvalidOfMembers | handlers/prices/prices.go:103-110 | a code is reported iff it is requested and longer than five bytes; nothing reported iff all are short |
| Handlers.InvalidOfAppend | handlers/prices/prices.go:103-110 | the report keeps order: reporting a concatenation concatenates the reports |
| Handlers.ValidateItems | handlers/prices/prices.go:88-101 | the codes are the comma-split of the input; every error has code BadRequestCode |
| Handlers.InvalidItemsNotAtLeastOne | handlers/prices/prices.go:92-98 | an invalid-items error is never the at-least-one error |
| Handlers.EmptyIffNoBytes | handlers/prices/prices.go:91 | `len` is zero exactly for the empty string |
| Handlers.ValidateEmpty | handlers/prices/prices.go:89-93 | the at-least-one error comes exactly for the empty parameter |
| Handlers.ValidateTooMany | handlers/prices/prices.go:94-96 | a non-empty parameter is too many iff it holds ten commas or more, whatever the code lengths |
| Handlers.ValidateNamesInvalid | handlers/prices/prices.go:97-99 | otherwise the error names exactly the too-long codes, comma-joined, in order |
| Handlers.ValidateAccepts | handlers/prices/prices.go:88-101 | no error iff non-empty, at most ten codes and none longer than five bytes |
| Handlers.ValidatedCodesRejoin | handlers/prices/prices.go:89-100 | the codes handed on are comma-free and rejoin to the parameter |
| Handlers.ToMapKeys | handlers/prices/prices.go:78-86 | the codes of a response are the keys it describes |
| Handlers.ToMapValues | handlers/prices/prices.go:78-86 | with distinct codes, each item's price is the value at its code and there are as many entries as items |
| Handlers.ResponseMatches | handlers/prices/prices.go:78-86 | a response describing a map has one item per entry, each matching it, and every entry has its item |
| Handlers.RespondStep | handlers/prices/prices.go:79-84 | appending the item of a new entry keeps codes distinct and covers that entry |
| Handlers.BuildPricesResponse | handlers/prices/prices.go:78-86 | one item per map entry, distinct codes, describing exactly the map |
| Handlers.OneItemResponse | handlers/prices/prices.go:78-86 | a one-entry map gives a one-item response |
| Handlers.FailedRead | handlers/prices/prices.go:49-55 | 404 with the error iff its code is NotFoundCode, otherwise 500 with the internal error |
| Handlers.Query | handlers/prices/prices.go:40 | `c.Query` gives the parameter's value, or the empty string when it is absent |
| Handlers.Binds | handlers/prices/models.go:5-6 | a write body binds when it decodes, its code is non-empty and at most five characters, and its price is not zero |
| Handlers.WritableCodeNotReadable | handlers/prices/models.go:5 | a code of three two-byte characters binds for a write but is refused as invalid on a read |
| Handlers.PricesHandler.constructor | handlers/prices/prices.go:28-37 | the base path "/api/items", the prices path "/prices" and a service over the given contents |
| Handlers.PricesHandler.GetPricesFor | handlers/prices/prices.go:39-59 | a refused request is 400 with the validation error and no call; otherwise 200 with the read's prices or the failed-read answer |
| Handlers.PricesHandler.SetPricesFor | handlers/prices/prices.go:61-76 | an unbound body is 400 InvalidFormat with no call; a storage failure 500; otherwise 204 with storage and cache updated |
| Handlers.ValidateOneLong | handlers/prices/prices.go:97-99 | one comma-free too-long code is refused, named in the error |
| Handlers.ValidateSevenLong | handlers/prices/prices_test.go:64-71 | "ppppppp" gives "Invalid items: ppppppp." |
| Handlers.ValidateElevenCodes | handlers/prices/prices_test.go:82-90 | eleven one-letter codes give MaxItemsExceded |
| Handlers.AlternatingCommas | handlers/prices/prices_test.go:85 | a string of one-character codes between commas has one comma fewer than codes |
| Handlers.ValidateNoParameter | handlers/prices/prices_test.go:73-80 | a query without `items_codes` gives AtLeastOneItem |
| Handlers.ValidateJoined | handlers/prices/prices.go:88-101 | at most ten short comma-free codes joined pass, and are handed on unchanged |
| Handlers.ValidateEmptySegments | handlers/prices/prices.go:88-101 | "a,,b" passes with the codes a, "" and b |
| Handlers.NotFoundOne | handlers/prices/prices_test.go:105-116 | with both sources empty a read of one code gives the not-found error naming it |
| Handlers.RefusedReads | handlers/prices/prices_test.go:64-90 | the three refused reads are 400 with the invalid-items, at-least-one and max-items errors |
| Handlers.InternalErrAnswer | handlers/prices/prices_test.go:92-103 | a failing storage gives 500 with the internal error |
| Handlers.NotFoundAnswer | handlers/prices/prices_test.go:105-116 | an unknown p2 gives 404 with "Items not found: p2." |
| Handlers.ReturnPrices | handlers/prices/prices_test.go:118-132 | a cached p2 at 10 gives 200 with the one item p2: 10 |
| Handlers.WriteAnswers | handlers/prices/prices_test.go:134-174 | a malformed body gives 400 InvalidFormat, a failing storage 500, a stored price 204 |

## Left out

- Errors.CustomError.WithParams: requires that every `%` of the message starts a `%s` verb. Go's `fmt.Sprintf` accepts any template and handles other verbs, flags and `%%`. Every message of the program meets the requirement.
- `fmt.Sprintf` is modelled for one string argument and `%s` verbs only. Go's `%!s(MISSING)` and `%!(EXTRA …)` outputs for extra or unused verbs are modelled; other verbs are not.
- Redis and PostgreSQL transport, connection set-up (`repositories/cache/redis.go`, `repositories/storage/postgres.go`) and the SQL are not part of this model. Cache and storage failures are boolean inputs. Which SET of a batch fails is given by the set `failing`.
- Float parsing and formatting (`strconv.ParseFloat`, Redis's rendering of a float) are abstract functions. Prices are opaque `real` values that are only copied.
- Go map iteration order, in `SetPricesFor`, `getItemsUnion` and `buildPricesResponse`, is an arbitrary choice (`:|`). The contracts hold for every order, but no particular order is modelled.
- CacheRepository.Repository.SetPricesFor: the batch is computed on the entries map and assigned once. The model does not show intermediate Redis states to a concurrent reader. The final state and the error are those of the SET-by-SET loop.
- PriceService.GetItemsUnion: Go writes the cache entries into the storage map in place and returns it. The model returns the merged map as a new value, so aliasing of the storage map is not captured.
- The service's view of the cache is a plain map without expiry. Expiry, with an explicit `now`, is modelled only in the repository layer (`CacheRepository.Entry`). The sleep-based tests (services/prices/prices_test.go:205-277, the expiry and parallel calls) are not modelled, and neither is concurrency between requests.
- PriceService.Service.CacheGetPricesFor: the service's view of the cache answers an empty request with no error. The Redis repository fails it (`CacheRepository.Fetch`). Passing `cacheFault` covers that case, and the read's final answer is the same either way: no prices and no error.
- The Go service ignores the error of its cache write. In the model that write always succeeds. So `PriceService.ReadFillsCache`, `PriceService.FillServesNextRead` and `PriceService.WriteThenRead` assume the fill succeeded. A failed SET (repositories/cache/prices.go:46-48) leaves codes unfilled, and the next read of them goes back to the storage.
- Item codes are Dafny strings, which are sequences of Unicode scalar values, and `len` is the length of their UTF-8 encoding. A query that decodes to bytes that are not valid UTF-8 (such as `items_codes=%FF%FF%FF`, whose `len` is 3) is a Go string the model cannot express. So `validateItems` is modelled only on valid UTF-8.
- The gin framework is reduced to what the handler observes. The query parameters are a map with one value per name, standing for the first value gin returns. `c.Query` gives that value, or the empty string when the name is absent. `c.BindJSON` with the struct's binding tags is the predicate `Binds` on an optional decoded body; the JSON decoder itself is not modelled. A response is a status and a body value; JSON encoding is not modelled. This includes the difference between a nil and an empty `items` list.
- `StartHandler` builds the storage and cache from configuration. The model's constructor takes their initial contents instead. `settings` and environment configuration are not part of this model.
- Logging (`log.Errorf`) has no behaviour and is left out.
- The handler tests assign a field `ItemsService` that the handler struct does not have (it is `PricesService`). The scenario methods under `Handlers` follow the statuses and messages those tests expect, using the real field.
