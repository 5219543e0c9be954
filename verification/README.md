# Currency exchange service: verified model

A Dafny model of the parts of the currency exchange service whose correctness is hard to see
from one function at a time: how the in-memory caches follow their Postgres tables, how startup
runs its threads, how components are created, how the form codec and the filter chain behave,
and what GET /exchange answers.  `dafny verify dfyconfig.toml` checks everything.

## How it is laid out

| file | what it holds |
|---|---|
| `RefreshProtocol.dfy` | the refresh loop of one cache as a state machine, interleaved with writes to its table |
| `TimerFailures.dfy` | what a failed update timer does to the protocol's properties |
| `AppliedRows.dfy` | the rows a run applies, where they come from, and tables that only get new rows |
| `PgCacheUpdater.dfy` | the updater object; each callback is proved equal to the protocol's step |
| `InitHandshake.dfy` | the mutex and condition-variable handshake around a cache's initialisation |
| `StartupThreads.dfy` | all caches initialising on one thread pool while some wait for others |
| `Components.dfy` | the lazily filled component container |
| `CurrenciesCache.dfy`, `ExchangeRatesCache.dfy` | the two concrete caches, as classes that update their containers in place |
| `CacheRuns.dfy` | the concrete caches driven by runs of the refresh protocol, end to end against the table |
| `CodeIndex.dfy` | the case-insensitive hash table behind the index by code |
| `Containers.dfy`, `UniqueIndex.dfy`, `Models.dfy`, `Options.dfy` | the two ways of loading rows, indexes that are inverse to each other, and what the caches share |
| `UrlCoding.dfy`, `FormParser.dfy` | percent-encoding and the form parser on top of it |
| `RateResolution.dfy`, `ExchangeHandler.dfy` | the three-way rate lookup, its rounding, and the request that uses it |
| `FilterChain.dfy` | the filter contexts, linked back to front and run by recursion |

**Time.**  The refresh protocol uses a logical clock: a write is stamped strictly later than
every time captured before it, and is visible as soon as it is stamped.  The service writes by
single statements only, and the stamps are the tables' `updated_at`.

**Runs.**  A run is a sequence of events of which each is enabled where it occurs, of any length.
Results are about every run, or about every run without timer errors where they say so.  Concurrency is interleaving of the events named in each file.

**Numbers.**  Rates and amounts are `real`; the result is rounded where the code prints two
decimals (nearest hundredth, and the even one of two equally near, as `str` of a 50-digit decimal does).  They are finite: a stored `NaN`, or an amount
text that reads as an infinity or as not a number, is outside the model.  Bytes are integers below 256 and `char` is
signed; the locale is the C locale.

**What the environment decides** is a parameter: the iteration order of hash maps, the hash mixing
function, the text-to-number conversion, whether the database accepts an empty text as a
timestamp, the number of waiters, caches and threads, and what the currencies cache shows at each
read while the rates are being rendered.

## Where the code departs from its evident intent

The model follows the code.  The members named with each departure say what it does and when it
matters.

- `SetLastUpdateTime` ignores its argument and copies the updater's own, still empty, captured time,
  so the first incremental query is bound to an empty text.  If the database rejects an empty text
  as a timestamp no query ever succeeds and the cache stays at its initial content:
  `EmptyWatermarkFreezesCache`, `CacheCanChangeIff`, `StartAsWritten`.
- A failed update timer is re-armed and the query is sent all the same, so two rounds overlap
  (`SingleActivity`).  A written row can end up covered by the watermark and missing from the cache
  for good, even after a quiet round: `TimerErrorLosesRow`, `LostStaysLost`, `CoverageIff`,
  `QuietRoundIff`.  The answer of the earlier round can be applied last and bring back an older
  version of a row: `TimerErrorBringsBackOldRow`, `FreshnessIff`.  The first such error comes
  from outside the loop.  An Asio wait fails when it is cancelled, and setting the timer cancels a
  wait that is pending; but until one wait has failed the loop never sets its timer over a pending
  wait (`ArmingNeverCancels`), and the service starts each loop once.  What remains for the first
  error is the timer service itself or the timer's destruction.
- The decoder's error value -1 is also the byte 255, so 255 does not survive encoding and decoding:
  `DecodeEncode`, `RoundTripIff`.
- The form parser treats `\` like `&` and leaves `+` alone, unlike the
  application/x-www-form-urlencoded section of the WHATWG URL Standard: `ParseMeans`, `ParsesIff`.
- A non-empty list of rates none of which resolves is published as `null`, not as an empty list:
  `FreshRendering` in `ExchangeRatesCache.dfy`.
- A stored rate of zero, which POST and PATCH accept, makes the reversed and the USD branch divide by
  zero; the answer is then not a finite number.  `ZeroRateIsNotFinite` is such a table and question,
  `NeverDividesByZeroIff` and `NotFiniteIff` say exactly which tables of finite numbers allow one,
  and `AnswersTheQuestion` says it of each question.
- Converting there and back returns the exact amount for all amounts only at rates of at least one:
  `ThereAndBackIsExactIff`.

## Model

| member | source | states |
|---|---|---|
| RefreshProtocol.CacheFollowsHistory | engine/src/postgres/pg_cache.hpp:79-126 | refinement: over any run without timer errors, with writes and failed rounds anywhere, the cache is at every moment one whole past state of the table, and it moves through those states in order |
| RefreshProtocol.WatermarkCovers | engine/src/postgres/pg_cache.hpp:110-130 | in every state of every run without timer errors each row stamped no later than the watermark is cached with exactly its current value, and nothing cached is newer than the table or absent from it |
| TimerFailures.CoverageIff | engine/src/postgres/pg_cache.hpp:70-77 | that coverage holds over all runs if and only if timers cannot fail |
| RefreshProtocol.QuietRoundSynchronises | engine/src/postgres/pg_cache.hpp:110-126 | if nothing is written between a round's capture and its apply, the cache equals the table at the apply, whatever writes and failed rounds came before, as long as no timer failed |
| RefreshProtocol.CanAlwaysRecover | engine/src/postgres/pg_cache.hpp:62-126 | from every state of every run without timer errors, if the watermark is a time or the database accepts the empty text, some continuation without writes makes the cache equal the table |
| TimerFailures.QuietRoundIff | engine/src/postgres/pg_cache.hpp:70-77 | that a quiet round synchronises holds after all runs if and only if timers cannot fail |
| RefreshProtocol.FreshnessNeverGoesBack | engine/src/postgres/pg_cache.hpp:121-126 | over any run without timer errors the cached version of an id never goes back to an older stamp and no row leaves the cache |
| TimerFailures.TimerErrorBringsBackOldRow | engine/src/postgres/pg_cache.hpp:70-77 | a concrete run with one failed timer in which the cached version of a row goes back to an older one, with the watermark past the newer and nothing outstanding |
| TimerFailures.FreshnessIff | engine/src/postgres/pg_cache.hpp:70-77 | that no cached version goes back holds over all runs if and only if timers cannot fail |
| AppliedRows.InsertOnlyCacheGrows | src/sql/sql.hpp:7-14 | if every write is an insert, as for currencies, then over any run whatever, failed timers and overlapping rounds included, a cached row never changes or disappears; this is what the rates cache's reused rendering relies on |
| RefreshProtocol.FailedRoundIsRetried | engine/src/postgres/pg_cache.hpp:79-87 | in a run without timer errors, a round that fails, before the database answered or after, changes neither cache nor watermark, and after any further writes and failures the next answered query uses the same watermark and returns every row the failed one would have returned when it failed, and every row it had returned, at the same stamp or a newer one |
| RefreshProtocol.SelectionCompletesCache | src/sql/sql.hpp:61-68 | in every state that keeps the invariant, the rows newer than the watermark laid over the cache give exactly the current table |
| RefreshProtocol.StepInv | engine/src/postgres/pg_cache.hpp:62-126 | every event of the protocol but a failed timer keeps the invariant behind these results and never moves the cached state back in the table's history |
| RefreshProtocol.ActivityCount | engine/src/postgres/pg_cache.hpp:62-126 | over any run of a started loop the number of outstanding timers, queries and applies grows by exactly the number of failed timers; starting the loop makes it one |
| RefreshProtocol.SingleActivity | engine/src/postgres/pg_cache.hpp:62-77 | from the start, at most one activity is outstanding if and only if no timer has failed; a running loop always has one more than the failures |
| RefreshProtocol.ApplyUsesItsCapture | engine/src/postgres/pg_cache.hpp:62-126 | every apply in every run without timer errors, with writes and failed rounds anywhere, ends a round that one timer started: the watermark becomes the time captured at that timer, before the query was sent, and the rows applied are what the query's watermark selects from a state the table was in from then on |
| RefreshProtocol.RoundUsesItsCapture | engine/src/postgres/pg_cache.hpp:110-126 | the same of one round, from its timer to its apply |
| RefreshProtocol.ArmingNeverCancels | engine/src/postgres/pg_cache.hpp:64-77 | until a wait has failed, the timer is never set while another wait is pending |
| TimerFailures.TimerErrorLosesRow | engine/src/postgres/pg_cache.hpp:70-77 | a concrete run with one failed timer after which a written row is missing from the cache with the watermark past it and nothing outstanding |
| TimerFailures.LostStaysLost | engine/src/postgres/pg_cache.hpp:121-130 | such a row stays out of the cache until it is written again, whatever else happens |
| RefreshProtocol.EmptyWatermarkFreezesCache | engine/src/postgres/pg_cache.hpp:130-134 | with an empty watermark and a database that rejects the empty text, no run ever changes the cache |
| RefreshProtocol.CacheCanChangeIff | engine/src/postgres/pg_cache.hpp:214-218 | some run of a just started loop brings in a new row if and only if the starting watermark is a time or the database accepts the empty text |
| PgCacheUpdaters.PgCacheUpdater.SetUpdateTimer | engine/src/postgres/pg_cache.hpp:64-68 | one more timer is armed and nothing else changes |
| PgCacheUpdaters.PgCacheUpdater.SetLastUpdateTime | engine/src/postgres/pg_cache.hpp:132-134 | the argument is ignored: the watermark becomes the updater's own captured time, and nothing else changes |
| PgCacheUpdaters.PgCacheUpdater.AsyncRunUpdate | engine/src/postgres/pg_cache.hpp:214-216 | starting the loop is the protocol's start with the updater's own captured time, not the caller's |
| PgCacheUpdaters.PgCacheUpdater.DoQuery | engine/src/postgres/pg_cache.hpp:110-119 | captures the time and sends a query bound to the watermark; whole new state given by the protocol |
| PgCacheUpdaters.PgCacheUpdater.OnUpdateTimer | engine/src/postgres/pg_cache.hpp:70-77 | the protocol's timer step, with and without an error |
| PgCacheUpdaters.PgCacheUpdater.OnQueryCompletion | engine/src/postgres/pg_cache.hpp:79-87 | the protocol's failure or completion step, for whichever query ends |
| PgCacheUpdaters.PgCacheUpdater.UpdateCache | engine/src/postgres/pg_cache.hpp:121-126 | the protocol's apply step |
| PgCacheUpdaters.StartAsWritten | engine/src/postgres/pg_cache.hpp:214-216 | whatever time the init query captured, the loop starts with an empty watermark, and no later run over a database that rejects it changes the cache |
| InitHandshake.NoLostWakeup | engine/src/postgres/pg_cache.hpp:245-258 | for any number of waiters and any interleaving with spurious wakeups: a waiter asleep under a set flag still has the notification ahead, a waiter has returned only if the first update of the cache finished, and at most one waiter is inside the mutex |
| InitHandshake.NoDeadlock | engine/src/postgres/pg_cache.hpp:245-258 | in every state that keeps the invariant, unless everybody is done somebody can take a step that is not a spurious wakeup |
| InitHandshake.StepUsesWork | engine/src/postgres/pg_cache.hpp:245-258 | every step strictly decreases a measure, except a spurious wakeup before the flag is set, which adds three |
| InitHandshake.EveryWaiterReturns | engine/src/postgres/pg_cache.hpp:245-258 | runs are bounded linearly in waiters and spurious wakeups, and a run that cannot go on has every `WaitForInit` returned |
| InitHandshake.BoundAfterFlag | engine/src/postgres/pg_cache.hpp:253-258 | once the flag is set only `2 + 5n` steps of any kind remain, spurious wakeups included |
| StartupThreads.DeadlockIff | engine/src/http_server/server_builder.cpp:43-61 | for any acyclic waits, some dispatch order hangs startup if and only if the pool is no larger than the number of caches that wait for another |
| StartupThreads.EnoughThreadsNeverDeadlock | engine/src/http_server/server_builder.cpp:56-59 | with more threads than waiting caches no reachable state is deadlocked |
| StartupThreads.TooFewThreadsDeadlock | engine/src/http_server/server_builder.cpp:56-59 | with fewer, a run that deadlocks is constructed |
| StartupThreads.AsManyThreadsAsCaches | engine/src/http_server/server_builder.cpp:46-56 | one thread per cache, as the code chooses, is always enough for acyclic waits |
| StartupThreads.StartupCompletes | engine/src/http_server/server_builder.cpp:43-61 | with one thread per cache every run is bounded, and one that cannot be extended has all caches initialised and all threads out of the event loop, so joining returns |
| StartupThreads.RunUsesWork | engine/src/http_server/server_builder.cpp:58-59 | every step of startup uses up exactly one unit of work |
| StartupThreads.InitialisedAfterItsWaits | src/caches/exchange_rates_cache.cpp:38-39 | in every reachable state an initialised cache has every cache it waits for initialised |
| Components.ComponentsContainer.Add | engine/src/components/components.cpp:8-15 | a null value is refused with an exception and nothing changes; an existing entry stays; otherwise exactly that entry is added |
| Components.ComponentsContainer.GetComponent | engine/src/components/components.hpp:28-56 | the recursive lookup leaves the container and the outcome that the specification function gives |
| Components.ComponentsContainer.MakeComponents | engine/src/http_server/server_builder.cpp:98-111 | the walk over the factory leaves the container and the outcome that the specification function gives, for any iteration order |
| Components.GetSound | engine/src/components/components.hpp:28-56 | whatever the factory, a `Get` only adds entries, of registered kinds and satisfiable requests, below the requested name; a returned instance is the one now stored |
| Components.ConstructSound | engine/src/components/components.hpp:41-44 | the same for a constructor in progress: nothing stored is replaced, only components of lesser rank are added |
| Components.MakeComponentsSucceedsIff | engine/src/http_server/server_builder.cpp:98-111 | for every acyclic factory and every iteration order, making the components succeeds if and only if every registered constructor requests only registered components of a matching type |
| Components.MakeComponentsBuildsEachOnce | engine/src/http_server/server_builder.cpp:98-111 | then exactly the registered components exist, each is constructed exactly once and after all it requested, and every constructor was handed, for its requests in order and once each, the one instance the container keeps, whatever the walk's order |
| Components.FailureIsGenuine | engine/src/components/components.hpp:33-52 | and otherwise the exception names a request that some registered constructor makes and that is really unregistered or of the wrong type |
| Containers.AssignedValue | src/caches/currencies_cache.cpp:43-51 | after inserting-or-assigning rows, a key holds its last row, else what it held |
| Containers.InsertedValue | src/caches/currencies_cache.cpp:22-31 | after inserting rows, a key holds what it held, else its first row |
| Containers.InsertIsAssign | src/caches/currencies_cache.cpp:15-53 | on rows with distinct keys the two ways of loading an empty container agree |
| Containers.AssignIsOverlay | src/caches/currencies_cache.cpp:43-51 | a batch acts on a container as the map union the refresh protocol uses, the batch winning |
| CurrenciesCaches.CurrenciesCache.UpdateCache | src/caches/currencies_cache.cpp:39-53 | all three containers get every row, the two by-id ones stay equal, the published list renders the whole map, and an empty batch changes nothing published |
| CurrenciesCaches.CurrenciesCache.FullUpdateCache | src/caches/currencies_cache.cpp:15-37 | the containers hold exactly the loaded rows, first row of a key, and the list is the rows in order, or the empty text; rows with distinct ids leave the cache as valid as an update does |
| CurrenciesCaches.CurrenciesCache.AllCurrenciesToJson | src/caches/currencies_cache.cpp:78-88 | for any iteration order the list holds every row once, and is the empty text for an empty map |
| CurrenciesCaches.CurrenciesCache.GetCurrencyByCode | src/caches/currencies_cache.cpp:69-76 | a found row has the code asked for up to the case of letters, and is found by id, even in the middle of an update; between updates every stored row is found under every spelling of its code, and nothing under any other text |
| CurrenciesCaches.BatchingDoesNotMatter | src/caches/currencies_cache.cpp:43-51 | two batches one after the other leave what the joined batch leaves |
| CurrenciesCaches.FullLoadIsUpdate | src/caches/currencies_cache.cpp:15-53 | on rows with unique keys a full load and an update of an empty cache give the same lookups, and the pushed list renders the same map |
| CurrenciesCaches.RenderingsAgree | src/caches/currencies_cache.cpp:78-88 | any two renderings of the same rows have the same multiset of entries |
| CurrenciesCaches.EveryCodeFindsItsRowIff | src/caches/currencies_cache.cpp:47-48 | every loaded row is found under its own code if and only if no two codes differ in case only |
| CurrenciesCaches.PostAdds | src/handlers/post_currencies.cpp:59-61 | a POST onto an upper-case table, field by field: refused where some row has the code in any spelling, or the id; otherwise one row is added, with the fields posted and the code in upper case |
| CurrenciesCaches.PostsKeepCodesApart | src/handlers/post_currencies.cpp:59 | over any run of POSTs onto an upper-case table, no two rows ever have codes that differ in case only |
| CurrenciesCaches.IndexIsByCode | src/caches/currencies_cache.hpp:26-31 | filled row by row, the case-insensitive hash table is at all times the plain map by upper-cased code, for any mixing function |
| CurrenciesCaches.PostedCurrenciesAreFound | src/caches/currencies_cache.cpp:69-76 | after any POSTs onto an empty table and any batches of its rows, in any order and with repeats, a lookup under any text finds exactly the row read whose code it spells, and once all rows are read it fails if and only if it spells no code of the table |
| CurrenciesCaches.PartialEnds | src/caches/currencies_cache.cpp:43-51 | the single container writes of an update add up to the whole update |
| CurrenciesCaches.ReadersDuringUpdate | src/caches/currencies_cache.cpp:43-51 | between any two container writes of an update a currency found by code is also found by id under the same code, and each lookup gives the old or a new row of its key |
| CurrenciesCaches.FoundByCodeThenById | src/caches/currencies_cache.cpp:60-76 | a currency found by code at one point of an update is found by id at every later point |
| CodeIndex.IEqualTo | engine/src/utils/case_insensitive_hash.hpp:13-19 | keys are equal if and only if their upper-cased forms are the same text |
| CodeIndex.EqualIffSameCode | engine/src/utils/case_insensitive_hash.hpp:13-19 | which is so if and only if they have the same length and differ at each position at most in that one has a letter of `a` to `z` where the other has the same letter in upper case |
| CodeIndex.IHash | engine/src/utils/case_insensitive_hash.hpp:21-32 | the loop computes a hash that depends only on the upper-cased form |
| CodeIndex.EqualCodesHashAlike | engine/src/utils/case_insensitive_hash.hpp:13-32 | two spellings of one code hash alike, whatever the mixing function |
| CodeIndex.HashAlikeIff | engine/src/utils/case_insensitive_hash.hpp:21-32 | with a mixing function that loses nothing, only they do |
| CodeIndex.AssignRefines | engine/src/utils/case_insensitive_hash.hpp:13-32 | insert-or-assign on the hash table is an update of the plain map it represents |
| CodeIndex.InsertRefines | engine/src/utils/case_insensitive_hash.hpp:13-32 | insert on the hash table lets an existing key be, whatever its spelling |
| ExchangeRatesCaches.ExchangeRatesCache.AllExchangeRatesToJson | src/caches/exchange_rates_cache.cpp:75-103 | while currencies are being added concurrently: every entry shows one rate under its id, with the currencies it names as base and target in their places, and its rate; no rate whose two currencies were known at the start is missing; the flag is false only if every currency was known at the end, and true only if some was missing at the start; otherwise the old list is returned |
| ExchangeRatesCaches.ExchangeRatesCache.UpdateCache | src/caches/exchange_rates_cache.cpp:38-56 | the update starts once the currencies cache is initialised; from any valid state, with or without rows, the state is valid again and stays so while currencies are added; the published list shows the rates field by field (`ShowsRates`), and if no currency arrived meanwhile it is a fresh rendering and, for a non-empty map, the flag is true exactly when some rate does not resolve |
| ExchangeRatesCaches.ExchangeRatesCache.FullUpdateCache | src/caches/exchange_rates_cache.cpp:18-36 | the same after a full load, from any previous state, valid or not |
| ExchangeRatesCaches.ExchangeRatesCache.GetExchangeRateByCurrPair | src/caches/exchange_rates_cache.cpp:63-73 | finds the one stored rate of the pair, and nothing if and only if no stored rate has it |
| ExchangeRatesCaches.ExactSurvivesGrowth | src/caches/exchange_rates_cache.cpp:80-82 | a list published without the flag stays an exact rendering while currencies are added, so reusing it is right |
| ExchangeRatesCaches.AssignOneKeepsInverseIff | src/caches/exchange_rates_cache.cpp:44-53 | loading a row keeps the pair index the inverse of the id index if and only if the row's id had this pair before and its pair this id, if any |
| ExchangeRatesCaches.WriteTableMeans | src/sql/sql.hpp:16-59 | what POST and PATCH do to the table, field by field: a POST with a free id and a free pair adds one row with the four fields and any other changes nothing; a PATCH sets the rate of the rows with its pair and nothing else |
| UniqueIndexes.PutKeepsInverseIff | src/caches/exchange_rates_cache.cpp:44-53 | the same of any container by id and any container by a further key |
| UniqueIndexes.AssignKeepsInverse | src/caches/currencies_cache.cpp:43-51 | loading rows of a table whose ids keep their unique keys keeps the two containers inverse |
| ExchangeRatesCaches.PairsAreForGood | db/curr_exchange.sql:20-23 | over any run of POSTs and PATCHes every id ever in the table keeps its pair and no two ids share one |
| ExchangeRatesCaches.PairIndexIsInverse | src/caches/exchange_rates_cache.cpp:18-56 | after any sequence of full and incremental updates on rows of any states the table passes through, the by-id containers agree and the pair index is exactly their inverse |
| AppliedRows.CacheIsOverlay | engine/src/postgres/pg_cache.hpp:121-126 | over any run, the protocol's cache is the applied batches laid one over the other |
| AppliedRows.AppliedFromHistory | engine/src/postgres/pg_cache.hpp:79-87 | whatever a run applies was read from some state of the table, timer errors or not |
| CacheRuns.ContainersFollowCache | engine/src/postgres/pg_cache.hpp:121-126 | over any run at all of the service's writes, whatever the order in which queries deliver rows, the concrete by-id container holds exactly the protocol's cache and the container by the further unique key is its inverse |
| CacheRuns.RatesFollowTable | src/caches/exchange_rates_cache.cpp:38-56 | end to end for the containers: after a quiet round at the end of any run of POSTs and PATCHes without timer errors, the by-id containers hold exactly the table and the pair index is their inverse |
| CacheRuns.ServeRun | src/caches/exchange_rates_cache.cpp:38-56 | end to end for the object: built empty and handed the batches of such a run, with any pauses and currencies arriving meanwhile, its containers are the table and its pair index, and what it publishes shows the table's rates field by field, base as base and target as target, against the currencies known during the last update; if none arrived during that, it is a fresh rendering, flagged exactly when some rate does not resolve |
| CacheRuns.CurrenciesFollowTable | src/caches/currencies_cache.cpp:39-53 | end to end: after a quiet round at the end of any run without timer errors the containers hold exactly the table's rows, each found by id and under its code |
| CacheRuns.ReadersOfAnyRun | src/caches/currencies_cache.cpp:43-51 | at any container write of any update of any run, a currency found by code is found by id under that code, and each lookup gives an old or a new row |
| CacheRuns.CurrenciesOnlyGrow | src/sql/sql.hpp:7-14 | over any run at all in which rows are only inserted, failed timers included, what the by-id container of the currencies shows to the rates cache only grows from each container write to the next: the assumption `Growing` holds |
| CacheRuns.ViewMoments | src/caches/currencies_cache.cpp:43-51 | the moments that this speaks of are all points between the container writes of all updates |
| CacheRuns.RateWriteIsKeyed | src/sql/sql.hpp:16-59 | every POST and PATCH of a rate is at most one write of the protocol that the pair's unique constraint allows; a PATCH writes if and only if some row has the pair, and then that row with the new rate; a POST if and only if its id and pair are free, and then a row with its four fields |
| CacheRuns.CurrencyPostIsKeyedInsert | src/sql/sql.hpp:7-14 | every POST of a currency is at most one insert of the protocol that the code's unique constraint allows, made if and only if no row has its code in any spelling or its id, of a row with the fields posted and the code in upper case |
| CacheRuns.ServePatch | src/caches/exchange_rates_cache.cpp:63-73 | end to end: after any run without timer errors, a PATCH of a stored pair and a quiet round, the cache answers the pair with the patched rate and every other pair as the table had it |
| CacheRuns.ServePost | src/caches/currencies_cache.cpp:69-76 | end to end: after any run without timer errors, a POST of a free code and a quiet round, the cache finds the posted row under every spelling of its code, every other row under every spelling of its own, and nothing else |
| CacheRuns.KeyedWritesSnoc | db/curr_exchange.sql:20-23 | what these results ask of a run's writes, write by write: each keeps a row's key or brings a new one |
| CacheRuns.RunOnStrand | engine/src/postgres/pg_cache.hpp:85-86 | the rates cache object run through any batches one after the other, with any pauses and currencies arriving meanwhile, ends valid, with the containers of all batches and the published list of the last |
| UrlCoding.UrlEncode | engine/src/utils/url_coding.cpp:23-37 | the loop computes the encoding that the results below are about |
| UrlCoding.UrlDecode | engine/src/utils/url_coding.cpp:39-61 | the loop computes the decoding, with truncated and malformed escapes kept |
| UrlCoding.DecodeEscape | engine/src/utils/url_coding.cpp:7-21 | a percent sign and two hexadecimal digits in either case decode to the byte they spell, unless that is 255, and then stay |
| UrlCoding.DecodeMalformed | engine/src/utils/url_coding.cpp:48-50 | a percent sign and two bytes that are not both digits stay as they are |
| UrlCoding.DecodeTruncated | engine/src/utils/url_coding.cpp:44-47 | a percent sign with fewer than two bytes after it stays, with them |
| UrlCoding.DecodePlain | engine/src/utils/url_coding.cpp:55-58 | any other byte stays; with the three rows before, every input is covered |
| UrlCoding.EncodeCases | engine/src/utils/url_coding.cpp:25-34 | encoding keeps the letters and digits of ASCII and turns any other byte into a percent sign and the two upper-case digits that spell it |
| UrlCoding.DecodeEncode | engine/src/utils/url_coding.cpp:14-61 | decoding an encoding gives the text back with each byte 255 turned into `%FF` |
| UrlCoding.RoundTripIff | engine/src/utils/url_coding.cpp:14-61 | the round trip is exact if and only if the text has no byte 255 |
| UrlCoding.EncodeInjective | engine/src/utils/url_coding.cpp:23-37 | different texts have different encodings, byte 255 included |
| UrlCoding.EncodeAlphabet | engine/src/utils/url_coding.cpp:23-37 | an encoding holds letters, digits and `%` only, hence no separator |
| UrlCoding.DecodeConcat | engine/src/utils/url_coding.cpp:39-61 | decoding goes piece by piece wherever the first piece does not end inside an escape |
| UrlCoding.CompleteIff | engine/src/utils/url_coding.cpp:39-61 | and only there: a first piece decodes by itself before every text if and only if it does not end inside an escape |
| UrlCoding.DecodeIdentityIff | engine/src/utils/url_coding.cpp:39-61 | decoding leaves a text alone if and only if its scan meets no percent sign followed by two hexadecimal digits other than those of 255; otherwise the text gets shorter |
| FormParser.ParseForm | engine/src/utils/x_www_form_urlencoded.cpp:9-33 | the loops compute the parse that the results below are about, exception included |
| FormParser.SplitJoin | engine/src/utils/x_www_form_urlencoded.cpp:13-14 | splitting takes apart exactly what joining separator-free pieces put together |
| FormParser.JoinSplit | engine/src/utils/x_www_form_urlencoded.cpp:13-14 | every text is its own pieces joined by separators |
| FormParser.ThrowsIff | engine/src/utils/x_www_form_urlencoded.cpp:21-28 | the parser throws if and only if some piece has two or more `=` |
| FormParser.ParseMeans | engine/src/utils/x_www_form_urlencoded.cpp:20-32 | any text spelt as fields parses to the map in which each decoded key has the decoded value of its first field, the empty value for a key without `=` |
| FormParser.ParsesIff | engine/src/utils/x_www_form_urlencoded.cpp:9-33 | a non-empty text parses if and only if it is spelt by some list of fields, so the previous row covers every text that parses |
| FormParser.RoundTrip | engine/src/utils/x_www_form_urlencoded.cpp:9-33 | encoded pairs joined by any mix of the two separators parse to the first value of each key, byte 255 becoming `%FF` |
| FormParser.ExactRoundTrip | engine/src/utils/x_www_form_urlencoded.cpp:9-33 | without byte 255 the round trip is exact |
| RateResolution.FoundBothWays | src/handlers/get_exchange.cpp:77-119 | a rate is found for (a, b) exactly when one is found for (b, a) |
| RateResolution.DirectionsInvertIff | src/handlers/get_exchange.cpp:77-119 | with non-zero rates the two directions multiply to one if and only if they are not both stored with another product |
| RateResolution.ResolvesIff | src/handlers/get_exchange.cpp:77-119 | over any stored rates: a rate is answered if and only if it solves the equation that the stored rates set and no zero is divided by; none is found if and only if nothing connects the currencies; a division by zero answers an equation that no number or every number solves |
| RateResolution.NeverDividesByZeroIff | src/calcs/calcs.cpp:9-14 | questions about some currencies never divide by zero if and only if, between two of them, every zero rate has its reverse stored and, where a zero rate leads from USD to one of them, each of them that USD leads to, that one included, has a stored rate to or from it |
| RateResolution.OppositeRate | src/handlers/get_exchange.cpp:77-119 | the other direction is answered with the reverse rate unless both are stored with another product |
| RateResolution.StoringARate | src/handlers/get_exchange.cpp:77-119 | storing one rate decides its own pair and, unless stored itself, the reverse pair, and changes no other answer but those that go through USD by this rate |
| RateResolution.EveryBranchGivesTheRatio | src/handlers/get_exchange.cpp:77-119 | if stored rates are ratios of prices, whichever branch answers gives the price ratio |
| RateResolution.PathRateIs | src/calcs/calcs.cpp:5-14 | a path of currencies can be converted if and only if each of its steps can, at the product of the rates |
| RateResolution.PathsCompose | src/calcs/calcs.cpp:5-14 | no arbitrage: along any path of currencies, with any mix of branches, conversions compose to the ratio of the end prices, and to one round a cycle |
| RateResolution.PrintedIsMonotone | src/handlers/get_exchange.cpp:82-88 | at a positive rate a larger amount never prints a smaller result |
| RateResolution.NearestIff | src/handlers/get_exchange.cpp:82-88 | a printed number is the nearest hundredth, and the even one of two equally near |
| RateResolution.RoundTripBound | src/handlers/get_exchange.cpp:94-104 | converting, printing, converting back and printing returns the amount to within 1/200 + 1/(200 rate) when products and divisions are exact, and to within `RoundTripError` when each of them has a relative error of up to eps |
| RateResolution.ThereAndBackIsExactIff | src/handlers/get_exchange.cpp:94-104 | all whole numbers of hundredths come back exactly if and only if the rate is at least one |
| ExchangeHandler.AnswersTheQuestion | src/handlers/get_exchange.cpp:69-163 | the whole handler over any query and any stored rates: which queries are refused and why, which answer every other gets, in both directions, with codes known up to the case of letters, and that rate, amount and their product are printed to within half a hundredth of the numbers that the stored rates determine |
| ExchangeHandler.AnswersThePriceRatio | src/handlers/get_exchange.cpp:69-163 | over rates that are ratios of prices the answer is finite and is that ratio |
| ExchangeHandler.ZeroRateIsNotFinite | src/handlers/get_exchange.cpp:92-104 | a table with one stored zero rate and a question whose answer is not a finite number |
| ExchangeHandler.NotFiniteIff | src/handlers/get_exchange.cpp:92-119 | some question is answered without a finite number if and only if some text is a number and a zero rate is not shadowed, in the sense of `NeverDividesByZeroIff`, among the currencies with a three-letter code, whatever other codes there are |
| ExchangeHandler.OppositeQuestion | src/handlers/get_exchange.cpp:69-138 | swapping the two currencies never changes whether parameters, currencies and a rate are found |
| ExchangeHandler.ThereAndBackByRequest | src/handlers/get_exchange.cpp:77-105 | two requests, the second with the printed answer of the first the other way, whichever branches answer: at a positive rate, unless both directions are stored with a product other than one, the amount returns within the rounding bound, and whole hundredths exactly at rates of at least one |
| ExchangeHandler.ThereAndBackAtThePriceRatio | src/handlers/get_exchange.cpp:77-119 | in particular over any rates that are ratios of prices |
| FilterChain.HttpFilterContextsMap.AddFront | engine/src/http_server/http_filter_ctxs_map.cpp:11-14 | the context goes to the front of its handler's list and no other list changes |
| FilterChain.HttpFilterContextsMap.DoFiltersAndHandler | engine/src/http_server/http_filter_ctxs_map.cpp:21-29 | nothing happens without filters, otherwise the front context runs |
| FilterChain.FillFilterCtxsMap | engine/src/http_server/server_builder.cpp:17-41 | the backward loop leaves one context per configured name, in the configured order, each with the filter registered under the name and the handler, each linked to the next and the last to none, in front of what was there; it throws if and only if some filter is not registered |
| FilterChain.BuildAndServe | engine/src/http_server/request_handler.hpp:39-44 | built and served: without filters the handler itself runs, otherwise the chain; where filters are registered under their own names and call on at most once, the filters entered are the configured names themselves, in order, up to the first whose filter does not call `Next`, and the handler runs once unless that one calls nothing |
| FilterChain.ChainRunsInOrder | engine/src/http_server/http_filter_context.cpp:15-40 | filters entered are exactly the configured prefix up to the first that does not call on, and the handler runs once or not at all, as the last one entered decides |
| FilterChain.ReachedStops | engine/src/http_server/http_filter_context.cpp:15-29 | that prefix ends at the first filter that does not call `Next`, or is the whole list |
| FilterChain.NothingEscapesIff | engine/src/http_server/http_filter.cpp:6-23 | no exception leaves any chain if and only if the exceptions handler does not throw, or a null pointer stops the request first |
| FilterChain.NullPointers | engine/src/http_server/http_handler.cpp:6-22 | with a null request or response a chain does what the bare handler would: close the connection once, or nothing |
| FilterChain.InnermostHandles | engine/src/http_server/http_filter.cpp:18-22 | for filters of any behaviour, wherever they or the handler throw: every exception is handled by the innermost guarded call around it, and everything outside sees a normal return |
| FilterChain.CatchBlocksAreDead | engine/src/http_server/http_filter.cpp:18-22 | so replacing the catch blocks that filters put around their calls, by anything, changes nothing |
| FilterChain.WhereACallGoesOn | engine/src/http_server/http_filter_context.cpp:15-40 | with an exceptions handler that throws: after a call a filter goes on in its catch block if and only if an exception left the call, and what follows is what a filter beginning there would do |
| FilterChain.EachExceptionHandledOnce | engine/src/http_server/http_handler.cpp:17-21 | over any chain, exceptions are handled exactly as many times as bodies that throw were run |

## Left out

- The full updater beside the incremental one: as declared (`engine/src/postgres/pg_cache.hpp:263`)
  it binds a parameter to a query that takes none; `FullUpdateCache` is modelled as a sequential call.
- A failing init query, which throws on a pool thread: startup assumes the init queries succeed.
- Cancellation of a pending wait when a timer is set again, strand internals and the internals of the
  concurrent hash maps: each timer, apply and container operation is one step.
- Clock skew between service and database, long transactions and the text form of timestamps.
- Deletes and direct edits of the tables: the service makes none.
- JSON text: a rendering is the empty text, `null` or a list of entries.
- Rates and amounts that are not finite numbers to begin with, such as a stored `NaN`.
- The digits of 50-digit decimals, except for a relative error of each product and division in the
  round trip, and number parsing: which texts are numbers is a parameter.
- HTTP sessions, the listener, URL routing, the Postgres client, signals, logging, YAML and the
  command line; tables of status codes, methods and content types.
- Response sending in the POST and PATCH handlers; they appear only as the writes they make and the
  upper-casing before them.  A missing return (`src/handlers/post_currencies.cpp:86`) allows a second
  send there.
- A context without a handler: the builder makes none.
- Circular component dependencies, on which the original recurses without end, and circular waits.
- `engine/src/utils/factory.hpp`: registration and lookup are a map from names to registrations.
- CurrenciesCaches.CurrenciesCache.GetCurrencyByCode: the class keeps the plain map by upper-cased
  code; that the hash table answers every lookup the same way is `IndexIsByCode`.
