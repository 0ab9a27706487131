# Shortkit, verified

A Dafny model of the parts of Shortkit, a multi-tenant URL shortener, whose documentation makes claims
about every run: the redirect cache and its invalidation, the tenant transaction and its after-commit
hooks, the click buffer and flusher, the two bounded in-process stores, invitation acceptance, and six
smaller components. `dafny verify dfyconfig.toml` checks all of it.

Code that changes state step by step is a class whose methods keep the source's loops and branches and
are proved equal to a function of the old state; histories, interleavings and round trips are then
proved about those functions. Clocks, random draws, fault outcomes and the answers of Postgres and Redis
are parameters, so every theorem holds for all of them.

| file | what it models |
|---|---|
| `RedirectProtocol.dfy` | every interleaving of requests, expiries, link mutations and their two deletion passes |
| `ReadThrough.dfy`, `RedirectCache.dfy`, `CacheRecords.dfy`, `SlugKeys.dfy` | one request: decision, cache commands, records and their JSON, slugs and keys |
| `CacheInvalidation.dfy`, `LinkMutationEvents.dfy` | the invalidator and the dispatch of link mutations |
| `InvalidationRefinement.dfy` | the invalidator's loops as runs of the protocol |
| `TenantTransaction.dfy`, `TenantHooks.dfy`, `TenantScope.dfy` | `withTenantTransaction` as an interpreter over trees of frames: its hooks, and whose work it does |
| `ClickBuffer.dfy`, `ClickFlush.dfy` | the bounded buffer, its event loop, grouping and the idempotent write |
| `RateLimiter.dfy`, `RateLimiterHistory.dfy`, `EmailRateLimit.dfy` | the fixed-window limiter, its histories, the email hook pair |
| `RevocationStore.dfy`, `OrderedMaps.dfy` | the revocation store, and JavaScript's insertion-ordered `Map` |
| `Invitations.dfy` | accept and revoke, as calls and as concurrent transactions |
| `LogCensor.dfy`, `ClickPagination.dfy`, `SlugRedraw.dfy`, `UuidV7.dfy` | the log censor, keyset pages, the savepoint loop, UUID v7 |
| `Options.dfy`, `Texts.dfy` | what they share |

## Where the code and its documentation disagree

The model follows the code.

- Two overlapping edits of one link read the same pre-image, so a key can be left that no pass deletes
  (`apps/api/src/links/links.service.ts:254`, `:293`): `RedirectProtocol.OverlappingEditsLeaveAKey`. Every
  run through a commit is safe exactly when the pre-image is still current at the commit
  (`RedirectProtocol.SafeIffPreImageIsCurrent`), which mutations of one link taken one after another
  always find (`RedirectProtocol.SerialRunsAreCurrent`).
- A cached host carries "no branding", so a bound branding port is not asked and its answer is not
  rendered (`apps/api/src/redirect/redirect.service.ts:376-386`): `ReadThrough.RedirectService.Resolve`
  states exactly when the decision is the database's.
- A hook is promised for committed work (`apps/api/src/tenancy/tenant-context.ts:239-240`). When code
  inside the transaction swallows a failed statement, COMMIT returns, hooks run and nothing is stored;
  when it swallows a frame that threw after a write, the row is stored and that frame's hook does not
  run. Examples: `TenantHooks.SwallowedStatementKeepsNothing`, `TenantHooks.SwallowedFrameKeepsItsRow`.
  Exactly: `TenantHooks.CommittedRowsAreKeptIffNoneFailed`, and for a link mutation
  `TenantHooks.GuardedMutation` and `TenantHooks.StoredIffAnnounced`.
- A message is said to leave no remnant under `err_stack`
  (`apps/api/src/observability/logger.ts:886-887`). An error renamed after its stack was captured keeps
  its captured header, and a line of it shaped like a frame survives. `BootPreconditionError`
  (`apps/api/src/main.ts:105-113`) renames itself so and carries a caught error's message (`:367`):
  `LogCensor.RenamedErrorLeavesARemnant`. For every name that does not begin with "E" and every message:
  `LogCensor.RenamedErrorKeepsTheLine`. Exactly when nothing is left: `LogCensor.ReducedIgnoresTheHeadIff`.
- An accept that loses to a revocation reports that the invitation was already accepted
  (`apps/api/src/invitations/capability-lookup.ts:276-280`): `Invitations.LosingToARevokeReportsAccepted`.
  The report is true exactly when an accept committed: `Invitations.ConsumeFailsIffDecided`.
- The id after a borrowed millisecond falls back to the clock and sorts before its predecessor, contrary
  to `apps/api/src/clicks/uuid-v7.ts:14-18`: at 2051 ids in one millisecond `UuidV7.OneMoreDrawFallsBack`.
  Up to 2050 ids a millisecond, the last of them borrowed, the promise holds: `UuidV7.PacedIdsIncrease`.
- A flush is said to close the open window (`apps/api/src/clicks/click-event-buffer.ts:293`) and does
  not: the window stays armed until it fires, possibly over an empty buffer
  (`ClickBuffer.WindowOutlivesTheFlush`, `ClickBuffer.WindowStaysArmed`).

## Model

| member | source | states |
|---|---|---|
| `RedirectProtocol.StaleOnlyByALateWrite` | apps/api/src/links/cache-invalidation.subscriber.ts:46-69 | in every interleaving in which commits find their pre-image current, each cached value is one Postgres held at its fill's read, and for every later commit to the key, once its first pass deleted everything the fill's write landed after the deletion, and once its second pass did the fill took a full delay or more |
| `RedirectProtocol.FreshAfterTheSecondPass` | apps/api/src/links/cache-invalidation.subscriber.ts:46-69 | when every mutation's second pass ran and the fill was quicker than the delay, the cache holds the current row or absence |
| `RedirectProtocol.Reachable` | apps/api/src/links/cache-invalidation.subscriber.ts:293-420 | every step of readers, writers, expiry and failing cache commands keeps the five-part invariant |
| `RedirectProtocol.SafeIffPreImageIsCurrent` | apps/api/src/links/links.service.ts:253-299 | from every state that keeps the invariant, every run through a commit is safe iff the commit finds its link at the slug the unlocked load saw, or moves it to where it already stands |
| `RedirectProtocol.OvertakenCommitLeavesAKey` | apps/api/src/links/links.service.ts:253-299 | otherwise a run exists in which every pass of the mutation succeeds, the fill takes no time, and the cache goes on serving a slug the table no longer holds |
| `RedirectProtocol.SerialRunsAreCurrent` | apps/api/src/links/links.service.ts:253-299 | mutations of each link taken one after another always find their pre-image current, so both theorems apply to them |
| `RedirectProtocol.SerialRunsAreFresh` | apps/api/src/links/cache-invalidation.subscriber.ts:46-69 | their second passes leave the cache fresh |
| `RedirectProtocol.OverlappingEditsLeaveAKey` | apps/api/src/links/links.service.ts:253-299 | a concrete run in which two overlapping edits leave a stale key although every pass succeeded |
| `CacheInvalidation.KeysToInvalidate` | apps/api/src/links/cache-invalidation.subscriber.ts:155-173 | exactly the keys of the two images, each once, the pre-image's first |
| `CacheInvalidation.CacheInvalidationSubscriber.DeleteEach` | apps/api/src/links/cache-invalidation.subscriber.ts:401-420 | a round tries every key whatever failed before, removes what was deleted and reports the rest in order |
| `CacheInvalidation.CacheInvalidationSubscriber.Handle` | apps/api/src/links/cache-invalidation.subscriber.ts:293-345 | stops at the first round by which all keys are deleted and schedules the whole set, gives up with one line exactly when three rounds do not suffice, and sleeps 0, 200 or 1200 ms |
| `CacheInvalidation.CacheInvalidationSubscriber.SecondPass` | apps/api/src/links/cache-invalidation.subscriber.ts:373-391 | one round over the whole set, a line iff a key was not deleted, other keys untouched |
| `CacheInvalidation.RoundAdvances` | apps/api/src/links/cache-invalidation.subscriber.ts:298-321 | what a round leaves pending is exactly what no round so far deleted |
| `CacheInvalidation.EndsAtTheFirst` | apps/api/src/links/cache-invalidation.subscriber.ts:293-321 | the first pass ends at the first round by which every key was deleted, and is given up iff three rounds do not suffice |
| `InvalidationRefinement.HandleIsARun` | apps/api/src/links/cache-invalidation.subscriber.ts:293-345 | called after a commit, `Handle` does to its cache, in the time it sleeps, what a run of protocol steps does, which ends waiting for the second pass iff it scheduled one; so the protocol's theorems hold of what it leaves |
| `InvalidationRefinement.SecondPassIsARun` | apps/api/src/links/cache-invalidation.subscriber.ts:373-391 | and so does the second pass, in whatever state the protocol is when the delay is over; the mutation counts as swept iff every key was deleted |
| `InvalidationRefinement.FirstPassIsARun` | apps/api/src/links/cache-invalidation.subscriber.ts:293-321 | from any round, the rounds and the sleeps between them are a run that touches nothing but the mutation's keys and ends as the loop ends |
| `InvalidationRefinement.RoundIsARun` | apps/api/src/links/cache-invalidation.subscriber.ts:401-420 | a round is one protocol deletion for each key, in order, with the failures the loop collects |
| `InvalidationRefinement.EveryFirstPassEndsAsHandle` | apps/api/src/links/cache-invalidation.subscriber.ts:293-345 | conversely, in every interleaving a committed mutation's first pass ends as the loop ends that meets the same replies, and never in a later round |
| `LinkMutationEvents.LinkMutationRegistry.OnLinkMutated` | apps/api/src/links/link-mutation.events.ts:99-108 | refuses a name already registered and otherwise appends |
| `LinkMutationEvents.LinkMutationRegistry.RunInTransactionSubscribers` | apps/api/src/links/link-mutation.events.ts:122-131 | calls in registration order up to the first that throws, and throws iff one does |
| `LinkMutationEvents.LinkMutationRegistry.RunAfterCommitSubscribers` | apps/api/src/links/link-mutation.events.ts:144-162 | calls every after-commit subscriber in order and logs each that throws as often as it was called, and no other |
| `LinkMutationEvents.DispatchCallsEachOnce` | apps/api/src/links/link-mutation.events.ts:144-162 | a dispatch reaches each subscriber of its phase once and no other |
| `ReadThrough.RedirectService.Resolve` | apps/api/src/redirect/redirect.service.ts:140-177 | over the database, the clock and the port: a redirect to the stored row's destination iff the host is active and a link in its window stands under the segment; else the known branding's fallback iff it names one; else a 404 carrying the stored host. With entries that agree with the database the decision is the direct one iff no unbranded cached host hides the port's branding; agreement is kept; at most one transaction |
| `ReadThrough.DirectIsDecided` | apps/api/src/redirect/redirect.service.ts:140-177 | the resolution from Postgres alone meets the same description of each answer |
| `ReadThrough.DecidedOnce` | apps/api/src/redirect/redirect.service.ts:140-177 | and that description admits one answer only |
| `ReadThrough.RedirectService.ReadThrough` | apps/api/src/redirect/redirect.service.ts:184-200 | host and link are those Postgres holds, with the exact transactions and statements the two lookups leave necessary, and a cache that makes the next request free |
| `ReadThrough.RedirectService.FillBoth` | apps/api/src/redirect/redirect.service.ts:203-219 | one transaction resolves and fills both keys, nothing at the link key for an unknown host |
| `ReadThrough.RedirectService.FillHost` | apps/api/src/redirect/redirect.service.ts:230-263 | one transaction in every branch; a record is served only for the domain that resolves |
| `ReadThrough.RedirectService.LinkForCachedHost` | apps/api/src/redirect/redirect.service.ts:270-289 | no transaction for a sentinel or a record of the host's domain, one otherwise |
| `ReadThrough.RedirectService.PutLink` | apps/api/src/redirect/redirect.service.ts:306-316 | keeps agreement and writes nothing for a bound that cannot be read |
| `ReadThrough.RedirectService.NotFoundFor` | apps/api/src/redirect/redirect.service.ts:376-422 | branding from the record for a cached host, from the port otherwise, nothing when it throws |
| `ReadThrough.LosingKeysKeepsAgreement` | apps/api/src/redirect/redirect.service.ts:184-200 | expiry and eviction cannot break agreement |
| `ReadThrough.RedirectReadRepository.ResolveByHostAndSlug` | apps/api/src/redirect/redirect-read.repository.ts:96-113 | the active host and the link on it in one transaction |
| `ReadThrough.RedirectReadRepository.ResolveHostKeepingLinkOn` | apps/api/src/redirect/redirect-read.repository.ts:130-151 | the link too, unless the domain is the one the caller holds a record for |
| `RedirectCache.RedisRedirectCache.GetLink` | apps/api/src/cache/redirect-cache.ts:189-254 | a miss iff the sentinel is stored and a record iff the stored text carries exactly its fields; absent, failed and undecodable are unavailable |
| `RedirectCache.RedisRedirectCache.SetHost` | apps/api/src/cache/redirect-cache.ts:177-183 | changes what the cache says of that hostname and of nothing else, for 300 s |
| `RedirectCache.RedisRedirectCache.SetLink` | apps/api/src/cache/redirect-cache.ts:193-199 | changes what the cache says of that hostname and slug and of nothing else, for the link's lifetime |
| `RedirectCache.RedisRedirectCache.DelLink` | apps/api/src/cache/redirect-cache.ts:275-285 | rejects exactly when the deletion was not confirmed |
| `RedirectCache.WrittenIsRead` | apps/api/src/cache/redirect-cache.ts:217-272 | whatever is written is read back, through text, as what it was |
| `CacheRecords.TtlEndsWithTheWindow` | apps/api/src/cache/redirect-cache.ts:116-123 | a lifetime is 1 to 3600 s, outlives a bound ahead by less than a second, and is under an hour only to end with one |
| `CacheRecords.LinkDecoderIsExact` | apps/api/src/cache/redirect-cache.ts:324-336 | the decoder admits exactly the objects that carry a record's fields, and reads that record |
| `CacheRecords.HostDecoderIsExact` | apps/api/src/cache/redirect-cache.ts:288-322 | the same for a host's record and its branding |
| `CacheRecords.BoundMeans` | apps/api/src/redirect/cache-records.ts:46-113 | a number read back is its whole part towards zero, or an unreadable bound past what a date can hold |
| `CacheRecords.LinkRoundTrip` | apps/api/src/redirect/cache-records.ts:76-113 | a link is cached iff its bounds can be read, and then comes back as it was |
| `CacheRecords.HostRoundTrip` | apps/api/src/redirect/cache-records.ts:46-73 | every host record decodes and maps back to its host |
| `SlugKeys.PatternMeans` | packages/contracts/src/slug.ts:21 | `SLUG_PATTERN` matches exactly one to 64 slug characters with no separator at either end |
| `SlugKeys.AcceptedIffShapedAndFree` | packages/contracts/src/slug.ts:89-114 | validation succeeds, verbatim, iff the pattern matches and the word is not reserved, and every accepted slug passes the redirect's step 0 |
| `SlugKeys.ViolationSays` | packages/contracts/src/slug.ts:89-114 | which rule a refused input is told it breaks, each iff its own condition and no earlier one holds |
| `SlugKeys.ReservedIsReportedIffShaped` | packages/contracts/src/slug.ts:136-140 | `reserved` is reported exactly for well-shaped spellings of a reserved word, and no spelling is accepted |
| `SlugKeys.FourNeverReportReserved` | packages/contracts/src/slug.ts:84-88 | four reserved words are refused on an earlier rung in every spelling |
| `SlugKeys.ResolvableIsColonFree` | apps/api/src/redirect/redirect.service.ts:430-432 | a slug that passes step 0 holds no colon |
| `SlugKeys.LinkKeyInjective` | apps/api/src/cache/redirect-cache.ts:135-137 | a link key names its namespace, hostname and slug, even for hostnames with colons |
| `SlugKeys.HostKeyInjective` | apps/api/src/cache/redirect-cache.ts:130-132 | a host key names its namespace and hostname |
| `SlugKeys.LinkKeyIsNoHostKey` | apps/api/src/cache/redis-client.ts:56-64 | with colon-free namespaces no link key is a host key |
| `TenantTransaction.Process.WithTenantTransaction` | apps/api/src/tenancy/tenant-context.ts:200-272 | a root frame does what its tree means: validates, opens, runs, commits or rolls back, settles, drains the hooks |
| `TenantTransaction.Process.Nested` | apps/api/src/tenancy/tenant-context.ts:172-198 | a nested frame joins an unsettled context of its own tenant and enqueues its hook once its body resolved; an id that is no uuid, a settled context and a foreign tenant are refused, each with its own error and nothing changed |
| `TenantScope.OnlyTheRootsTenant` | apps/api/src/tenancy/tenant-context.ts:178-185 | in any root's log every frame that resolves and every read names the root's own tenant |
| `TenantScope.ForeignBodiesNeverRun` | apps/api/src/tenancy/tenant-context.ts:183-185 | with any other body in a foreign frame, or one that names no uuid, the root ends with the same rows and the same log |
| `TenantScope.CommitsIffFlawless` | apps/api/src/tenancy/tenant-context.ts:172-241 | a root whose tree swallows nothing commits iff BEGIN and COMMIT return and nothing in the tree fails, throws or names another tenant, and otherwise logs the first flaw last before its rollback |
| `TenantScope.ForeignFrameUndoesAll` | apps/api/src/tenancy/tenant-context.ts:183-185 | a tree that swallows nothing and calls a foreign frame at any depth stores nothing and runs no hook |
| `TenantScope.StoredIsWritten` | apps/api/src/tenancy/tenant-context.ts:218-241 | a commit stores the rows the log says were written, in order, or none if a statement failed, after which nothing is written; without a commit nothing is stored |
| `TenantScope.HooksReportTheirThrows` | apps/api/src/tenancy/tenant-context.ts:241-269 | a hook run is logged as thrown iff the frame's hook throws |
| `TenantHooks.HooksRunInOrderAfterCommit` | apps/api/src/tenancy/tenant-context.ts:228-269 | the log ends with the hook runs, after settling: none without a commit, else the root's and then the resolved frames' in completion order, whatever any threw |
| `TenantHooks.HookRunsIffResolvedAndCommitted` | apps/api/src/tenancy/tenant-context.ts:187-198 | a hook runs exactly as often as its frame resolved if the root committed, never otherwise, and at most once for each place in the tree |
| `TenantHooks.SettledRefusesEverything` | apps/api/src/tenancy/tenant-context.ts:328-342 | on a settled context no read and no join succeeds and nothing changes |
| `TenantHooks.AllOrNothing` | apps/api/src/tenancy/tenant-context.ts:187-198 | when nothing swallows a failure, every row is stored and every hook runs, or none |
| `TenantHooks.CommittedRowsAreKeptIffNoneFailed` | apps/api/src/tenancy/tenant-context.ts:239-241 | after a commit the rows written are stored iff no statement failed on the way |
| `TenantHooks.SwallowedStatementKeepsNothing` | apps/api/src/tenancy/tenant-context.ts:239-241 | a concrete tree in which COMMIT returns, the hook runs and nothing is stored |
| `TenantHooks.SwallowedFrameKeepsItsRow` | apps/api/src/tenancy/tenant-context.ts:187-198 | a concrete tree whose swallowed frame leaves its row stored and its hook unrun |
| `TenantHooks.MutationRuns` | apps/api/src/links/links.service.ts:337-369 | in any live context a link mutation stages its row iff the transaction is not aborted and queues its after-commit work iff, besides, its in-transaction subscribers resolve, whatever statements, frames and guards they run |
| `TenantHooks.InvalidatorRunsIffCommitted` | apps/api/src/links/links.service.ts:337-369 | a link mutation's after-commit work runs iff the request committed, whatever its subscribers do and the code before and after it catches, and its row is stored iff, besides, no statement failed |
| `TenantHooks.GuardedMutation` | apps/api/src/links/links.service.ts:337-369 | inside a guard the row is stored without the after-commit work exactly when the work of the in-transaction subscribers throws, the request commits and no statement failed |
| `TenantHooks.StoredIffAnnounced` | apps/api/src/links/links.service.ts:337-369 | wherever in a tree of frames and guards the mutation stands, its row is stored iff its after-commit work runs and no statement failed, as long as its subscribers resolve in a transaction that is not aborted |
| `TenantHooks.DetachedHookRunsIffPushedInTime` | apps/api/src/tenancy/tenant-context.ts:190-241 | of frames nobody awaits, those that joined before the root settled and resolved before it found the queue drained have their hooks run, in resolution order, and no other |
| `TenantHooks.RolledBackRunsNothing` | apps/api/src/tenancy/tenant-context.ts:228-241 | no hook of a root that rolled back runs, whatever still resolves inside it |
| `ClickBuffer.ClickEventBuffer.Enqueue` | apps/api/src/clicks/click-event-buffer.ts:170-199 | buffers, as the newest, an event with the minted id and hash, the request's link, domain, tenant and instant and its agent cut to 512 units; evicts the oldest over either bound and arms the turn's trigger from 100 events, the window below; or loses the event alone |
| `ClickBuffer.ClickEventBuffer.EvictWhileOverCapacity` | apps/api/src/clicks/click-event-buffer.ts:311-329 | drops `Shed` of the oldest events and accounts for each |
| `ClickBuffer.ShedIsLeast` | apps/api/src/clicks/click-event-buffer.ts:311-329 | eviction drops the shortest prefix that leaves the rest within both bounds |
| `ClickBuffer.ClickEventBuffer.BeginDrain` | apps/api/src/clicks/click-event-buffer.ts:222-233 | takes the whole buffer, empties it first and groups it by tenant |
| `ClickBuffer.ClickEventBuffer.SettleGroup` | apps/api/src/clicks/click-event-buffer.ts:230-232 | writes or gives up the next group and leaves what arrived meanwhile |
| `ClickBuffer.FromTheStart` | apps/api/src/clicks/click-event-buffer.ts:170-233 | over every interleaving: exact byte count, both caps, the buffer a FIFO suffix of what came in since the last drain, buffered = enqueued - evicted - in flight - written - failed, and a trigger or drain for a non-empty buffer |
| `ClickBuffer.OwnEventStays` | apps/api/src/clicks/click-event-buffer.ts:170-199 | in every reachable state the newest event after an enqueue tells of its own request: eviction never reaches it |
| `ClickBuffer.EnqueuedTellOfRequests` | apps/api/src/clicks/click-event-buffer.ts:170-199 | over every run what came in is one event for each request not lost, telling of it, in their order |
| `ClickBuffer.NoStrandedClick` | apps/api/src/clicks/click-event-buffer.ts:281-304 | from every reachable state what is already armed or queued suffices to take the buffer |
| `ClickBuffer.WindowStaysArmed` | apps/api/src/clicks/click-event-buffer.ts:294-304 | nothing but its own firing disarms the window |
| `ClickBuffer.WindowOutlivesTheFlush` | apps/api/src/clicks/click-event-buffer.ts:208-233 | from every reachable idle state a click, a flush and its drain leave the window armed over an empty buffer |
| `ClickFlush.GroupByTenant` | apps/api/src/clicks/click-event-buffer.ts:419-435 | the loop builds the grouping the partition theorem is about |
| `ClickFlush.GroupsPartitionTheBatch` | apps/api/src/clicks/click-event-buffer.ts:419-435 | one group for each tenant of the batch, its events in their order, nothing lost or added |
| `ClickFlush.ClickEventWriter.Attempt` | apps/api/src/clicks/click-event-buffer.ts:250-258 | one transaction over chunks of at most 1000 rows, the least number of statements, none refused by the wire or by the tenant check |
| `ClickFlush.InsertedHolds` | apps/api/src/clicks/click-event.writer.ts:45-64 | an append keeps every row there was, adds a row for each id that had none, and never a second row for an id |
| `ClickFlush.ClickEventWriter.WriteGroup` | apps/api/src/clicks/click-event-buffer.ts:250-273 | two attempts at most; the rows are there once iff either attempt committed, whatever it reported |
| `ClickFlush.InsertIsIdempotent` | apps/api/src/clicks/click-event.writer.ts:45-64 | re-sending a group changes nothing |
| `ClickFlush.EachEventOnceIffItsGroupLanded` | apps/api/src/clicks/click-event-buffer.ts:222-273 | after a drain of fresh ids an event is in the table, itself and once, iff its own tenant's group committed, and no row has its id otherwise |
| `ClickFlush.NewRowsAreTheBatchs` | apps/api/src/clicks/click-event-buffer.ts:222-273 | a row that was not there before is an event of the batch whose tenant's group committed |
| `RateLimiter.LocalAuthRateLimiter.Check` | apps/api/src/auth/auth-rate-limit.ts:215-250 | charges the key's window, re-inserts it last, evicts one entry of a full map, and judges the new count |
| `RateLimiter.LocalAuthRateLimiter.Release` | apps/api/src/auth/auth-rate-limit.ts:259-273 | gives one charge back in the charge's own window |
| `RateLimiter.LocalAuthRateLimiter.SweepExpired` | apps/api/src/auth/auth-rate-limit.ts:295-305 | keeps exactly the entries whose window has not elapsed, in order, in every bucket |
| `RateLimiter.EvictOne` | apps/api/src/auth/auth-rate-limit.ts:313-332 | removes the entry the victim theorem is about |
| `RateLimiterHistory.OrderIsLastCheck` | apps/api/src/auth/auth-rate-limit.ts:215-250 | after any history the map is in last-check order and holds at most 10,000 keys |
| `RateLimiterHistory.VictimIsLeastRecent` | apps/api/src/auth/auth-rate-limit.ts:313-332 | an at-limit entry is evicted only when every entry is, and otherwise the least recently checked under-limit one |
| `RateLimiterHistory.CountIsTally` | apps/api/src/auth/auth-rate-limit.ts:215-273 | an entry not evicted counts exactly like an unbounded counter for each key and window |
| `RateLimiterHistory.VerdictIsTheUnboundedOne` | apps/api/src/auth/auth-rate-limit.ts:236-249 | lazy dropping and sweeping answer like that counter |
| `RateLimiterHistory.BucketRefuses` | apps/api/src/auth/ports/auth-rate-limit.port.ts:44-53 | each bucket refuses from its own limit on, in windows of its own length |
| `RateLimiterHistory.NothingEvictedIffRoom` | apps/api/src/auth/auth-rate-limit.ts:225-234 | no entry of any key or window is ever evicted iff at every check the map holds the key or fewer than 10,000 keys |
| `RateLimiterHistory.BelowTheCap` | apps/api/src/auth/auth-rate-limit.ts:225-234 | a process that checked at most 10,000 distinct keys always finds that room |
| `RateLimiterHistory.CountAfterRelease` | apps/api/src/auth/auth-rate-limit.ts:259-273 | a release never touches another key or window |
| `RateLimiterHistory.OutstandingWithinLimit` | apps/api/src/auth/auth-rate-limit.ts:215-273 | admitted and not released never exceeds the limit |
| `RateLimiterHistory.RetryLandsLater` | apps/api/src/auth/ports/auth-rate-limit.port.ts:71-81 | the retry delay is 1 to windowSeconds and the least number of seconds that lands in a later window |
| `RateLimiterHistory.SuccessNeverRefused` | apps/api/src/auth/auth-rate-limit.ts:259-273 | a sequential run of only successes is never refused, whatever other keys do |
| `EmailRateLimit.EmailRateLimitHooks.Before` | apps/api/src/auth/email-rate-limit-hook.ts:188-239 | charges the email bucket, refuses with the limiter's delay, and hands an admitted charge over under the request's own scope, leaving every other hand-over |
| `EmailRateLimit.EmailRateLimitHooks.After` | apps/api/src/auth/email-rate-limit-hook.ts:247-292 | takes the hand-over in every case and releases it on success only |
| `EmailRateLimit.StoredCountIsAttemptsMinusRefunds` | apps/api/src/auth/email-rate-limit-hook.ts:188-292 | over any interleaving of hooks and sweeps the stored count is attempts minus refunds |
| `EmailRateLimit.RefusedIffFiveStand` | apps/api/src/auth/email-rate-limit-hook.ts:208-228 | over any interleaving a request is refused iff five attempts of the window or more are not given back, with a delay of 1 to 900 s that lands in a later window |
| `EmailRateLimit.AtMostFiveStand` | apps/api/src/auth/email-rate-limit-hook.ts:208-228 | so of the requests let through in a window never more than five are not given back |
| `EmailRateLimit.OnlyFailuresCost` | apps/api/src/auth/email-rate-limit-hook.ts:247-292 | an attempt let through costs its address nothing if it succeeds and one if it fails |
| `EmailRateLimit.SlotsAreTheLimiters` | apps/api/src/auth/email-rate-limit-hook.ts:188-292 | the bucket that any interleaving of hooks leaves is the limiter's after the checks and releases they made, so the limiter's theorems apply to it |
| `EmailRateLimit.ChargesAreCovered` | apps/api/src/auth/email-rate-limit-hook.ts:188-292 | every charge in flight is still counted |
| `EmailRateLimit.EachChargeOnce` | apps/api/src/auth/email-rate-limit-hook.ts:188-292 | a request gives back at most the charges it was admitted with, each once |
| `RevocationStore.InMemoryRevocationStore.Revoke` | apps/api/src/auth/revocation-store.ts:150-185 | prunes, re-inserts last with a five-minute expiry, cuts to the ceiling, and keeps live entries of other sessions only, in expiry order |
| `RevocationStore.InMemoryRevocationStore.IsRevoked` | apps/api/src/auth/revocation-store.ts:187-206 | answers by the entry and drops an expired one |
| `RevocationStore.InMemoryRevocationStore.PruneExpired` | apps/api/src/auth/revocation-store.ts:208-225 | the walk that stops at the first live entry removes what a full scan would |
| `RevocationStore.InMemoryRevocationStore.EvictToCeiling` | apps/api/src/auth/revocation-store.ts:227-243 | keeps the newest 10,000 |
| `RevocationStore.RevokedExactly` | apps/api/src/auth/revocation-store.ts:150-243 | after any history a session is revoked at t iff its last revocation is under a lifetime old and fewer than 10,000 distinct others were revoked since |
| `RevocationStore.RunAgrees` | apps/api/src/auth/revocation-store.ts:150-243 | the bounded, pruned map agrees with the unbounded one on everything that has not expired |
| `RevocationStore.PruningIsFree` | apps/api/src/auth/revocation-store.ts:208-243 | pruning before an insertion changes nothing that is live |
| `Invitations.InvitationStore.AcceptInvitation` | apps/api/src/invitations/capability-lookup.ts:238-332 | one accept alone: not found, conflict, already accepted, revoked and expired each iff the row, the token and the user call for it, with nothing changed; otherwise the row is consumed, every workspace named has the user with the first role offered or the one held, and the tenant is the invitation's |
| `Invitations.AcceptSaysWhy` | apps/api/src/invitations/capability-lookup.ts:410-425 | each refusal iff its own condition on the row, the clock and the user's tenant holds, and success iff none does |
| `Invitations.RevocationStands` | apps/api/src/invitations/invitation.repository.ts:225-267 | after a revoke, whatever accepts and revokes follow, the row stays revoked with the time of the first revocation and nobody's acceptance, and every accept answers "revoked" |
| `Invitations.AcceptanceStands` | apps/api/src/invitations/invitation.repository.ts:225-267 | after an acceptance no call changes anything, and each of them reports it |
| `Invitations.AcceptedAtMostOnce` | apps/api/src/invitations/capability-lookup.ts:238-332 | over every interleaving at most one accept commits, iff the row is accepted; its grants are all there; every membership lies in its user's single tenant, and new ones come from that accept or from elsewhere |
| `Invitations.DecidedIsFinal` | apps/api/src/invitations/invitation.repository.ts:225-267 | accepted and revoked rows, with their times, and existing memberships, roles and tenants never change |
| `Invitations.UninterruptedAcceptIsTheCall` | apps/api/src/invitations/capability-lookup.ts:254-332 | the machine's uninterrupted run has the outcome of the call |
| `Invitations.ConsumeFailsIffDecided` | apps/api/src/invitations/capability-lookup.ts:262-280 | over every run an accept fails at its consume iff the invitation is no longer pending, always with "already accepted", which is true iff an accept committed and false iff it was revoked |
| `Invitations.LateAcceptSaysWhy` | apps/api/src/invitations/capability-lookup.ts:410-425 | over every interleaving an accept whose verified read follows a committed revocation ends "revoked", and one that follows a committed accept ends "already accepted" |
| `Invitations.LosingToARevokeReportsAccepted` | apps/api/src/invitations/capability-lookup.ts:276-280 | a concrete run in which an accept that lost to a revocation reports "already accepted" |
| `LogCensor.CensorFields` | apps/api/src/observability/logger.ts:707-737 | the copy-on-write loop equals the field-by-field rebuild, and returns its very input iff nothing changed and it came to no NaN, which is never identical to itself |
| `LogCensor.CensorElements` | apps/api/src/observability/logger.ts:796-810 | the same for an array's elements, none through the key rule |
| `LogCensor.CensorValue` | apps/api/src/observability/logger.ts:762-784 | errors reduced, instances and anything at the depth bound censored, other containers walked |
| `LogCensor.AgreeingRecordsComeOutEqual` | apps/api/src/observability/logger.ts:707-810 | non-interference: what lies under unnamed keys, in instances, below the bound or on an error beside its reduced fields has no influence |
| `LogCensor.CensoredIsClean` | apps/api/src/observability/logger.ts:639-655 | every key stays, holding a named value, a reduced error, `undefined` or the censor string |
| `LogCensor.NamedScalarsSurvive` | apps/api/src/observability/logger.ts:707-737 | a record of named scalars comes out as it went in |
| `LogCensor.NamedSurvives` | apps/api/src/observability/logger.ts:707-810 | at every level: a scalar reached through named keys, arrays and plain objects stands where it stood, and a container so reached keeps its keys or length to the third level and is censored whole at the fourth |
| `LogCensor.FieldSays` | apps/api/src/observability/logger.ts:707-737 | a field by its key and value: `err` at the top untouched, an error reduced under any key, an unnamed key censored, a named scalar kept |
| `LogCensor.StackCarriesFramesOnly` | apps/api/src/observability/logger.ts:972-989 | every line of `err_stack` is a frame |
| `LogCensor.ReducedSays` | apps/api/src/observability/logger.ts:972-989 | a reduced error is its name and each frame line of its stack, as often as it stands there |
| `LogCensor.FrameMeans` | apps/api/src/observability/logger.ts:917 | a frame is a line whose white space, of which there is some, is followed by `at ` |
| `LogCensor.ReducedIgnoresTheHeadIff` | apps/api/src/observability/logger.ts:972-989 | whatever stands ahead of a cut of the stack leaves no trace in the reduced error iff no line that the prefix strip leaves of it is shaped like a frame |
| `LogCensor.CapturedHeaderLeavesNothing` | apps/api/src/observability/logger.ts:972-989 | so a stack captured under the name and message the error still has reduces to its frames alone, newlines in the message included |
| `LogCensor.RenamedErrorLeavesARemnant` | apps/api/src/observability/logger.ts:972-989 | a concrete `BootPreconditionError`, named after its stack was captured, whose message's second line comes out under `err_stack` |
| `LogCensor.RenamedErrorKeepsTheLine` | apps/api/src/observability/logger.ts:972-989 | the same for every name that does not begin with "E", every line shaped like a frame and every stack |
| `ClickPagination.WalkIsTheWholeList` | apps/api/src/clicks/click-event.reader.ts:50-98 | following the cursors over an unchanged table returns exactly the matching rows in strictly descending order |
| `ClickPagination.PageSays` | apps/api/src/clicks/click-event.reader.ts:50-98 | a page holds the newest of what is selected behind the cursor, no more than asked for; it reports more iff something selected is not on it, and then its cursor names its last row |
| `ClickPagination.WalkDescends` | apps/api/src/clicks/click-event.reader.ts:50-98 | with appends between pages no row repeats |
| `ClickPagination.WalkReturnsEveryRow` | apps/api/src/clicks/click-event.reader.ts:50-98 | with appends between pages every row of the first page's table is returned |
| `ClickPagination.WalkReturnsOnlySelected` | apps/api/src/clicks/click-event.reader.ts:55-80 | and nothing but rows of this tenant, link and window |
| `ClickPagination.DecodeInvertsEncode` | apps/api/src/clicks/click-cursor.ts:35-56 | decoding inverts encoding on every storable instant |
| `ClickPagination.DecodesIff` | apps/api/src/clicks/click-cursor.ts:42-56 | a text decodes iff it is a storable instant, one bar and a uuid, and then to those |
| `ClickPagination.DecodedCouldHaveBeenIssued` | apps/api/src/clicks/click-cursor.ts:42-56 | whatever text decodes, decodes to a storable position whose own cursor decodes to it again |
| `SlugRedraw.LinkRepository.CreateIfSlugFree` | apps/api/src/links/link.repository.ts:177-222 | inserted; or taken, with the transaction exactly as it was; or refused with the mapped error |
| `SlugRedraw.LinkRepository.CreateGenerated` | apps/api/src/links/links.service.ts:194-204 | the first free draw of five is inserted alone, exhaustion iff all five were taken, the savepoint stack unchanged |
| `SlugRedraw.LinkRepository.CreateSupplied` | apps/api/src/links/links.service.ts:207-217 | validation before anything is sent, then one attempt: created iff valid, free and otherwise sound, `slug_taken` iff valid and taken, the mapped refusal else |
| `SlugRedraw.CreatedLinkIsUnique` | apps/api/src/links/link.repository.ts:177-222 | domain and slug stay unique |
| `SlugRedraw.RefusalMeans` | apps/api/src/links/link.repository.ts:102-168 | which SQLSTATE and constraint give which refusal, and that any other is rethrown |
| `SlugRedraw.RetryWithoutSavepoint` | apps/api/src/links/link.repository.ts:171-175 | without the savepoint the attempt after a collision is refused whatever it draws |
| `UuidV7.Generator.UuidV7` | apps/api/src/clicks/uuid-v7.ts:36-71 | the shared buffer packs the stamp the counter rule gives, and the text is its hex |
| `UuidV7.PackedSaysItsStamp` | apps/api/src/clicks/uuid-v7.ts:60-67 | version 7, variant 10, and the time and counter can be read back |
| `UuidV7.TextReadsBack` | apps/api/src/clicks/uuid-v7.ts:60-71 | the text has a uuid's shape in lower case, and its digits read back as the sixteen bytes |
| `UuidV7.NextMeans` | apps/api/src/clicks/uuid-v7.ts:36-57 | a moved clock takes the seed's low eleven bits, a full counter borrows the next millisecond, any other is one more |
| `UuidV7.NextSortsAfterIffClockKeptUp` | apps/api/src/clicks/uuid-v7.ts:36-71 | an id sorts after its predecessor, as text, iff the clock is not behind that one's time |
| `UuidV7.PacedIdsIncrease` | apps/api/src/clicks/uuid-v7.ts:11-18 | with a clock that never goes back and at most 2050 draws a millisecond, ids strictly increase, whatever the seeds and random bits |
| `UuidV7.OneMoreDrawFallsBack` | apps/api/src/clicks/uuid-v7.ts:39-55 | a concrete run of 2051 draws in one millisecond: the 2050th borrows the next and sorts after, the 2051st falls back and sorts before it |

## Left out

- One hostname: `RedirectProtocol.dfy` models link keys of the system default domain, so a key is a slug; host keys, which nothing deletes, expire after 300 s and are modelled in `ReadThrough.dfy` only.
- The database during one request: `ReadThrough.dfy` fixes it; what changes between a request's read and its write is the subject of `RedirectProtocol.dfy`.
- Object identity: values are immutable in the model, so "the input record is never mutated" of the log censor appears as a flag that the very input came back, not as a heap frame.
- Getters that throw, `toJSON` and pino's own call shapes: they depend on library internals.
- Text: a `char` stands for one UTF-16 code unit, lower-casing changes ASCII letters only.
- JSON numbers: real numbers, without the rounding of a double, or a numeral that overflows.
- Hashing, HMAC, base64url, ISO dates, `new URL()`, the JSON text itself: functions taken as parameters, assumed injective or inverse to their parsers where the source relies on it.
- Bit operations of the id packing are written as the arithmetic they amount to.
- A frame that a hook opens: hooks are opaque, and a transaction of their own would be a root frame.
- LogCensor.ReducedIgnoresTheHeadIff: speaks of cuts at or behind the end of the header where the stack
  starts with it; a cut inside the header does not separate a message from frames.
- Statements issued through a handle captured before a transaction settled: the source's guard does not reach them either.
- A rate-limit store that rejects: the in-process one never does, and the hooks would log and go on.
- Logging and timers are assumed not to throw, so `enqueue` fails only before it buffers; the shutdown drain's five-second budget is not modelled.
- Other invitations, sign-ups and tenant administration appear in `Invitations.dfy` as steps that add consistent rows; nothing deletes a membership while the invitation is live.
- `findInvitationByCapabilityToken`, `attachGrants`, link listing, update and workspace checks: reads and one-branch checks.
- Deletions of host keys for branding and domain changes, which nothing issues yet, response headers, HTML, mail, boot assertions, the JWKS cache and role ranks: configuration or easy members.
- Row-level-security DDL and grants: only "a transaction sees its own tenant's rows" is used.
