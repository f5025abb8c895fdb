# Verified models of the NiffyInsure services

Dafny models of the parts of the NiffyInsure repository whose correctness is a matter of whole runs
rather than of one function: the ledger indexer, keyset pagination and its cursors, the activity
feed, the amount printer and parser, the Redis protocols (indexer lock, cache single-flight, two rate
limiters, refresh-token rotation, persisted queries), the scheduled claim jobs, the CSV export, and
the Soroban vet registry.

`dafny verify dfyconfig.toml` checks the project. Dafny 4.11 is assumed.

## How the models are built

- **`LedgerIndexer`, `IndexerService`** – the indexer as a state machine (the chain grows, poll,
  fetch, one transaction per event, finish, crash, cursor reset) with a recorded history, and the
  service class whose loops are proved to be runs of that machine. The projection handlers are an
  arbitrary function folded over the committed events.
- **`OverlappingIndexers`, `OverlapLaws`** – any number of indexer processes on the same tables, as the
  unrenewed lock allows, each with its own batch in flight: what is lost and what is projected twice.
- **`Keyset`, `Base64Url`, `Cursors`, `Pagination`, `ActivityFeed`** – the walk over a changing table,
  the cursor texts, the list endpoints and the feed over the indexer's raw-event table.
- **`Decimal`, `Amounts`, `AmountLaws`, `CompactLaws`, `AmountLayout`** – digit strings, the printer and
  parser, their round trip, the compact notation judged on its printed texts, and the layout of every
  displayed amount in every locale.
- **`IndexerLock`, `SingleFlight`, `SlidingWindow`, `FixedWindow`, `RefreshTokens`, `RefreshRaces`,
  `PersistedQueries`** – timed protocols. One Redis command, `MULTI` block or script is one step;
  keys expire against a clock that never goes back.
- **`Reminders`, `Tallies`** – the appeal-window reminder scan, the vote handler and reconciliation.
- **`CsvExport`** – printer and paging loop against a parser for section 2 of RFC 4180 (LF line ends).
- **`VetRegistry`** – the contract's storage keys over every run of its calls.

## Where the code does not do what its text promises

For each of these the exact condition under which the promise holds is proved for all inputs, and
next to it stands a concrete case that fails.

- A batch or crash that stops between two events of one ledger drops the rest of that ledger, since
  the cursor already stands on it (`NoSilentLoss`, `CrashLosesEvent`). So a ledger with more
  than 50 events is never stored whole (`OverfullLedgerLosesEvents`).
- The de-duplication key is the position in the fetched batch, so a reindex that cuts batches
  differently applies events again (`ReplayAppliesAgainIff`, `ReindexAppliesTwice`).
- For the same reason a second indexer process that polls while the first is still committing may
  project an event twice (`OnceIffFollowing`, `OverlapProjectsTwice`).
- The worker tick stops at the first empty window: it reaches the head if and only if the head is at
  most 101 ledgers past the later of the cursor and the last event (`RunTick`, `TickStopsShort`). `processUntilCaughtUp`
  also gives up after 10 001 batches. It reaches the head if and only if the backlog takes at most
  10 000 batches and the same holds of the head, or takes exactly 10 001 and the head carries the last
  event (`CatchesUp`). A backlog of at most 500 000 events always fits (`RoundsBounded`); one event
  per ledger over 500 051 ledgers does not (`CapStopsShort`).
- `listPosts` spreads two clauses named `OR` into one object, so the default listing ignores its
  cursor: following it never ends if and only if the visible posts do not fit one page
  (`PostsHonourCursorIff`, `PostsEndlessIff`, `PostsWalkRepeats`).
- `toDisplay` keeps 20 decimal places, so with more decimals the round trip holds exactly for amounts
  divisible by `10^(decimals - 20)` (`RoundTripIff`, `TwentyOneDecimalsLose`).
- The cache lock has no token: one overstaying caller lets two later, punctual ones load together.
  It excludes if and only if nobody tries for a key that has been held for 30 s
  (`LoadersExcludeIff`, `LateReleaseFreesAnotherLock`).
- Reuse of a rotated refresh token is noticed for 60 seconds only (`ReuseDetectedIff`,
  `LateReuseUnnoticed`).
- Reading a refresh token and marking it rotated are two commands, so a token is accepted more than
  once if and only if two calls read it before either wrote; such a call even outlives the sweep that
  a detected reuse sets off (`AcceptedTwiceIffRaced`, `SweepStopsLaterReads`, `RaceBeatsSweep`).
- Replaying vote events is harmless if and only if the replayed stretch says last about each claim
  and voter what the whole history says last; a tail always does, a replay cut short may not
  (`ReplayHarmlessIff`, `StretchReplayHarmlessIff`, `CutReplaySkews`).
- Reconciliation is described as safe beside live ingestion. A claim ends right if and only if nothing
  had to be written or no vote between count and write changed the number standing; otherwise the
  vote is undone in the tally until the next pass (`LateCorrectionIff`, `LateCorrectionSkews`).
- Reconciliation leaves a stale appeal transaction hash for ever exactly when the count beside it is
  already zero (`LeftoverHashKeptIff`, `LeftoverHashStays`).

Apart from these, the soft-delete extension of the Prisma service is built and its result dropped
(`backend/src/prisma/prisma.service.ts:81`), so a query filters deleted rows only where its own
`where` clause says so; the models follow that.

## Model

| member | source | states |
|---|---|---|
| `LedgerIndexer.StepKeepsInv` | backend/src/indexer/indexer.service.ts:184-236 | every step but a reset keeps log, raw table, batch, cut and coverage invariants together, and never lowers the cursor |
| `LedgerIndexer.RunKeepsInv` | backend/src/indexer/indexer.service.ts:184-267 | the invariant holds after every run without a cursor reset |
| `LedgerIndexer.NoSilentLoss` | backend/src/indexer/indexer.service.ts:184-236 | over every run with crashes and chain growth, an event between the starting and the present cursor is applied if and only if it is not waiting in the current batch and no batch or crash stopped after an earlier event of its ledger |
| `LedgerIndexer.ExactlyOnce` | backend/src/indexer/indexer.service.ts:337-366 | no event is applied twice or taken for a duplicate, the projection is the fold in chain order, and stored (ledger, event index) pairs are distinct |
| `LedgerIndexer.RawKeysDistinct` | backend/src/indexer/indexer.service.ts:217-221 | rows under batch-position keys still have distinct (ledger, event index) pairs |
| `LedgerIndexer.ExactProjection` | backend/src/indexer/indexer.service.ts:337-445 | if all cuts fall between ledgers the projection is the fold over exactly the chain events between the two cursors |
| `LedgerIndexer.CrashLosesEvent` | backend/src/indexer/indexer.service.ts:217-221 | a run whose crash between two events of one ledger leaves the cursor at the head and the second event unapplied |
| `LedgerIndexer.OverfullLedgerLosesEvents` | backend/src/indexer/indexer.service.ts:203-221 | a ledger with more than 50 events is never stored whole, however the run goes |
| `LedgerIndexer.ReplayAppliesAgainIff` | backend/src/indexer/indexer.service.ts:337-366 | in any replay the event at batch position j is projected again if and only if the table has no row of its transaction at position j |
| `LedgerIndexer.AlignedReplayIsIdempotent` | backend/src/indexer/indexer.service.ts:362-366 | a replay whose batch positions match the stored ones changes neither table nor projection |
| `LedgerIndexer.ReindexAppliesTwice` | backend/src/admin/admin.service.ts:103-121 | a concrete reset after which a two-event chain is projected three times |
| `LedgerIndexer.ResetStartsAt` | backend/src/admin/admin.service.ts:103-111 | after a reset to any ledger the next batch starts at the first chain event at or above it (at least 1), and is fetched exactly if there is one |
| `IndexerService.BatchIsRun` | backend/src/indexer/indexer.service.ts:184-236 | an uninterrupted batch is a run of the state machine ending in the state the batch function computes |
| `IndexerService.BatchProgress` | backend/src/indexer/indexer.service.ts:197-215 | a batch finds the cursor at the head or strictly raises it, fetches nothing exactly when no event lies above the cursor, and otherwise stays at or below the last event |
| `IndexerService.BatchesReachHead` | backend/src/indexer/indexer.service.ts:184-215 | n batches reach the head or advance at least n ledgers, and never pass it |
| `IndexerService.BatchesStoreAbove` | backend/src/indexer/indexer.service.ts:203-221 | batches keep every stored row and add rows only of events above the cursor they start from |
| `IndexerService.Service.EnsureCursor` | backend/src/indexer/indexer.service.ts:238-253 | a present row gives its value, an absent one the legacy ledger, neither gives zero; afterwards the row exists |
| `IndexerService.Service.AdvanceCursor` | backend/src/indexer/indexer.service.ts:259-267 | the cursor becomes the maximum of itself and the ledger |
| `IndexerService.Service.ProcessEvent` | backend/src/indexer/indexer.service.ts:337-445 | one transaction: row, projection and cursor change as in the machine's commit |
| `IndexerService.Service.ProcessNextBatch` | backend/src/indexer/indexer.service.ts:184-236 | the loop leaves exactly the state of one machine batch, stores only events above the row, legacy ledger or zero it starts from, and reports count and lag |
| `IndexerService.Service.RunTick` | backend/src/indexer/indexer.worker.ts:58-64 | the tick ends at the stop point; it reaches the head if and only if the head is at most 101 ledgers past the later of cursor and last event |
| `IndexerService.TickStopsShort` | backend/src/indexer/indexer.worker.ts:58-64 | an empty chain with head 102, at whose ledger 101 the tick from ledger 0 stops |
| `IndexerService.Service.ProcessUntilCaughtUp` | backend/src/indexer/indexer.service.ts:156-178 | runs one batch more than the backlog has rounds, at most 10 001; exact event count; cursor never lowered or past the head; the head is reached if and only if `CatchesUp` holds of chain, head and old cursor |
| `IndexerService.BatchTakesRound` | backend/src/indexer/indexer.service.ts:164-174 | a batch with events takes exactly one round off the backlog, and there is one exactly while rounds are left |
| `IndexerService.RoundsBounded` | backend/src/indexer/indexer.service.ts:164-174 | a backlog of at most 50 n events takes at most n rounds, however it is spread over ledgers |
| `IndexerService.CapStopsShort` | backend/src/indexer/indexer.service.ts:170-173 | a valid chain whose head carries the last event and which the cap alone keeps the catch-up from reaching |
| `OverlappingIndexers.RunKeepsInv` | backend/src/indexer/indexer.service.ts:184-221 | over every interleaving of any number of processes, the raw table holds exactly the keys committed and exactly the first commit of a key projects |
| `OverlappingIndexers.ExactlyOnceIff` | backend/src/indexer/indexer.service.ts:337-366 | every event is projected once, by its first commit, if and only if each commit finds its key taken just when its event was committed before |
| `OverlappingIndexers.OnceIffAligned` | backend/src/indexer/indexer.service.ts:217-221 | if no batch breaks off inside a transaction: exactly once if and only if all batches committing a transaction started at the same chain position |
| `OverlapLaws.OnceIffFollowing` | backend/src/indexer/indexer.service.ts:217-221 | for every run: exactly once if and only if every commit of a transaction is from the start of the first batch that reached it, or trails that batch and finds its batch position taken by a later event |
| `OverlapLaws.LastEventDecides` | backend/src/indexer/indexer.service.ts:217-221 | a batch from another start that reaches the last event of a transaction breaks exactly-once, in whatever order |
| `OverlapLaws.RunKeepsOrder` | backend/src/indexer/indexer.service.ts:203-221 | batches start where a ledger begins and commit in chain order, and the shared cursor stays between its start and the head |
| `OverlapLaws.ProjectionIsFold` | backend/src/indexer/indexer.service.ts:337-445 | over every run of any number of processes the projection is the handler folded over the commits that found their key new |
| `OverlapLaws.ReceiveIsFetch` | backend/src/indexer/indexer.service.ts:203-215 | an answer to one of several processes does to the tables and its batch what the single-process fetch does |
| `OverlapLaws.CommitIsTransaction` | backend/src/indexer/indexer.service.ts:337-366 | one commit does to the tables what the single-process event transaction does |
| `OverlapLaws.NothingLost` | backend/src/indexer/indexer.service.ts:184-236 | over every run of any number of processes, an event at or below the shared cursor is committed, or a batch has its last commit at an earlier event of the same ledger, in flight or stopped there |
| `OverlapLaws.WholeLedgersAllCommitted` | backend/src/indexer/indexer.service.ts:184-236 | if all batch edges, past and present, end a ledger, everything up to the shared cursor is committed |
| `OverlappingIndexers.OverlapProjectsTwice` | backend/src/indexer/indexer.worker.ts:46-64 | a run of two overlapping processes that projects a two-event chain three times |
| `Keyset.PageIsTop` | backend/src/helpers/pagination.ts:204-224 | every selected row left out of a page sorts below the page's last row |
| `Keyset.PageSize` | backend/src/helpers/pagination.ts:204-224 | a page holds as many rows as asked for, or all that are left |
| `Keyset.LeftAfterPage` | backend/src/helpers/pagination.ts:204-224 | below the last row of a full page exactly the remaining rows are left |
| `Keyset.NothingTwice` | backend/src/helpers/pagination.ts:204-224 | whatever is inserted or deleted between pages, what a walk delivers is strictly descending |
| `Keyset.NewestFirst` | backend/src/helpers/pagination.ts:204-224 | descending means newest first: by the high part of the key, then by the low one |
| `Keyset.NothingMissed` | backend/src/helpers/pagination.ts:204-224 | a row present at every request of a completed walk is delivered |
| `Keyset.WalkUnderChange` | backend/src/helpers/pagination.ts:204-270 | no row twice, and each row present throughout exactly once |
| `Keyset.FixedTableTerminates` | backend/src/helpers/pagination.ts:262-270 | over a fixed table a walk has at most one request more than rows |
| `Keyset.FixedTableInOrder` | backend/src/helpers/pagination.ts:262-270 | over a fixed table the pages concatenate to the whole table in descending order |
| `Base64Url.RoundTrip` | backend/src/helpers/pagination.ts:152-179 | unpadded base64url decodes to the bytes that were encoded |
| `Base64Url.NoDot` | backend/src/helpers/pagination.ts:152-154 | encoded text contains no dot |
| `Base64Url.AlphabetIs` | backend/src/helpers/pagination.ts:152 | each 6-bit value is written as its place in the URL-safe alphabet |
| `Base64Url.SameBits` | backend/src/helpers/pagination.ts:152 | three bytes and the four values written for them are one 24-bit number |
| `Cursors.PayloadRoundTrip` | backend/src/helpers/pagination.ts:150-180 | the printed JSON payload parses back to its time and id |
| `Cursors.CursorRoundTrip` | backend/src/helpers/pagination.ts:149-198 | decoding an encoded cursor gives the same pair, signed or not, for every id and every valid time |
| `Cursors.RoundTripWith` | backend/src/helpers/pagination.ts:149-198 | the same with any JSON reader that reads the printed payload back |
| `Cursors.TagIsDotFree` | backend/src/helpers/pagination.ts:140-143 | a signature is non-empty and has no dot, so the last dot separates it |
| `Cursors.AcceptedIff` | backend/src/helpers/pagination.ts:162-198 | whatever JSON can be read, a signed deployment accepts exactly the texts that carry the tag of their own payload and whose payload is readable |
| `Cursors.UnsignedAcceptedIff` | backend/src/helpers/pagination.ts:179-194 | without a secret exactly the texts with a readable payload are accepted |
| `Cursors.PayloadText` | backend/src/helpers/pagination.ts:150-151 | the payload as text |
| `Cursors.AcceptedCarriesItsTag` | backend/src/helpers/pagination.ts:166-192 | whatever JSON can be read, an accepted signed cursor carries the tag of the payload it is read as, and an id of at least 0 |
| `Cursors.AcceptedIsDetermined` | backend/src/helpers/pagination.ts:166-177 | two accepted signed cursors with one payload text are equal |
| `Cursors.ActivityCursorRoundTrip` | backend/src/feeds/feeds.service.ts:45-55 | the feed cursor decodes to its ledger and event index |
| `Cursors.ActivityReads` | backend/src/feeds/feeds.service.ts:49-55 | two digit strings around a colon are read as ledger and event index, in that order |
| `Pagination.ClampLimit` | backend/src/helpers/pagination.ts:132-134 | the limit is in 1..100 and an allowed request is kept |
| `Pagination.NextKeyIsSound` | backend/src/helpers/pagination.ts:262-270 | a null cursor is returned only when nothing is left below the page; otherwise it is the page's last row |
| `Pagination.CursorReturnsToKey` | backend/src/helpers/pagination.ts:214-224 | a returned cursor starts the next request exactly below the row it was built from |
| `Pagination.AnsweredIff` | backend/src/helpers/pagination.ts:214-224 | a list request is refused exactly for a cursor that cannot be decoded |
| `Pagination.PageStep` | backend/src/helpers/pagination.ts:214-270 | one request returns the page below its cursor, and its next cursor text leads to exactly the last row of that page, or is null only when nothing is left |
| `Pagination.SessionIsWalk` | backend/src/helpers/pagination.ts:214-270 | a client following the cursor texts performs a keyset walk, ended exactly by a null cursor |
| `Pagination.SessionUnderChange` | backend/src/helpers/pagination.ts:214-270 | such a client sees no row twice, newest first, and every row that was there throughout |
| `Pagination.SessionOverFixedTable` | backend/src/helpers/pagination.ts:214-270 | over a fixed table it ends and shows the table in order |
| `Pagination.RequestsExactly` | backend/src/helpers/pagination.ts:262-270 | a finished session with one limit over a fixed table takes one request if the table fits a page, else one per full page and one more |
| `Pagination.PostsHonourCursorIff` | backend/src/posts/posts.service.ts:28-39 | a posts request honours its cursor if and only if scheduled posts are included or no visible row is at or above the cursor |
| `Pagination.PostsWalkRepeats` | backend/src/posts/posts.service.ts:28-57 | the default posts listing returns page one again for its own cursor |
| `Pagination.AllPostsArePaged` | backend/src/posts/posts.service.ts:24-63 | with scheduled posts included a posts request is the plain keyset page |
| `Pagination.PostsEndlessIff` | backend/src/posts/posts.service.ts:24-63 | a client can follow the posts cursor for ever over a fixed table if and only if scheduled posts are hidden and the visible ones do not fit one page |
| `ActivityFeed.FeedPageIsPage` | backend/src/feeds/feeds.service.ts:94-129 | reading one extra row and cutting it gives the plain page and a cursor exactly when a row is left |
| `ActivityFeed.Take` | backend/src/feeds/feeds.service.ts:94 | an allowed limit is kept, a lower one becomes 1, a higher one 100 |
| `ActivityFeed.AnswerSize` | backend/src/feeds/feeds.service.ts:94-129 | for a limit of 1 to 100 the answer holds that many rows or all that are left, and a cursor exactly if more are left |
| `ActivityFeed.AnsweredIff` | backend/src/feeds/feeds.service.ts:94-95 | a feed request is refused exactly for a cursor that cannot be decoded |
| `ActivityFeed.SessionIsWalk` | backend/src/feeds/feeds.service.ts:93-131 | following `nextCursor` is a keyset walk |
| `ActivityFeed.RequestsExactly` | backend/src/feeds/feeds.service.ts:93-131 | a finished session with one allowed limit takes exactly as many requests as the rows fill pages, or one |
| `ActivityFeed.FeedWalksTable` | backend/src/feeds/feeds.service.ts:93-131 | over a raw table with distinct (ledger, event index) the feed ends, and returns exactly the matching rows, each once, newest first |
| `ActivityFeed.FeedWalksIndexedEvents` | backend/src/feeds/feeds.service.ts:93-131 | the same for the table left by any indexer run without a reset |
| `Amounts.FormatNumberString` | frontend/lib/amount.ts:85-106 | the padding loop computes the specified trimmed, padded, grouped text |
| `Amounts.Display` | frontend/lib/amount.ts:50-83 | the unit loop and both branches compute the specified display or error |
| `Amounts.GroupIsInverse` | frontend/lib/amount.ts:108-116 | removing the separators from a grouped integer gives its digits back |
| `AmountLayout.GroupPlaces` | frontend/lib/amount.ts:108-115 | the grouped text has its separator at every fourth place from the right, digits elsewhere, and a digit at both ends |
| `AmountLayout.DisplayLayout` | frontend/lib/amount.ts:50-120 | every displayed amount, compact or full, in any locale: sign, integer part grouped by that locale, decimal mark, fraction digits as trim and minimum ask, suffix; de, fr and es group by points and mark the fraction with a comma |
| `AmountLayout.FractionLaw` | frontend/lib/amount.ts:91-98 | the fraction digits are those of the value, only zeros are dropped or added, all are kept untrimmed, and trimmed none ends in a zero beyond the minimum |
| `AmountLayout.HalfUpIff` | frontend/lib/amount.ts:73-80 | rounding gives the nearest number of units, and of two equally near the larger |
| `AmountLayout.CompactDigits` | frontend/lib/amount.ts:72 | a number in front of a suffix has three significant digits, more only in whole units |
| `AmountLayout.DisplayedIff` | frontend/lib/amount.ts:50-83 | exactly which texts, decimals and options are displayed |
| `AmountLayout.TrimStrips` | frontend/lib/amount.ts:33 | trimming takes all white space off both ends and nothing else |
| `Amounts.ToRawIsExact` | frontend/lib/amount.ts:126-148 | an input is accepted exactly when it is an amount with few enough decimals, and the result is the canonical text of the exact scaled integer, with no negative zero |
| `AmountLayout.SpelledIsRead` | frontend/lib/amount.ts:126-148 | by its spelling: an optional minus, digits and optionally a point and digits give the exact scaled integer, or are refused for too many fraction digits |
| `AmountLayout.UnspelledIsRefused` | frontend/lib/amount.ts:132-134 | every input not so spelled is refused |
| `Amounts.FormatReadsBack` | frontend/lib/amount.ts:85-148 | a formatted number reads back as its exact value for every trim, minimum and width |
| `AmountLaws.DisplayReads` | frontend/lib/amount.ts:50-148 | what the parser reads from the default display, for every amount and number of decimals |
| `AmountLaws.RoundTripIff` | frontend/lib/amount.ts:50-148 | display then parse is the identity if and only if the minimum digits fit and at most 20 decimals, or none of the dropped ones, are used |
| `AmountLaws.TwentyOneDecimalsLose` | frontend/lib/amount.ts:64-82 | with 21 decimals the amount 1 does not survive the round trip |
| `AmountLaws.IntTextParses` | frontend/lib/amount.ts:29-38 | the canonical text of every integer parses to it |
| `CompactLaws.CompactTextsFaithful` | frontend/lib/amount.ts:50-83 | for any two amounts, negative ones included, and any number of decimals: the compact texts denote values in the order of the amounts; one with a suffix is within 1/200 of its amount; one without is exact if and only if the first division lost nothing |
| `CompactLaws.CompactDenotes` | frontend/lib/amount.ts:64-82 | what a compact text denotes, suffixed or not, is the thrice-rounded amount with its sign, and it has a suffix exactly when a unit is reached |
| `CompactLaws.ShownWithin` | frontend/lib/amount.ts:69-76 | the amount a suffixed text stands for is within 1/200 of the true one, through all three roundings |
| `CompactLaws.ShownMonotone` | frontend/lib/amount.ts:68-80 | the amount shown never decreases as the amount grows, across all unit and digit changes |
| `IndexerLock.LockKey.Acquire` | backend/src/indexer/indexer.worker.ts:75-84 | succeeds exactly on a free or expired key and takes a 30 s lease |
| `IndexerLock.LockKey.Release` | backend/src/indexer/indexer.worker.ts:12-18 | deletes exactly an own live lock and leaves another token's lock as it is |
| `IndexerLock.RunKeepsInv` | backend/src/indexer/indexer.worker.ts:46-94 | a tick inside holds the key or has outstayed its lease, over every run |
| `IndexerLock.OverlapNeedsOverstay` | backend/src/indexer/indexer.worker.ts:46-94 | two ticks overlap only if the earlier had outstayed its lease when the later entered |
| `IndexerLock.LateTickOverlaps` | backend/src/indexer/indexer.worker.ts:46-72 | a run in which a tick of exactly 30 s has a second one beside it |
| `IndexerLock.TicksExcludeIff` | backend/src/indexer/indexer.worker.ts:46-94 | at most one tick is inside in every state of a run if and only if no tick begins while another has been inside for its whole lease |
| `IndexerLock.MutualExclusion` | backend/src/indexer/indexer.worker.ts:46-94 | if all ticks inside are within their leases there is at most one |
| `IndexerLock.OnlyOwnerFrees` | backend/src/indexer/indexer.worker.ts:87-94 | leaving frees a live lock if and only if the leaver owns it |
| `SingleFlight.LocksAreNotCacheKeys` | backend/src/cache/redis.service.ts:117-143 | lock names and cache keys are disjoint |
| `SingleFlight.TenantsKeptApart` | backend/src/cache/cache.service.ts:68-73 | full keys of colon-free tenants are distinct |
| `SingleFlight.TenantKeyIsPlainKey` | backend/src/cache/cache.service.ts:68-73 | a tenant key is also the untenanted key that spells the tenant out |
| `SingleFlight.ReturnedValuesAreLoaded` | backend/src/cache/cache.service.ts:145-205 | over every interleaving and expiry, a returned value came from a loader run for the caller's full key |
| `SingleFlight.StoredIsServed` | backend/src/cache/cache.service.ts:156-181 | a stored value is what every later reader of the key gets for exactly its time to live, over every run that neither evicts it nor stores there again; a null or expired one sends the reader to load |
| `SingleFlight.EvictedIsMissed` | backend/src/cache/cache.service.ts:122-131 | after an eviction a reader of the key goes on to load |
| `SingleFlight.WaitsForLock` | backend/src/cache/cache.service.ts:168-193 | a caller that finds the lock held waits and changes nothing, one that finds it free loads under a 30 s lock |
| `SingleFlight.WaitEndsIff` | backend/src/cache/cache.service.ts:193 | waiting ends exactly when the lock is gone or expired or 5 s have passed |
| `SingleFlight.OwnResultReturned` | backend/src/cache/cache.service.ts:177-205 | a caller whose loader ran ends with that result or failure |
| `SingleFlight.LoadersExcludeIff` | backend/src/cache/cache.service.ts:168-189 | over every run, each key has at most one holder in every state if and only if no caller tries for a key whose holder has held it for 30 s |
| `SingleFlight.LoadersExclude` | backend/src/cache/cache.service.ts:168-189 | if every holder releases within 30 s no two callers load one key under the lock |
| `SingleFlight.LateReleaseFreesAnotherLock` | backend/src/cache/redis.service.ts:137-143 | a run in which one late release lets two punctual holders load together |
| `SlidingWindow.Limiter.Check` | backend/src/horizon/horizon-rate-limit.service.ts:44-78 | in one call the stored set becomes that of the longer history; the caller is allowed exactly if fewer than the maximum of all earlier requests are younger than the window, else told when the oldest leaves |
| `SlidingWindow.StoredIsExact` | backend/src/horizon/horizon-rate-limit.service.ts:52-63 | pruning and key expiry never forget a request still inside the window |
| `SlidingWindow.AllowedIff` | backend/src/horizon/horizon-rate-limit.service.ts:44-78 | a request is allowed if and only if fewer than the maximum earlier ones, allowed or denied, lie in the last window |
| `SlidingWindow.AtMostMaxInAnySpan` | backend/src/horizon/horizon-rate-limit.service.ts:44-78 | at most the maximum is allowed in any span of one window |
| `SlidingWindow.DeniedUntilOldestLeaves` | backend/src/horizon/horizon-rate-limit.service.ts:68-75 | after a denial every request before the oldest counted one leaves is denied |
| `FixedWindow.Guard.CanActivate` | backend/src/graphql/graphql-rate-limit.guard.ts:24-52 | in one call the counters become those of the longer history; the caller passes exactly if fewer than the limit of all earlier requests fell in its bucket; a window of zero never limits |
| `FixedWindow.CounterIsExact` | backend/src/graphql/graphql-rate-limit.guard.ts:29-37 | the counter never expires inside its bucket and counts the requests seen there |
| `FixedWindow.ShareBucketIff` | backend/src/graphql/graphql-rate-limit.guard.ts:29 | two moments share a bucket if and only if no multiple of the window lies after the first and up to the second |
| `FixedWindow.PassesIff` | backend/src/graphql/graphql-rate-limit.guard.ts:33-43 | an operation passes if and only if fewer than the limit came before it in its bucket |
| `FixedWindow.AtMostLimitPerBucket` | backend/src/graphql/graphql-rate-limit.guard.ts:29-43 | at most the limit passes in a bucket |
| `FixedWindow.AtMostTwiceLimitInAnySpan` | backend/src/graphql/graphql-rate-limit.guard.ts:29-43 | at most twice the limit passes in any span of one window |
| `RefreshTokens.Service.Issue` | backend/src/auth/refresh-token.service.ts:36-42 | the token is acceptable for exactly the configured life, and no other token changes |
| `RefreshTokens.Service.Consume` | backend/src/auth/refresh-token.service.ts:50-75 | accepts exactly a live unrotated token and rotates it; a rotated one sweeps its wallet |
| `RefreshTokens.Service.Revoke` | backend/src/auth/refresh-token.service.ts:78-81 | the token is unknown at every time, and no other token changes |
| `RefreshTokens.Service.RevokeAllForWallet` | backend/src/auth/refresh-token.service.ts:84-104 | the scan loop removes exactly the live records of the wallet |
| `RefreshTokens.LiveTokensBoundedByLogins` | backend/src/auth/wallet-auth.service.ts:145-173 | a wallet's acceptable tokens never exceed its logins |
| `RefreshTokens.LoginsAreCounted` | backend/src/auth/wallet-auth.service.ts:145 | the logins counted are those of the run |
| `RefreshTokens.SpentStaysSpent` | backend/src/auth/refresh-token.service.ts:50-75 | no passage of time and no call re-enables a refused token |
| `RefreshTokens.IssuedIsAccepted` | backend/src/auth/refresh-token.service.ts:36-42 | a token from a login or refresh is accepted for exactly the configured life over every run that leaves it alone |
| `RefreshTokens.LoggedOutStaysOut` | backend/src/auth/wallet-auth.service.ts:171-173 | a logged-out token is accepted in no continuation, other tokens stay as they were |
| `RefreshTokens.AcceptedOnce` | backend/src/auth/refresh-token.service.ts:50-75 | each token is accepted at most once over every run |
| `RefreshTokens.ReuseRevokesWallet` | backend/src/auth/refresh-token.service.ts:63-69 | after a detected reuse no earlier token of the wallet is ever accepted, other wallets' records are unchanged |
| `RefreshTokens.ReuseDetectedIff` | backend/src/auth/refresh-token.service.ts:63-72 | reuse is recognised exactly while the rotated record is stored and younger than 60 s |
| `RefreshTokens.LateReuseUnnoticed` | backend/src/auth/refresh-token.service.ts:71-72 | a run in which a replay after 60 s leaves the sessions alive |
| `RefreshRaces.AcceptedTwiceIffRaced` | backend/src/auth/refresh-token.service.ts:50-75 | over every interleaving of calls, a token is accepted more than once if and only if two accepting calls had read it before either wrote |
| `RefreshRaces.AcceptancesRaced` | backend/src/auth/refresh-token.service.ts:54-72 | any two acceptances of one token are by different calls, whose reads both come before both writes |
| `RefreshRaces.SweepStopsLaterReads` | backend/src/auth/refresh-token.service.ts:63-69 | an earlier token of the wallet accepted after a detected reuse was read before it |
| `RefreshRaces.SignedOutStaysOut` | backend/src/auth/refresh-token.service.ts:78-81 | no later call reads a signed-out token as acceptable |
| `RefreshRaces.RaceBeatsSweep` | backend/src/auth/refresh-token.service.ts:54-72 | a run of one login in which the token is accepted twice, the second time after the sweep |
| `PersistedQueries.LoadAllowlistFile` | backend/src/graphql/persisted-query.middleware.ts:167-206 | keeps exactly the entries with a query text and exactly their positive budgets |
| `PersistedQueries.MakeConfig` | backend/src/graphql/persisted-query.middleware.ts:55-64 | the allowlist is the file's hashes and the configured ones; bodies of a well-made file match their hashes |
| `PersistedQueries.Middleware.Use` | backend/src/graphql/persisted-query.middleware.ts:67-152 | answer and new store; the store invariant is kept and persisted-only mode passes on only the presented, allowlisted hash |
| `PersistedQueries.StoreStaysOk` | backend/src/graphql/persisted-query.middleware.ts:111-152 | over every sequence of requests each stored query hashes to its key |
| `PersistedQueries.OnlyAllowlistedPass` | backend/src/graphql/persisted-query.middleware.ts:90-108 | in persisted-only mode every query passed on hashes to an allowlisted hash |
| `PersistedQueries.RegisteredIsFetched` | backend/src/graphql/persisted-query.middleware.ts:121-151 | a registered query is fetched by its hash until its time to live runs out, whatever other calls come between, and then only from the allowlist |
| `PersistedQueries.RefusedIff` | backend/src/graphql/persisted-query.middleware.ts:72-134 | which requests are refused with which code |
| `PersistedQueries.BudgetIs` | backend/src/graphql/persisted-query.middleware.ts:101-106 | the complexity budget of a query passed on |
| `PersistedQueries.AllowlistedAlwaysServed` | backend/src/graphql/persisted-query.middleware.ts:141-151 | an allowlisted body is served whatever expired or was registered |
| `Reminders.PendingAfterScan` | backend/src/claims/appeal-window-reminder.service.ts:118-149 | after a scan a reminder is pending exactly where one was or the claim is due |
| `Reminders.WritesOneEach` | backend/src/claims/appeal-window-reminder.service.ts:118-149 | a scan writes exactly one reminder per due claim without an unread one, and no other |
| `Reminders.AddsOnlyJustified` | backend/src/claims/appeal-window-reminder.service.ts:74-147 | a scan only appends, and each new reminder has 1 to lead ledgers remaining to its open claim's deadline, indexed or derived |
| `Reminders.SecondScanIsSilent` | backend/src/claims/appeal-window-reminder.service.ts:126-133 | scanning again at the same ledger writes nothing |
| `Reminders.ScanMatching` | backend/src/claims/appeal-window-reminder.service.ts:84-105 | the two-branch `where` clause selects exactly the due claims |
| `Reminders.Service.HasPendingReminder` | backend/src/claims/appeal-window-reminder.service.ts:166-183 | true exactly when an unread reminder for user and claim exists |
| `Reminders.Service.RunScan` | backend/src/claims/appeal-window-reminder.service.ts:54-164 | the paged loop leaves what an unpaged scan of all claims leaves, or nothing when off, running or without a ledger |
| `Reminders.NeverTwoPending` | backend/src/claims/appeal-window-reminder.service.ts:126-147 | over every run of scans, cut scans, acknowledgements, removals and claim changes no user has two unread reminders for a claim |
| `Reminders.RemovedAndAcknowledged` | backend/src/notifications/notifications.service.ts:343-358 | a removal takes away one notification and an acknowledgement marks one, no other changes |
| `Reminders.RemindedBeforeDeadline` | backend/src/claims/appeal-window-reminder.service.ts:74-152 | scans that start before the deadline and are never more than the lead apart until past it give an open claim a reminder in its last lead ledgers |
| `Reminders.PunctualScansExist` | backend/src/claims/appeal-window-reminder.service.ts:74-152 | for every open claim there is a run meeting the coverage hypotheses |
| `Reminders.WiderGapMisses` | backend/src/claims/appeal-window-reminder.service.ts:74-75 | one ledger more between scans can miss a claim |
| `Tallies.Store.HandleVoteCast` | backend/src/indexer/indexer.service.ts:557-603 | upsert and copied counts, no change without voter or claim |
| `Tallies.LastVoteWins` | backend/src/indexer/indexer.service.ts:578-591 | a voter's row holds the latest choice on the row first created |
| `Tallies.FirstVoteStamps` | backend/src/indexer/indexer.service.ts:579-588 | a row created by a history carries the ledger and transaction of its voter's first event |
| `Tallies.RowSaysLastOption` | backend/src/indexer/indexer.service.ts:566-590 | a voter's row says approve exactly if the voter's last event had the option "Approve" |
| `Tallies.LastCountsWin` | backend/src/indexer/indexer.service.ts:597-603 | a claim's tallies are those of the last event about it |
| `Tallies.TalliesFollowVotes` | backend/src/indexer/indexer.service.ts:557-603 | from any database with agreeing tallies, if events carry running counts of the latest vote per voter, stored tallies, row counts and standing votes agree over every history |
| `Tallies.ReplayHarmlessIff` | backend/src/indexer/indexer.service.ts:557-603 | any events leave any database as it is if and only if each claim they speak of already carries the last counts, and each voter the last choice, that they bring |
| `Tallies.StretchReplayHarmlessIff` | backend/src/indexer/indexer.service.ts:557-603 | replaying a stretch of the history is harmless if and only if it says last about each claim and voter what the whole says last |
| `Tallies.TailReplayIsIdempotent` | backend/src/indexer/indexer.service.ts:557-603 | replaying any tail of the history to its end changes nothing |
| `Tallies.CutReplaySkews` | backend/src/indexer/indexer.service.ts:597-603 | replaying one old event leaves the tally wrong |
| `Tallies.PassRepairs` | backend/src/indexer/reconciliation.service.ts:90-147 | from any state one pass makes all non-finalized claims consistent and leaves finalized claims and votes alone |
| `Tallies.PassLeaves` | backend/src/indexer/reconciliation.service.ts:90-147 | what one pass leaves of each open claim, field by field, and that it is listed if and only if its tallies or its appeal count (1 under appeal, else 0) were wrong |
| `Tallies.ReportMeans` | backend/src/indexer/reconciliation.service.ts:149-156 | the report in terms of the claims alone: listed ids, clean report and number of appeal corrections |
| `Tallies.PassIsFixpoint` | backend/src/indexer/reconciliation.service.ts:90-147 | a pass changes nothing if and only if nothing was wrong; a second pass changes nothing |
| `Tallies.CleanIffSound` | backend/src/indexer/reconciliation.service.ts:149-156 | the report is clean if and only if every non-finalized claim was consistent |
| `Tallies.ReportedOncePerKind` | backend/src/indexer/reconciliation.service.ts:96-125 | a claim is listed once per kind of discrepancy it has |
| `Tallies.Store.RunReconciliation` | backend/src/indexer/reconciliation.service.ts:71-170 | the loop leaves the repaired database and an exact report: each open claim right afterwards, listed iff it was not, `ok` iff none was wrong |
| `Tallies.LeftoverHashKeptIff` | backend/src/indexer/reconciliation.service.ts:121-143 | over every sequence of votes and passes, a stale transaction hash survives if and only if the count beside it was already 0 or no pass ran |
| `Tallies.LeftoverHashStays` | backend/src/indexer/reconciliation.service.ts:121-143 | a rejected claim whose hash two passes leave in place |
| `Tallies.LateCorrectionIff` | backend/src/indexer/reconciliation.service.ts:69-109 | with votes landing between snapshot, count and write, the claim ends right if and only if what was read equals what was counted or no vote after the count changed the number standing |
| `Tallies.LateCorrectionSkews` | backend/src/indexer/reconciliation.service.ts:69-109 | one vote between count and write is undone in the tally |
| `CsvExport.CellReadsBack` | backend/src/admin/admin.service.ts:51-58 | a printed cell parses as its guarded text |
| `CsvExport.GuardedText` | backend/src/admin/admin.service.ts:52-53 | which values get a quote in front |
| `CsvExport.QuotedIff` | backend/src/admin/admin.service.ts:54-57 | a cell is put in quotes if and only if it holds a quote, comma or line break |
| `CsvExport.RowReadsBack` | backend/src/admin/admin.service.ts:61-63 | a printed row parses as its cells |
| `CsvExport.DocumentReadsBack` | backend/src/admin/admin.service.ts:51-63 | a printed table parses as its guarded cells |
| `CsvExport.UndeletedMembers` | backend/src/admin/admin.service.ts:415-417 | the exported claims are exactly the non-deleted ones |
| `CsvExport.StreamClaimsCsv` | backend/src/admin/admin.service.ts:400-439 | the paging loop ends, never restarts, and its text parses to the header and the non-deleted claims in id order |
| `CsvExport.SheetCells` | backend/src/admin/admin.service.ts:401-433 | the parsed sheet cell by cell: header names, and under each the guarded value of that field |
| `CsvExport.NoFormulaCells` | backend/src/admin/admin.service.ts:47-58 | no exported cell starts a formula |
| `VetRegistry.StepKeepsInv` | contracts/src/vet.rs:20-45 | each call keeps registry, record, specialization copy, claim ids and counter in agreement |
| `VetRegistry.RunKeepsInv` | contracts/src/lib.rs:50-79 | they agree after every run from the empty contract |
| `VetRegistry.FiledStaysFiled` | contracts/src/lib.rs:64-78 | a filed claim never changes |
| `VetRegistry.RegistryGrows` | contracts/src/vet.rs:34-44 | the registry only grows at its end |
| `VetRegistry.RegisteredIsFound` | contracts/src/vet.rs:20-32 | after a registration a specialization is found if and only if it is in the list given or another vet has it |
| `VetRegistry.FiledWithMatchingVet` | contracts/src/lib.rs:58-79 | each stored claim carries the arguments of a call of the run, at which a vet with the required specialization was on record |
| `VetRegistry.ClaimsAreFilingsInOrder` | contracts/src/lib.rs:58-79 | over every run the counter is the number of filing calls and claim i + 1 carries the arguments of the filing call at index i |
| `VetRegistry.MatchMayVanish` | contracts/src/vet.rs:20-32 | a re-registration may take the match of a filed claim away |
| `VetRegistry.ClaimsContract.RegisterVet` | contracts/src/vet.rs:20-45 | writes all three keys as the step does |
| `VetRegistry.ClaimsContract.VetSpecializations` | contracts/src/vet.rs:48-52 | the separate copy is the record's own list |
| `VetRegistry.ClaimsContract.HasVetWithSpecialization` | contracts/src/vet.rs:55-73 | the registry scan is true if and only if some active vet on record has the specialization |
| `VetRegistry.ClaimsContract.FileClaim` | contracts/src/lib.rs:50-79 | files, refuses or traps on exactly the stated conditions, with a new id |
| `VetRegistry.ClaimsContract.GetClaim` | contracts/src/lib.rs:82-87 | a claim is found exactly for the ids 1..counter |

## Left out

- The RPC node is taken to answer with the first at most 50 chain events from the start ledger, in chain order; retries and malformed answers are not modelled.
- OverlapLaws.NothingLost: one way only, because behind the edge of one batch another process may commit the rest of the ledger.
- The parser gate and the handlers other than votes: most dispatch branches test topics the parser table rejects, and the appeal handlers declare one name twice and read another that is never declared (`backend/src/indexer/indexer.service.ts:718-732`, `827`).
- Gap alerts, metrics, notifications sent after a commit, and the backfill worker.
- SHA-256, HMAC, Ed25519, JWT and random tokens are parameters; tokens and member names are fresh, token hashes collision free.
- Date formatting and parsing are parameters; a round trip asks that a time prints as quote-free ASCII and parses to itself.
- Cursors.DecodeCursor: UTF-8 and `JSON.parse` are a parameter of `DecodeWith`; this instance reads the layout the encoder prints and refuses other JSON.
- Cursors.DecodeActivityCursor: `Number` is modelled for empty text and plain or negative digit strings; spaces, exponents and hexadecimal are refused here.
- Numbers are unbounded integers: ids and ledgers above 2^53 are not rounded, and `getNumberValue` is an integer.
- Pagination.ListPage: page and total come from one snapshot; the source reads them by two concurrent queries.
- The in-memory `paginate`, which is a plain slice.
- big.js is modelled by its exact results (20-place half-up division, `toFixed`), not by its digit arrays.
- Display in other locales is modelled in the printer but has no round trip, because the parser accepts only a point.
- Redis outages and fail-open branches: commands succeed. `keyPrefix` is empty and the key scan visits every key once.
- The in-process `isProcessing` guard, the polling delays of `waitForLock`, and `wrap` as a class: the single-flight protocol is a state machine, because callers interleave inside one call.
- `RefreshTokens` serialises its calls; `RefreshRaces` interleaves the read and the write of `consume`, taking a sweep and the write with its issue as one step each. Nonces and signature checks come before.
- FixedWindow.Guard.CanActivate: windows are whole and not negative; the environment schema asks for at least 1000 ms (`backend/src/config/env.definitions.ts:1045-1052`).
- Reminders.Service.RunScan: claims do not change during one scan, and one process scans at a time; scans cut short by an error are steps of the history model.
- Notification time-to-live is modelled as a removal step; nothing in the scan reads it.
- Tallies.Store.RunReconciliation: no other write during the pass; the interleaved case is `LateCorrectionIff`, for the tally of one claim.
- CsvExport.StreamClaimsCsv: the table is fixed during the export; `streamPoliciesCsv` and `createdAt` formatting are left out.
- Soroban authorization is a flag per call, amounts are unbounded, and storage archival is left out.
- Controllers, guards, modules, the web pages, and the IPFS, Horizon, mail and webhook clients.
