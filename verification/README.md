# Verified models of the backend's protocols, allocators and codecs

This project models, in Dafny, the parts of a multi-tenant real-estate backend that hold real
protocols rather than plain record keeping, and proves what they promise for every input, every
run and every interleaving. One module stands for one component:

- `Slots` and `Booking`: the tour slot search, booking under the per-agent advisory lock, and the
  appointment lifecycle;
- `Cache`: versioned cache-aside with invalidation after commit;
- `Outbox` and `OutboxFairness`: the transactional outbox relay;
- `Idempotency`: the Idempotency-Key protocol;
- `RefreshTokens`: refresh-token families with reuse detection;
- `RateLimit` and `Lockout`: the sliding-window limiter and the login lockout;
- `Ewkb` (over `Counted`), `EwkbBytes` and `Wkt` (over `PyString`): the geometry codecs;
- `Money`: rounding and the annuity payment;
- `Legal`: legal-page versioning;
- `Keyset`: keyset pagination of the agenda;
- `Months` and `Partitions`: the calendar and the names of monthly partitions, and their maintenance.

`Lex`, `Runs`, `Options`, `Arith` and `Text` are shared: ordered pairs and sorting, runs of a state
machine, optional values, powers of two, and decimal notation.

How to read it:

- An object whose methods update its fields is a class, and its methods are proved against a
  specification of the new state. Where requests interleave there is also a state machine whose
  actions are the single statements and round trips of the code. A schedule is any finite sequence
  of actions and a disabled action changes nothing, so a lemma about all schedules is about all
  interleavings. A lemma named `...IsASchedule`, or `TickIsADrain`, ties the class to the machine.
- Clocks, generated ids and tokens, what a handler or a credential check does, and time zones are
  parameters. Time-zone conversion is an arbitrary function, not assumed monotone.
- A lemma named `...InPlainTerms`, or `...InBytes`, says in literal numbers, fields and bytes what the
  functions the other results are built on amount to.
- A request that fails leaves its transaction's rows as they were; what commits on its own does not
  roll back with it.

Three places where the code is subtler than its comments say:

- The FOR UPDATE lock alone does not serialize publishers of a legal page. A new one waits exactly
  when another holds the current row (`Legal.WaitsIffHeld`), so two can be past the lock together:
  with no page yet (`Legal.FirstPublishersOverlap`), or when one that queued wakes up without a row
  (`Legal.QueuedPublisherOverlaps`). Of two such, one always holds no row (`Legal.OneHoldsNoRow`).
  What serializes them is the two unique indexes: a commit leaves every other publisher in flight
  unable to commit, and otherwise a publisher in flight still can (`Legal.CommitsIffNotDoomed`), so
  one that queued behind a committing one always fails.
- A printed MULTIPOLYGON reads back only when it has at least one ring and no empty ring; the reader
  fails on every other output of the writer. `Wkt.ParseInvertsPrint` gives both directions.
- From its version increment on a write is visible to every later cached read (`Cache.NoStaleRead`).
  After its commit alone a later read may still miss it, exactly when a value without it is stored
  under the current version, or is loaded and about to be stored there
  (`Cache.StaleReadIffLeftover`; `Cache.StaleBeforeBump` is such a schedule).

## Model

| member | source | states |
|---|---|---|
| Slots.SettingsOf | src/app/modules/appointments/service.py:78-95 | a configured step of 5 to 480 minutes and buffer of 0 to 240 are used as they are, anything else is an hour and no buffer, so the search loop always advances |
| Slots.BoundedFetchIsEnough | src/app/modules/appointments/repository.py:214-230 | for a slot inside the windows' span, missing the busy rows fetched for the widened span is the same as clearing every live appointment of the agent by the buffer |
| Slots.CutWindow | src/app/modules/appointments/service.py:202-213 | the cursor loop adds exactly the grid cells that fit the window and pass the filters, without duplicates, and terminates |
| Slots.CutWindows | src/app/modules/appointments/service.py:201-213 | over all windows, exactly the passing cells of some window, each once |
| Slots.AcceptedIffFree | src/app/modules/appointments/service.py:174-198 | an open cell passes the code's filters if and only if it is free as defined directly on the rules and the whole appointment table |
| Slots.FreeSlots | src/app/modules/appointments/service.py:165-215 | returns exactly the free slots, with strictly increasing starts, for any rules, settings and time-zone conversion |
| Slots.FreeInPlainTerms | src/app/modules/appointments/service.py:165-215 | with n minutes to a slot and m to the buffer, free means: n minutes long, in the future, a whole number of slots into an opening rule's hours and within them, outside every block, and m minutes clear of every requested or confirmed appointment of the agent |
| Booking.LeadsIsClosure | src/app/modules/appointments/service.py:58-70 | the reachable statuses are the reflexive transitive closure of the transition table, which two moves exhaust |
| Booking.FreeIsClear | src/app/modules/appointments/service.py:246-260 | a free slot is at least any smaller gap away from every live appointment in that calendar |
| Booking.AppointmentsService.Book | src/app/modules/appointments/service.py:226-283 | books exactly when the day is allowed and the requested start is a free slot, inserts just that row, and keeps live appointments as far apart as they were up to the buffer |
| Booking.AppointmentsService.Transition | src/app/modules/appointments/service.py:401-433 | succeeds exactly along the transition table, changes only the status, and keeps the separation |
| Booking.StepKeeps | src/app/modules/appointments/service.py:246-283 | every statement of every interleaved transaction keeps the invariant: committed rows separated, staged rows clear of the table, one booking transaction per lock key, one transition per row |
| Booking.BookingsKeepTheirDistance | src/app/modules/appointments/service.py:226-283 | in every interleaving from an empty table, committed live appointments of one agent are at least as far apart as the least buffer in force, even if lock keys collide |
| Booking.NoDoubleBooking | src/app/modules/appointments/repository.py:249-256 | with no condition on the settings, no interleaving ever commits two overlapping live appointments of one agent |
| Booking.RowsOnlyAge | src/app/modules/appointments/service.py:401-414 | over any run an appointment keeps its calendar and times, and its status only moves forward along the lifecycle |
| Booking.BookIsASchedule | src/app/modules/appointments/service.py:246-273 | a booking handled alone is the schedule lock, reserve, commit of the interleaving machine |
| Booking.TransitionIsASchedule | src/app/modules/appointments/service.py:408-414 | a transition handled alone is the schedule lock the row, commit |
| Booking.LocksWaitOnlyForTheirOwn | src/app/modules/appointments/repository.py:249-256 | the calendar lock waits exactly for a booking in flight with the same lock key, the row lock exactly for a transition in flight of the same row |
| Booking.AbortLeavesNothing | src/app/core/database.py:99-104 | an aborted transaction leaves the table alone and lets go of its locks |
| Cache.KeyNamesAreDistinct | src/app/core/cache.py:49-50 | two entries share a Redis key only if tenant, entity, ident and version are all the same, whatever the ident contains (a tenant id and an entity name hold no colon) |
| Cache.RedisCache.CacheAside | src/app/core/cache.py:79-152 | returns the stored value of the current version or the loaded one, and stores on a miss under the version read at the start; when Redis does not answer it loads and does not store |
| Cache.StepKeeps | src/app/core/cache.py:79-152 | every reader and writer step keeps: a value held or stored under a version reflects every write whose increment produced that version or an earlier one |
| Cache.NoStaleRead | src/app/core/cache.py:53-152 | a call that starts after a write's increment never returns a value that misses that write, for any number of readers and writers, failed Redis operations and late stores included |
| Cache.StaleReadIffLeftover | src/app/core/cache.py:53-152 | in every reachable state, a call yet to start can end without a committed write if and only if a value missing it is stored under the current version, or is held by a call about to store it there |
| Cache.BumpedLeavesNothing | src/app/core/cache.py:63-76 | after the increment no such leftover exists |
| Cache.StaleBeforeBump | src/app/core/database.py:103-125 | a schedule in which a reader is served the value of before, between commit and increment |
| Cache.CacheAsideIsASchedule | src/app/core/cache.py:117-152 | a call handled alone is the schedule version, fetch, load, store, the store failing or not |
| Cache.UnansweredCallIsASchedule | src/app/core/cache.py:119-125 | a call whose lookup or fetch fails loads and leaves the cache alone |
| Cache.WriteIsASchedule | src/app/core/database.py:104-114 | a write handled alone commits, then raises its scope's counter by one from zero when missing, and stores nothing |
| Outbox.Backoff | src/app/core/events.py:179-182 | the retry delay always lies between 30 and 3600 seconds |
| Outbox.BackoffDoubles | src/app/core/events.py:179-182 | 30 seconds after the first failure, then doubling up to the hour |
| Outbox.AttemptInPlainTerms | src/app/core/events.py:225-269 | delivered when every registered handler succeeds; given up at once when there is none and on the eighth failure; after an earlier one, due again in 30, 60, 120, 240, 480, 960 or 1920 seconds |
| Outbox.ClaimIsSound | src/app/core/events.py:209-221 | a claim is at most 100 distinct due rows that nobody else holds, in queue order |
| Outbox.ClaimIsFair | src/app/core/events.py:217-219 | a due unlocked row is left out only when a full batch of rows sorts before it |
| Outbox.OutboxSession.RunHandlers | src/app/core/events.py:238-244 | all effects of all handlers of the event if every one succeeds, and none at all otherwise |
| Outbox.OutboxSession.HandleEvent | src/app/core/events.py:225-269 | records the attempt on that row only (delivered, retried with backoff, or failed) and keeps exactly-once effects |
| Outbox.OutboxSession.DrainBatch | src/app/core/events.py:223-271 | every claimed row handled once, every other row untouched, and the two counts right |
| Outbox.OutboxSession.DrainOutbox | src/app/core/events.py:185-271 | one whole tick: the claim, the loop, the counts, exactly-once kept |
| Outbox.StepKeeps | src/app/core/events.py:185-271 | every step of producers and overlapping ticks keeps: batches disjoint, only pending rows held, staged effects matching staged deliveries |
| Outbox.DeliveredExactlyOnce | src/app/core/events.py:185-271 | in every committed state of every run, each handler registered for a delivered event's kind has left its effect exactly once, and nothing else has left any; attempts never exceed 8, and an event is given up only after 8 of them or when nothing consumes it |
| Outbox.TerminalRowsStay | src/app/core/events.py:79-82 | a delivered or failed event is never changed again |
| Outbox.TickIsADrain | src/app/core/events.py:185-271 | from any reachable state, a tick that runs alone and commits leaves exactly the rows and the effects `DrainOutbox` specifies |
| Outbox.NewTickSkipsHeldRows | src/app/core/events.py:190-221 | a new tick takes no row another tick holds, and passes over a due row nobody holds only behind a full batch |
| Outbox.EmitAndRollback | src/app/core/events.py:131-146 | a producer's commit adds one pending row; a rolled-back tick leaves no trace and frees its rows |
| OutboxFairness.DrainShrinksAhead | src/app/core/events.py:209-257 | a drain that passes a due event over removes exactly 100 events from ahead of it and puts none there |
| OutboxFairness.EmitInPlainTerms | src/app/core/events.py:131-146 | a committed event is one more pending row with its own due time |
| OutboxFairness.CountsAdd | src/app/core/events.py:209-221 | drains and late events are counted one by one along a run |
| OutboxFairness.EmitAddsLate | src/app/core/events.py:119-123 | an event committed meanwhile adds at most itself to what is ahead, and only if its due time sorts there |
| OutboxFairness.ClaimedInTurn | src/app/core/events.py:179-257 | a due event with k pending events ahead, and m more committed ahead of it meanwhile, is claimed within (k + m)/100 + 1 committed drains of a single relay, whatever the handlers do and whatever due times producers stamp |
| OutboxFairness.ClaimedInPlainTerms | src/app/core/events.py:209-257 | the same bound, naming the drain of the run whose claim holds the event |
| OutboxFairness.AheadInPlainTerms | src/app/core/events.py:217-217 | ahead means pending and due earlier, or at the same instant with a smaller id |
| OutboxFairness.NoStarvation | src/app/core/events.py:179-257 | if nothing is committed ahead of it, k/100 + 1 drains are enough |
| Idempotency.CacheKeysAreDistinct | src/app/core/idempotency.py:46-47 | the same header from another tenant, caller or route is another key (ids, digests and paths hold no colon) |
| Idempotency.SlotsAreDistinct | src/app/core/idempotency.py:113-123 | a request without a header has no slot, any other has one, and two share one only if caller and header are the same |
| Idempotency.OnlyOwnRequestsMatter | src/app/core/idempotency.py:46-206 | over any run of requests, whether one executes and what it is told does not change when everyone else's keys, and its caller's other keys, are taken away |
| Idempotency.FirstRequestExecutes | src/app/core/idempotency.py:118-206 | the first request of a caller with a header executes and gets its own handler's answer, whatever others sent under the same header |
| Idempotency.RetryInPlainTerms | src/app/core/idempotency.py:145-204 | a retry within the TTL of an answer below 500 is told that answer without executing; otherwise it executes |
| Idempotency.MarkerLasts | src/app/core/idempotency.py:42-43 | a crashed holder's marker keeps others out for exactly 30 seconds |
| Idempotency.RenewalExtends | src/app/core/idempotency.py:83-96 | a renewal gives the key 30 more seconds and changes nothing else; cancelling a handler leaves the key as it is |
| Idempotency.IdempotentRoute.Handle | src/app/core/idempotency.py:108-206 | the handler runs exactly when there is no key or the key is free; the reply and the key's new contents in each case |
| Idempotency.HandleIsASchedule | src/app/core/idempotency.py:108-206 | a request handled alone is a schedule of the interleaving machine, with the same keys and reply |
| Idempotency.EndingTells | src/app/core/idempotency.py:136-204 | a request's reply is the response it replays or finished with, a conflict, or the handler's error |
| Idempotency.StepKeeps | src/app/core/idempotency.py:83-206 | every step keeps: each holder has a live in-progress marker, holders have different keys, stored and replayed responses come from an execution under that key |
| Idempotency.OneAtATime | src/app/core/idempotency.py:127-206 | in every interleaving at most one handler runs per key, and every replay repeats a response below 500 that was executed under that key |
| Idempotency.StoredResponseRules | src/app/core/idempotency.py:133-206 | once a response is stored, until its TTL ends nobody executes under the key and every replay carries exactly that response |
| Idempotency.RetryIsReplayed | src/app/core/idempotency.py:136-194 | whatever interleaves, a retry within the TTL of an answer below 500 loses the claim and gets that very answer |
| Idempotency.RetryAfterErrorExecutes | src/app/core/idempotency.py:169-204 | after a server error or an exception the key is free and the next retry executes |
| Idempotency.CancelledKeyStaysTaken | src/app/core/idempotency.py:168-179 | while a request cancelled in its handler has its renewal loop running, nobody executes under its key and whoever lost the claim gets a conflict |
| RefreshTokens.AuthService.Refresh | src/app/modules/auth/service.py:282-329 | yields a new token exactly when the presented one is known in the tenant, unrevoked, unexpired and its account active; on reuse only the family revocation survives the rollback |
| RefreshTokens.AuthService.Logout | src/app/modules/auth/service.py:333-341 | revokes the presented session and no other |
| RefreshTokens.FamiliesStayTight | src/app/modules/auth/service.py:253-318 | over any serial run each family has one user, one tenant and at most one unrevoked session |
| RefreshTokens.RedeemedOnce | src/app/modules/auth/service.py:291-318 | a redeemed token never redeems again, whatever happens in between |
| RefreshTokens.RotationHandsOver | src/app/modules/auth/service.py:306-318 | rotation leaves exactly one good session in the family, of the same user and tenant, and no other family changes |
| RefreshTokens.SpentForEver | src/app/modules/auth/repository.py:34-56 | no request takes a revocation back |
| RefreshTokens.BuriedForEver | src/app/modules/auth/repository.py:34-44 | a family that is wholly revoked stays so |
| RefreshTokens.TheftBuriesTheFamily | src/app/modules/auth/service.py:291-329 | once a spent token is presented, no token of its family, old or new, yields tokens for the rest of the run |
| RefreshTokens.RedeemsInPlainTerms | src/app/modules/auth/service.py:287-309 | a token redeems exactly when its session is the tenant's, unrevoked, unexpired, and its account active |
| RefreshTokens.IssuedTokenWorks | src/app/modules/auth/service.py:253-280 | a login's token redeems from the start, in its tenant, until it expires |
| RefreshTokens.RotatedTokenWorks | src/app/modules/auth/service.py:306-318 | so does the token a rotation hands out |
| RefreshTokens.FailedRefresh | src/app/modules/auth/service.py:285-305 | a refresh that yields nothing changes nothing, unless it presents a revoked token |
| RefreshTokens.RevocationsAreExact | src/app/modules/auth/repository.py:34-56 | reuse revokes the family, forced logout the user's sessions in the tenant, a revocation the user's own session, a logout the presented one, and each leaves every other session as it was |
| RefreshTokens.ForcedLogoutIsFinal | src/app/modules/auth/service.py:348-353 | no session the user had in the tenant ever yields tokens again |
| RefreshTokens.RevokedSessionIsFinal | src/app/modules/auth/service.py:481-492 | nor a session its user revoked |
| RefreshTokens.LogoutIsFinal | src/app/modules/auth/service.py:333-341 | nor one logged out of |
| RefreshTokens.GoodUntilTaken | src/app/modules/auth/service.py:253-353 | after any run a good token redeems if and only if no request of the run rotated, revoked or logged out its session, it has not expired and its account is active |
| RateLimit.SlidingWindow.Consume | src/app/core/rate_limit.py:49-75 | one hit: the new log and expiry, the decision, and a retry-after whose last second is when the oldest hit leaves the window |
| RateLimit.Trim | src/app/core/rate_limit.py:62-62 | removes exactly the scores from 0 to the cut, keeping order |
| RateLimit.First | src/app/core/rate_limit.py:71-71 | the lowest score of the log |
| RateLimit.RetryAfter | src/app/core/rate_limit.py:72-74 | the wait ends within a second after the oldest hit's exit, and is at least 1 |
| RateLimit.LogIsTheWindow | src/app/core/rate_limit.py:60-66 | trimming and key expiry lose nothing: the log is exactly the full history's hits in the current window |
| RateLimit.AdmittedIffWithinBudget | src/app/core/rate_limit.py:49-69 | a hit is admitted if and only if the full, never trimmed history holds at most `limit` hits in (now - window, now] |
| RateLimit.NextAdmittedIff | src/app/core/rate_limit.py:60-69 | the next hit, whenever it comes, is admitted if and only if fewer than `limit` earlier hits, refused ones included, are less than a window old |
| RateLimit.WaitingMayNotSuffice | src/app/core/rate_limit.py:70-75 | with a budget of one, a hit more than a second after the oldest in its window is refused, and refused again after waiting as told |
| RateLimit.NoWindowOverBudget | src/app/core/rate_limit.py:52-55 | no window of that length, wherever it lies, holds more than `limit` admitted hits |
| RateLimit.BudgetInPlainTerms | src/app/core/rate_limit.py:49-69 | the hits of any window that were admitted, counted one by one, are at most `limit` |
| RateLimit.AdmissionInPlainTerms | src/app/core/rate_limit.py:60-69 | a hit is admitted exactly when the hits up to it less than a window old, counted one by one, are at most `limit` |
| Lockout.LoginLockout.RecordFailure | src/app/core/lockout.py:100-128 | both live counters go up by one with a new expiry, and each key at its own threshold is locked for its own delay |
| Lockout.LoginLockout.Login | src/app/modules/auth/service.py:178-193 | a login checks, then records or resets, as one step of the run |
| Lockout.LocksRunTheirCourse | src/app/core/lockout.py:88-139 | over any run of logins no lock is deleted, shortened or moved before it expires |
| Lockout.BackoffIsServed | src/app/core/lockout.py:66-139 | after a failure whose live count c reaches the threshold, the next credential check for that account or address is at least min(base * 2^(c - threshold), max) seconds later |
| Lockout.LockedForExactlyTheBackoff | src/app/core/lockout.py:117-128 | right after a failure the key is locked if and only if its live count reached the threshold, and for exactly min(base * 2^(c - threshold), max) seconds |
| Lockout.LoginInPlainTerms | src/app/core/lockout.py:88-139 | a login is checked exactly when neither of its keys is inside a lock; a success clears both keys, and no login touches other keys |
| Lockout.CounterIsFailuresInARow | src/app/core/lockout.py:100-139 | over any run of logins, a key's live count is the number of its failures in a row: none undone by a success, each less than the window after the one before |
| Ewkb.ReadRing | src/app/common/geo.py:94-97 | reads one counted ring at an offset, or fails when it is cut short |
| Ewkb.ReadRings | src/app/common/geo.py:93-99 | the ring loop keeps the first ring and moves the offset past all of them |
| Ewkb.ReadPolygon | src/app/common/geo.py:89-99 | one polygon in its own byte order |
| Ewkb.ReadPolygons | src/app/common/geo.py:87-100 | the polygon loop, rings in order |
| Ewkb.RingsFromEwkb | src/app/common/geo.py:81-100 | the offset loops compute `Decode`, including where they fail and the offset they reach |
| Ewkb.DecodeInvertsEncode | src/app/common/geo.py:81-100 | for every multipolygon, any byte order per geometry, with or without SRID, decoding its encoding gives exactly the outer rings in order and consumes every byte |
| Ewkb.DecodeExtends | src/app/common/geo.py:81-100 | bytes after the geometry change nothing and are left over |
| Ewkb.TruncationIsRefused | src/app/common/geo.py:81-100 | an encoding cut anywhere before its end is refused, never read as a smaller shape |
| EwkbBytes.HeaderInBytes | src/app/common/geo.py:82-84 | the header byte by byte: order byte 1 or 0, type 6, the bit 0x20 of its top byte and the SRID when there is one |
| EwkbBytes.EncodeInBytes | src/app/common/geo.py:85-88 | after the header, the polygon count and the polygons |
| EwkbBytes.PolygonInBytes | src/app/common/geo.py:89-93 | a polygon is its order byte, type 3, the ring count and the rings |
| EwkbBytes.RingInBytes | src/app/common/geo.py:94-99 | a ring is its point count and its points, longitude before latitude |
| EwkbBytes.DoubleInBytes | src/app/common/geo.py:96-96 | the eight bytes of a coordinate in either order |
| EwkbBytes.DecodeReadsTheHeader | src/app/common/geo.py:82-88 | for all raw bytes: any order byte but 1 is big-endian, nine header bytes exactly if the bit 0x20 of the type's top byte is set, then the count |
| EwkbBytes.DecodeOf4326 | src/app/common/geo.py:81-88 | a value starting 01 06 00 00 20 E6 10 00 00 has its polygon count at offset 9 |
| EwkbBytes.PolygonReadsBytes | src/app/common/geo.py:89-99 | for all raw bytes: a polygon is read in its own order, its type unread, its first ring kept |
| EwkbBytes.RingReadsBytes | src/app/common/geo.py:94-97 | for all raw bytes: a ring's count and points, or a failed read |
| Wkt.ToMultipolygon | src/app/common/geo.py:40-50 | the loop prints the text of the rings in order |
| Wkt.ReadRing | src/app/common/geo.py:72-76 | one chunk's coordinates, or the failure on the first pair that is not two floats |
| Wkt.RingsFromWkt | src/app/common/geo.py:67-78 | the reader's loops compute `Parsed`, failures included |
| Wkt.ParseInvertsPrint | src/app/common/geo.py:40-78 | reading a printed text gives the same rings in order if and only if there is at least one ring and none is empty, and fails otherwise |
| Wkt.PointsInPlainTerms | src/app/common/geo.py:48-48 | longitude, a space, latitude, and a comma and a space between points |
| Wkt.RingsInPlainTerms | src/app/common/geo.py:49-50 | two parentheses around each ring, and a comma and a space between rings |
| Wkt.InnerInPlainTerms | src/app/common/geo.py:68-68 | of any text the reader looks at what lies between the first opening and the last closing parenthesis |
| Wkt.UnreadableText | src/app/common/geo.py:67-78 | a text without an opening parenthesis before a closing one is refused |
| Money.ToMoneyIsNearest | src/app/common/money.py:23-26 | the nearest cent, ties away from zero |
| Money.MoneyIsKept | src/app/common/money.py:23-26 | a whole number of cents is left alone |
| Money.DefinedForOrdinaryRates | src/app/common/money.py:52-58 | for a non-negative rate the payment is defined exactly when the term is positive |
| Money.DefinedForAnyRate | src/app/common/money.py:52-58 | for any rate the payment fails exactly when the term is not positive or the debt does not grow although the rate is not zero |
| Money.AnnuityClosedForm | src/app/common/money.py:56-58 | the annuity recurrence times the rate is the growth factor less one |
| Money.BalanceClosedForm | src/app/common/money.py:45-58 | the month-by-month balance in closed form |
| Money.ExactPaymentAmortizes | src/app/common/money.py:54-58 | the unrounded payment leaves exactly zero after the last month, for any rate at which it is defined |
| Money.RoundedPaymentNearlyAmortizes | src/app/common/money.py:45-58 | the returned payment leaves a balance within half a cent's annuity of zero: 0.005 * ((1 + r)^n - 1) / r, or 0.005 * n at zero rate |
| Legal.MaxVersion | src/app/modules/content/repository.py:128-132 | the highest version, or 0 |
| Legal.PublishKeepsVersions | src/app/modules/content/service.py:231-243 | flipping the current row and inserting the next version keeps versions 1..n with the last one current |
| Legal.LegalPages.Publish | src/app/modules/content/service.py:225-250 | the new page is version n + 1 and the only current one; older pages keep their bodies |
| Legal.StepKeeps | src/app/modules/content/service.py:225-250 | every statement of every interleaved publisher keeps the versions and the row locks consistent |
| Legal.VersionsWithoutGaps | alembic/versions/0013_content_pages_legal.py:107-119 | under any interleaving the committed versions are exactly 1..n, and version n is the one current row |
| Legal.BodiesNeverChange | src/app/modules/content/service.py:225-250 | a published page keeps its version and body over any run |
| Legal.WaitsIffHeld | src/app/modules/content/repository.py:108-109 | the lock makes a new publisher wait if and only if another holds the current row |
| Legal.OneHoldsNoRow | src/app/modules/content/service.py:228-231 | in every run, of two publishers past their select one holds no row |
| Legal.FirstPublishersOverlap | src/app/modules/content/service.py:228-231 | with no page yet two publishers are past their select together |
| Legal.QueuedPublisherOverlaps | src/app/modules/content/service.py:228-231 | so are, whatever was published before, one that queued behind a committing publisher and a newcomer, and the queued one is doomed |
| Legal.CommitDoomsTheRest | alembic/versions/0013_content_pages_legal.py:107-119 | a commit dooms every other publisher in flight |
| Legal.CommitsIffNotDoomed | src/app/modules/content/service.py:231-248 | in every reachable state a publisher in flight can still commit if and only if it is not doomed: not past its select without a row while a page exists, and not waiting for a row that is no longer current |
| Legal.ClashingInsert | alembic/versions/0013_content_pages_legal.py:107-119 | an insert that clashes by version or by being current fails, unless another publisher still holds the current row, when it waits |
| Legal.CommitPublishes | src/app/modules/content/service.py:235-245 | a commit publishes the inserted body as version n + 1, current, and leaves every other body |
| Legal.PublishIsASchedule | src/app/modules/content/repository.py:100-110 | a publication handled alone is the schedule select, read the maximum, insert, commit |
| Keyset.ClampLimit | src/app/core/pagination.py:44-47 | 24 when absent, the limit itself from 1 to 100, else the nearer end |
| Keyset.ViewInPlainTerms | src/app/modules/appointments/repository.py:85-103 | the rows selected: the tenant's, and within whichever of scope, status and period is named |
| Keyset.PageIsPrefix | src/app/modules/appointments/service.py:322-340 | a page is the first rows of what remains, in order, and has a cursor exactly when more remain |
| Keyset.RestIsBeyond | src/app/modules/appointments/repository.py:125-133 | every remaining row is on the page or strictly beyond its cursor |
| Keyset.CompletedWalk | src/app/modules/appointments/repository.py:105-133 | under arbitrary changes between fetches a completed walk is strictly ordered by key, shows every key present and matching throughout, and only keys that matched at some fetch |
| Keyset.SteadyRowOnce | src/app/modules/appointments/repository.py:105-133 | a row that keeps its start and matches throughout is shown exactly once, whatever happens to the others |
| Keyset.StillWalkIsTheTable | src/app/modules/appointments/service.py:311-348 | on unchanging data the walk is exactly the sorted filtered table, for every page size |
| Months.FirstDayIsTheOrdinal | src/app/modules/analytics/service.py:76-80 | the first of a month is its proleptic Gregorian ordinal, leap years included |
| Months.NameInPlainTerms | src/app/modules/analytics/service.py:76-77 | `analytics_events_`, four digits of the year, `_`, two of the month |
| Months.NameParsesBack | src/app/modules/analytics/service.py:356-370 | a month's partition name parses back to the first day of the following month |
| Months.EndInPlainTerms | src/app/modules/analytics/service.py:356-370 | what any name ending in two parts parses to, and when to nothing |
| Months.TooFewParts | src/app/modules/analytics/service.py:361-363 | a name with fewer than two underscores is no bound |
| Partitions.CalendarAgrees | src/app/modules/analytics/service.py:72-80 | the Gregorian months follow one another and every name agrees with its bounds |
| Partitions.MonthlyIsDisjoint | src/app/modules/analytics/service.py:76-80 | two partitions that hold the same day are the same partition |
| Partitions.AnalyticsPartitions.EnsurePartitions | src/app/modules/analytics/service.py:322-337 | creates exactly the missing months of this one and the three ahead, lists exactly the new names, and fails as a whole past the last representable date |
| Partitions.AnalyticsPartitions.PruneRawEvents | src/app/modules/analytics/service.py:339-353 | drops exactly the partitions whose parsed bound is on or before the cutoff, and lists them |
| Partitions.EnsureCoversAhead | src/app/modules/analytics/service.py:322-337 | afterwards every day of those months lies in exactly one partition |
| Partitions.MonthlyInPlainTerms | src/app/modules/analytics/service.py:76-80 | what the partition results start from: each partition is one month, by its bounds and its name; an empty table is a start |
| Partitions.EnsureInPlainTerms | src/app/modules/analytics/service.py:322-337 | exactly one partition for each day of those months, and no partition that was not there before or is one of those months |
| Partitions.EnsureAfterAnyRun | src/app/modules/analytics/service.py:322-353 | after any run of both jobs, creating ahead leaves each day of this month and the months ahead in exactly one partition |
| Partitions.RecentInPlainTerms | src/app/modules/analytics/service.py:339-353 | over any run, the days a partition holds are held by some partition until they are 90 days old |
| Partitions.PruneInPlainTerms | src/app/modules/analytics/service.py:339-353 | a partition survives exactly while its upper bound is after the cutoff, and unchanged |
| Partitions.PruneDropsOnlyTheOld | src/app/modules/analytics/service.py:339-353 | a partition is dropped if and only if its every day is before the cutoff |
| Partitions.PartitionsStayDisjoint | src/app/modules/analytics/service.py:322-353 | over any run of both jobs no day lies in two partitions |
| Partitions.RecentDaysStayCovered | src/app/modules/analytics/service.py:322-353 | over any run with a non-decreasing clock, a covered day stays covered until it is 90 days old |

## Left out

- Routers, schemas, ORM declarations, migrations other than the indexes named above, RBAC, i18n,
  lead scoring and publish flags: finite or one-branch facts that would only add easy members.
- Cryptography, JWTs, the access-token denylist, MFA, OAuth and billing signatures: opaque library
  calls; the token hash is taken to be injective.
- Fallbacks when Redis fails, except in `Cache`: the limiter, the lockout and the idempotency route
  then decide without it, and no guarantee is claimed. In `Cache` an increment that fails, and
  an evicted counter, are outside the guarantee.
- External sends registered by outbox handlers (email, webhooks, push): at-least-once, not undone by
  a savepoint, so outside the exactly-once claim, which is about database effects.
- The handler registry and the settings of the lockout, the limiter and the idempotency route: fixed
  over a run. Booking settings may change between bookings.
- Concurrent refreshes of one token: the lookup takes no row lock, so the family results are for
  requests handled one after the other. Logins under lockout are likewise one at a time.
- Idempotency.IdempotentRoute.Handle: does not model response headers or a body that is not text,
  which do not affect who executes and what status and body is replayed.
- Idempotency.OneAtATime: takes it that renewal keeps its marker alive, as the loop intends. A process
  that ends leaves the marker to expire; a request cancelled in its handler leaves the renewal loop
  running, and with it the marker.
- Cache.RedisCache.CacheAside: a stored value's expiry is a step of the interleaving machine only.
- RefreshTokens.AuthService.Logout: does not model the access-token denylist.
- The purge of an offboarded tenant, whose cascade deletes its appointments, legal pages and sessions:
  `Booking.RowsOnlyAge` and `Legal.BodiesNeverChange` are about runs without it.
- OutboxFairness: one relay at a time; a drain that is rolled back does not count as one.
- Booking.AppointmentsService.Book: does not model the agent and listing lookups, the lead and
  contact rows, or notifications, which do not touch the calendar.
- Booking.AppointmentsService.Transition: does not model the actor's scope, `confirmed_at`, lead
  activity or notifications.
- RateLimit.SlidingWindow.Consume: does not claim that waiting `retry_after` guarantees admission;
  `RateLimit.NextAdmittedIff` says exactly when a later hit is admitted.
- Lockout.BackoffIsServed: is about the live counter, which `Lockout.CounterIsFailuresInARow` gives
  for any run; it does not claim that successive locks grow.
- Legal: one (tenant, kind) at a time; every query and both unique indexes are scoped to that pair.
- Keyset: a cursor is the key it encodes; its JSON and base64 form, the total count and scope
  lookup are not modelled.
- Money: the 28-digit decimal context is replaced by exact reals; `percentage_of` adds nothing hard.
- Wkt: floats are opaque, known only by printing without space, comma or parenthesis and parsing
  back; of Python's white space the model has the Latin-1 characters. `to_point` and `point_lonlat`
  are straight-line.
- Partitions: of the spellings Python's `int` accepts, names are parsed with ASCII digits only; names
  the jobs create are never anything else.
- Columns that carry no decision: `last_used_at`, `dispatched_at`, `last_error`, `effective_at`.
