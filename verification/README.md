# A verified model of the strict rate-limit engine

The project models the strict side of a rate limiter: the token bucket, fixed window, sliding counter
and concurrency lease that PostgreSQL rows, Valkey hashes and an in-process store keep; the atomic
command protocol that debits several token buckets in one transaction; and the service boundary that
decides which backend results to believe. Every claim is for all inputs, all runs or all reachable
states of that engine.

`dafny verify dfyconfig.toml` checks the whole project.

## How it is organised

| file | what it holds |
|---|---|
| Arithmetic, Policies | uint64 words, `math/bits`, Go's truncating division; policy construction and its 2^53-1 bound |
| TokenBucket, Reference | the bucket as exact integer arithmetic, its laws over runs, and its equality with the rational oracle |
| Windows, SlidingLog | fixed and sliding windows; the 16-slot ring against an unbounded log of admissions |
| States, PersistedState | one row's strict step as a function, and the Go code itself: a class updated in place by word arithmetic and loops |
| StrictRuns, Wire, Retention | what strict steps write and never call corrupt; the packed wire form; row expiry |
| Leases, LeaseRuns | leases on values and over whole runs |
| AtomicBatch, Database, Commands | one batch, the transaction that runs it (a class over two tables), and histories of commands |
| Locks, Protocol | lock plans, and an interleaving machine of concurrent transactions with lost acknowledgements and cleaners that hold row locks |
| StrictService, Recognition, BatchRecognition, Callers | which results the service believes and what it answers for every other, that it believes everything the backends commit, exactly when it reports unknown, and what callers learn of transactions that end in every possible way |
| Binary64, Valkey, ValkeyRuns, ValkeyEdge, ValkeyRetention, ValkeyValidation | the strict Lua admission script in rounded binary64, its agreement with PostgreSQL, exactly where that ends, when the expiry of a hash shows, and which stored states it accepts |
| ValkeyLeases | the strict Lua lease scripts |
| MemoryTokens, MemoryWraps, MemoryWindows, MemoryLeases, MemoryStore, MemoryAdmission, MemoryAgreement | the in-process store: refill, int64 nanoseconds that wrap, units, leases, sharded quota and eviction, strict admission as the caller sees it, and its agreement with PostgreSQL |

## Main results

- **Exactly-once debit** (`Protocol.ConcurrentExactlyOnce`): in every interleaving of transactions, with
  retries, rollbacks, lost commit acknowledgements and cleanup, what a command has taken from a bucket is
  its cost if the command table holds an admitted receipt for it, and nothing otherwise.
- **Serialisability and no deadlock** (`Protocol.Serialisable`, `Protocol.NoWaitCycle`, `Protocol.SomeoneSteps`),
  whatever lock keys collide; cleanup is never seen (`Protocol.CleanupUnseen`).
- **Callers are told the truth** (`Callers.ConcurrentCallersTold`): in every interleaving a caller is told no error only
  with a stored admitted receipt, a known error only if nothing changed or with a stored rejected one, and unknown
  whenever a COMMIT is not acknowledged.
- **Retries** (`Commands.SecondPresentation`, `Protocol.RetriesTold`): a command presented again is told the first
  receipt exactly when nothing but request clocks differs, and is refused otherwise.
- **Token bucket** (`Reference.FreshRunRefines`, `TokenBucket.RateGuarantee`, `TokenBucket.RetryExact`): every
  decision equals the rational oracle's, the rate bound holds over any span, and RetryAfter is exact to the
  microsecond.
- **Sliding counter** (`SlidingLog.RingRefinesLog`, `SlidingLog.SlidingSafetyExact`): the ring answers as the full
  log would, and the limit is enforced over closed intervals of length L exactly when L is at most
  period - ceil(period / 16).
- **No false corruption, invisible packing, unobservable expiry** (`StrictRuns.NoFalseCorruption`,
  `Wire.StoredRunAgrees`, `Retention.ExpiryUnobservable`).
- **Leases** (`LeaseRuns.NoFalseLeaseCorruption`, `LeaseRuns.LeaseSafetyExact`, `MemoryLeases.MemoryLeaseSafetyExact`):
  no run calls a lease row corrupt, and the limit holds at an instant exactly when the latest clock has not passed it
  or no lease can have expired by that clock.
- **Backends agree** (`ValkeyRuns.BackendsAgree`, `ValkeyRuns.SlidingAgreesExactly`, `MemoryAgreement.LivesAgree`): after
  any run, revisions and losses included, Valkey's rounded arithmetic, the memory store's wrapping nanoseconds and
  PostgreSQL's integer arithmetic hold the same bucket and answer alike, where the conditions stated for each hold; for
  Valkey sliding windows the condition is exact.
- **Committed results are recognised** (`Recognition.DecisionsRecognised`, `BatchRecognition.CommandsRecognised`,
  `MemoryAdmission.AlwaysTimedExact`): no time check fires, but for memory sliding windows of certain periods beyond a
  century, and of what is known only a changed intent is reported unknown.
- **Bounded memory store** (`MemoryStore.StoreBounded`, `MemoryStore.WhoLeaves`): MaxKeys holds over every
  operation sequence and every shard function, and the victim of an eviction is unique.

## Conventions and assumptions

- Instants and durations are whole microseconds. Requests are canonicalised to microseconds before any
  state transition, so nothing is lost. `SatSub` is the saturating subtraction of Go's time package.
- SHA-256 digests are injective (rows and commands are keyed by name). Lock keys and shard choice are
  arbitrary functions: nothing is assumed of them.
- A revision label determines its policy's parameters (`StrictRuns.Family`), and window policies of one ID
  share a period. The strict code refuses a changed period as corrupt.
- A transaction commits or rolls back atomically under its locks. Row locks last until the transaction ends.
  Cleanup holds the rows it deletes, skips locked rows and never waits. A Lua script runs as one step.
- Binary64 is any monotone rounding that is exact on integers up to 2^53 and on even ones up to 2^54, and elsewhere
  within half a unit in the last place (`Binary64.Rounding`, which `Binary64.RoundingExists` shows can be met).
- The effective clock is an input everywhere; it may go backwards.

## Where the code does not do what one might expect

Where an expected law fails, the condition under which it does hold is proved, in both directions where an
"if and only if" or "exactly" is written.

- The sliding counter bounds admissions over period - ceil(period / 16), not over a whole period
  (`SlidingLog.SlidingOverrun` builds the overrun). The counter forgets a segment when its first instant leaves
  the window.
- Sliding Reset is one segment width later than the instant at which the earliest segment stops counting, although
  `docs/algorithms.md` says Reset exposes that boundary. A rejected request that waits for that segment alone is
  admitted from exactly one width before Reset on (`SlidingLog.SlidingRetryExact`).
- Keeping a token bucket for two periods is too short exactly when burst exceeds capacity (`Retention.TwoPeriodsCover`).
  PostgreSQL keeps the full refill horizon, which is exactly long enough (`Retention.HorizonExact`). Valkey keeps two
  periods, in whole milliseconds and at least a second: the expiry of a window hash is never noticed, that of a token
  hash if and only if this is short of a full refill, when it hands out tokens early
  (`ValkeyRetention.TokenHashExpiresExactly`).
- Releasing the last lease deletes the row and the clock in it. A later request with an earlier clock is then
  served at that clock, so leases can overlap there. With latest clock h, where h plus the lease is within 2^53-1, the
  limit holds at an instant in every run if and only if the instant is at or after h, or h is below one lease duration
  (`LeaseRuns.LeaseSafetyExact`; `LeaseRuns.ClockLoss` is the overlap).
- A sweep of the memory store at a later clock forgets leases and leaves the subject's own clock where it was, so an
  earlier request is granted what they held. The exact condition is the same but for where clocks start
  (`MemoryLeases.MemoryLeaseSafetyExact`; `MemoryLeases.SweptTwice` is the overlap).
- A lease row that does not exist yet starts its clock at the Unix epoch. A first lease runs from the request's instant
  if and only if that is not before the epoch; earlier it runs from the epoch (`Leases.FirstAcquisition`,
  `Leases.EarlyAcquisition`).
- The memory refill adds tokens in a wrapping uint64. It is the PostgreSQL refill if and only if the sum does not
  wrap; where it wraps, waiting loses tokens (`MemoryTokens.MemoryRefillExact`, `MemoryTokens.WrapExample`).
- Memory sliding windows size segments in nanoseconds and compute them in an int64, where the start of the window
  wraps for long periods at early instants: everything then counts as expired (`MemoryWraps.OldestWraps`). They give the
  answers the others give, Reset included, if and only if sixteen divides the period in microseconds and the
  earliest window starts, floored to a segment, within an int64 of nanoseconds (`MemoryWindows.SlidingUnitsExact`).
  Periods of up to six years are within that (`MemoryWindows.ShortUnwrapped`); with 158 years and a limit of one, memory
  admits a second request that PostgreSQL rejects (`MemoryWindows.WrapAdmits`, `MemoryWindows.LongPeriodWraps`).
- For still longer periods the current segment's start wraps too. The earliest requests are filed under a later index
  (`MemoryWraps.IndexStale`), are still counted when their Reset, itself wrapped, has passed, and the store's own time
  check then calls the answer corrupt. That can happen if and only if the period is `MemoryWraps.Overdue`
  (`MemoryAdmission.AlwaysTimedExact`). No period of up to 109 years is; one of 111 years is
  (`MemoryWraps.ShortTimely`, `MemoryWraps.OverdueExample`).
- At the very bottom of the clock range the start of a sliding window is no longer a binary64 integer. The Lua script
  gives PostgreSQL's answers from every ring accepted requests can leave if and only if the oldest segment it
  computes is the true one, or both lie before every accepted instant (`ValkeyRuns.SlidingAgreesExactly`). It is the
  true one whenever now - period is at least -(2^53-1) (`ValkeyRuns.CutoffWithin`). With a period of 17 microseconds and
  ties rounded to even the answers differ at -2^53 + 16: the script admits a second request there, PostgreSQL rejects
  it (`ValkeyEdge.BottomDisagrees`).
- A refused re-acquisition with another cost has already pruned expired leases in Valkey and in memory; PostgreSQL
  rolls back (`ValkeyLeases.LuaAcquireAgrees`).
- A retried command with a changed intent is an invalid request at the backend. That is not a category the
  service treats as safe, so a changed intent, and nothing else once the transaction has ended known, is reported
  unknown (`BatchRecognition.CommandsRecognised`).

## Model

| member | source | states |
|---|---|---|
| `Arithmetic.Floor` | postgres/state.go:614-623 | the truncating-division code yields the greatest multiple of the size not above the value, negative values included |
| `Arithmetic.PositiveRemainder` | postgres/state.go:625-631 | the adjusted Go remainder is the Euclidean one |
| `Arithmetic.FloorIndex` | postgres/state.go:450-453 | floor to a width, divided by that width, is the Euclidean segment index |
| `Policies.NewPolicy` | policy.go:97-154 | a specification is accepted exactly when every bound holds, limit times period within 2^53-1 included; the policy is valid and keeps every field, an absent cost bound as the limit and durations in microseconds |
| `Policies.IdentifierChars` | policy.go:156-168 | identifiers use the characters from - to z but for twelve separators |
| `Policies.ProductFits` | policy.go:122-126 | the overflow-free division guard is the product bound |
| `Policies.ExactRanges` | request.go:24-52 | instants, stored values and requests with their duration are accepted exactly strictly within 2^53 of the epoch |
| `Policies.SatSub` | postgres/state.go:377-378 | saturating clock difference: exact inside the duration range, the nearer end outside |
| `TokenBucket.TokenDuration` | postgres/state.go:417-436 | in word arithmetic, for a sound bucket the duration is the exact ceiling and at most 2^53-1 |
| `TokenBucket.WaitWords` | postgres/state.go:417-436 | no clamping branch of tokenDuration fires for 1 to limit tokens and a remainder below the period |
| `TokenBucket.BalanceSplits` | postgres/state.go:374-415 | tokens and remainder are quotient and remainder of one exact balance, so comparisons on tokens are comparisons on the balance |
| `TokenBucket.RefillBalance` | postgres/state.go:377-398 | a refill adds capacity per period to the exact balance up to the limit; rounding loses nothing |
| `TokenBucket.RefillComposes` | postgres/state.go:377-398 | path independence: refilling through any intermediate instant equals one refill |
| `TokenBucket.StepSound` | postgres/state.go:374-415 | what a token step leaves and answers, against the refilled balance |
| `TokenBucket.StepKeepsSound` | postgres/state.go:374-415 | a step keeps the bucket sound and its clock monotone |
| `TokenBucket.WaitExact` | postgres/state.go:417-436 | a cost is available from exactly the computed wait on |
| `TokenBucket.RunConserves` | postgres/state.go:374-415 | conservation over runs: cost admitted plus balance left is at most the balance before plus what was earned |
| `TokenBucket.RateGuarantee` | postgres/state.go:374-415 | over any span of any run, cost admitted is at most limit plus span times capacity over period |
| `TokenBucket.RejectedProbesRefill` | postgres/state.go:374-415 | any number of rejected probes is one refill |
| `TokenBucket.RetryExact` | postgres/state.go:374-436 | after a rejection, and whatever else is rejected meanwhile, the request is admitted if and only if RetryAfter has passed |
| `TokenBucket.ResetExact` | postgres/state.go:374-436 | the bucket is full from Reset on and not before |
| `TokenBucket.FullAfterWait` | postgres/state.go:417-436 | any sound bucket is full again after exactly the wait for what it lacks |
| `Reference.EqualsObserved` | ratelimittest/reference.go:356-358 | flooring and comparing rationals depends on the number only |
| `Reference.DurationExact` | ratelimittest/reference.go:342-354 | the rational delay rounded up is integer ceiling division |
| `Reference.RefillRefines` | ratelimittest/reference.go:238-251 | tokens + remainder / period stays equal to the rational balance under refill |
| `Reference.StepRefines` | ratelimittest/reference.go:238-278 | one request: every decision field and the balance left behind equal the oracle's |
| `Reference.DelayRefines` | ratelimittest/reference.go:342-354 | RetryAfter and Reset delays equal the oracle's |
| `Reference.RunRefines` | ratelimittest/reference.go:238-278 | over every request sequence under one revision, the integer bucket and the rational oracle give the same decisions, and tokens + remainder / period is the rational balance after it |
| `Reference.FreshRunRefines` | ratelimittest/reference.go:224-278 | the same, decisions and balance, from the state both create for an unseen key |
| `Windows.FixedRetryExact` | postgres/state.go:438-447 | a rejected fixed-window request is admitted, absent others, exactly from Reset on |
| `Windows.LiveSpan` | postgres/state.go:450-453 | live segments span at most sixteen indices, for negative times too |
| `Windows.CurrentSlotFree` | postgres/state.go:449-484 | the slot the current segment needs holds that segment or nothing live |
| `Windows.LiveSlotKept` | postgres/state.go:449-484 | no live slot is overwritten, and its usage never shrinks |
| `Windows.PlacedStep` | postgres/state.go:449-484 | a step leaves every used segment in the slot its index names, no later than the clock |
| `Windows.StepUsage` | postgres/state.go:449-484 | a step adds exactly the admitted cost to what every later cut-off counts |
| `SlidingLog.TrackFaithful` | postgres/state.go:449-484 | one step keeps the ring and the full log of admissions in agreement |
| `SlidingLog.RingRefinesLog` | postgres/state.go:449-484 | over every run, across limit changes and clock rollback, the ring's usage is the logged cost of the window |
| `SlidingLog.SlotHoldsSegment` | postgres/state.go:449-484 | each live slot holds exactly the cost logged in its segment |
| `SlidingLog.SlidingSafety` | postgres/state.go:449-534 | under one policy no interval of length period - width admits more than the limit |
| `SlidingLog.SlidingOverrun` | postgres/state.go:449-534 | one microsecond more and some run, on clocks the code accepts, exceeds the limit |
| `SlidingLog.SlidingSafetyExact` | postgres/state.go:449-534 | an interval length is safe if and only if it is at most period - width |
| `SlidingLog.EarliestLeaves` | postgres/state.go:449-484 | the instant at which a segment stops counting, in both directions |
| `SlidingLog.RejectionReset` | postgres/state.go:449-484 | a rejection has an earliest live segment and its Reset is formed from it; nothing leaves the window before that segment does |
| `SlidingLog.RejectedAgain` | postgres/state.go:449-534 | repeated later, a rejected request is judged by what of the same ring is still live |
| `SlidingLog.SlidingRetryExact` | postgres/state.go:449-534 | a rejected request stays rejected until one width before Reset, and if the earliest segment is all it waits for it is admitted from exactly then on |
| `PersistedStates.PersistedState.constructor` | postgres/state.go:175-184 | the state a first request creates |
| `PersistedStates.PersistedState.ForLease` | postgres/state.go:62-68 | the state a first acquisition creates, its clock at the epoch |
| `PersistedStates.PersistedState.MutateToken` | postgres/state.go:374-415 | the word-arithmetic code leaves the bucket and returns the decision of the exact token step |
| `PersistedStates.PersistedState.RefillTokens` | postgres/state.go:377-398 | the 128-bit refill equals the exact one; every Div64 precondition holds |
| `PersistedStates.RefillWords` | postgres/state.go:377-398 | the two words divided are the true numerator, and a high word at or over the period means a full bucket |
| `PersistedStates.Saturated` | postgres/state.go:377-398 | a saturated clock difference fills the bucket as the true one would |
| `PersistedStates.PersistedState.ConsumeUsed` | postgres/state.go:518-534 | in-place charging of a window equals the specification |
| `PersistedStates.PersistedState.MutateFixed` | postgres/state.go:438-447 | the fixed-window code equals its specification |
| `PersistedStates.PersistedState.MutateSliding` | postgres/state.go:449-484 | the array loops of the sliding code equal the ring specification; sums stay in one word |
| `PersistedStates.PersistedState.OpenSlot` | postgres/state.go:449-484 | the current segment's slot is opened at the Euclidean remainder |
| `PersistedStates.PersistedState.SumLive` | postgres/state.go:449-484 | the first loop yields the live usage and the least live index |
| `PersistedStates.PersistedState.ExpireSegments` | postgres/state.go:449-484 | expired segments, and only those, are cleared |
| `PersistedStates.PersistedState.SegmentsInRange` | postgres/state.go:213-219 | the segment loop accepts exactly the rings with every field in range |
| `PersistedStates.PersistedState.PositionsValid` | postgres/state.go:311-325 | accepts exactly the rings whose live segments are placed and not ahead of the clock |
| `PersistedStates.PersistedState.StrictUsage` | postgres/state.go:294-309 | the live sum, or overflow exactly when it exceeds 2^53-1 |
| `PersistedStates.PersistedState.Loaded` | postgres/state.go:186-221 | the load checks accept exactly the rows the specification accepts |
| `PersistedStates.PersistedState.WindowValid` | postgres/state.go:227-244 | the same for the checks at the effective instant |
| `PersistedStates.PersistedState.PrepareFor` | postgres/state.go:245-253 | revision carry-over, clock and period bookkeeping |
| `PersistedStates.MutateState` | postgres/state.go:170-268 | the whole mutation equals the step function; a failure leaves the loaded envelope untouched |
| `PersistedStates.Dispatch` | postgres/state.go:254-268 | the algorithm switch equals the specification's |
| `PersistedStates.PersistedState.ConcurrencyValid` | postgres/state.go:327-360 | accepts exactly valid lease states, in any map order |
| `PersistedStates.PersistedState.PruneLeases` | postgres/state.go:101-119 | in any map order: held leases kept, their total and earliest expiry, or corruption |
| `PersistedStates.PersistedState.GrantLease` | postgres/state.go:120-150 | same lease again, rejection or grant, as specified |
| `PersistedStates.PersistedState.ReleaseLease` | postgres/strict.go:423-440 | ownership checks and removal of exactly one lease |
| `PersistedStates.PersistedState.LatestLeaseExpiry` | postgres/lease.go:185-191 | the loop yields the latest expiry, at least the epoch |
| `PersistedStates.MutateLease` | postgres/state.go:61-151 | the whole lease mutation equals the acquisition step |
| `StrictRuns.TokenWritten` | postgres/state.go:170-268 | on a strictly written token row a step is never corrupt, writes well and answers completely |
| `StrictRuns.FixedWritten` | postgres/state.go:170-268 | the same for fixed windows |
| `StrictRuns.SlidingWritten` | postgres/state.go:170-268 | the same for sliding windows |
| `StrictRuns.TokenDecision` | postgres/state.go:374-415 | a token decision is complete and its Reset not before the instant |
| `StrictRuns.SlidingResetLater` | postgres/state.go:449-484 | a sliding Reset is never before the instant |
| `StrictRuns.SlidingValid` | postgres/state.go:294-325 | time only takes usage out of the window, so later checks still pass |
| `StrictRuns.StepWritten` | postgres/state.go:170-268 | all three together, across revisions up and down and clock rollback |
| `StrictRuns.StepApplies` | postgres/state.go:170-268 | on such rows a step is the algorithm's step, or overflow exactly when the clock is out of range |
| `StrictRuns.NoFalseCorruption` | postgres/state.go:195-244 | over every strict run, rows dropped at any point included, no step reports corruption, and every decision is complete and in order |
| `Wire.CoreStep` | postgres/state.go:170-268 | fields an algorithm does not read do not influence a step |
| `Wire.DecodeExact` | postgres/state.go:536-605 | strict decoding accepts exactly whole envelopes with packed metadata in range, what it accepts encodes to the same envelope, and the rest is corrupt |
| `Wire.RoundTrip` | postgres/state.go:536-605 | decoding an encoded strict state gives an equivalent state, and the same one for token buckets |
| `Wire.LegacyPassThrough` | postgres/state.go:278-292 | a released reader that decodes, admits in legacy mode and re-encodes keeps the packed period and carry |
| `Wire.StoredStep` | postgres/state.go:536-605 | a stored row and a state kept in memory answer alike and stay equivalent |
| `Wire.StoredRunAgrees` | postgres/state.go:536-605 | packing is invisible over every strict run, rows dropped at any point included |
| `Retention.HorizonExact` | postgres/strict.go:466-472 | a retention is long enough for every drained bucket if and only if it reaches the full-refill horizon |
| `Retention.TwoPeriodsCover` | postgres/strict.go:456-472 | two periods, which Valkey keeps, reach that horizon if and only if burst is at most capacity |
| `Retention.StateTTLLeast` | postgres/strict.go:456-461 | the retention of a row is the least that covers two durations, or the longest duration where they overflow it, and a second |
| `Retention.AdmissionTTLLeast` | postgres/strict.go:466-472 | that of an admission row is the least that also covers a full refill of a token bucket |
| `Retention.TokenExpires` | postgres/strict.go:344-347 | dropping a token row a full refill after its last observation changes no answer |
| `Retention.FixedExpires` | postgres/strict.go:344-347 | the same for fixed windows, one period after |
| `Retention.SlidingExpires` | postgres/strict.go:344-347 | the same for sliding windows, one period after |
| `Retention.RingForgets` | postgres/state.go:449-484 | a period after its last observation nothing of a ring is left |
| `Retention.ExpiryUnobservable` | postgres/native.go:208-226 | under an unchanged policy, loading through expiry gives the same decision and an equivalent state |
| `Leases.EarliestExpiry` | postgres/state.go:101-119 | the least expiry among held leases |
| `Leases.LatestExpiry` | postgres/lease.go:185-191 | the latest expiry, or the epoch |
| `Leases.AcquireWritten` | postgres/state.go:61-151 | no false corruption for leases across limits, durations and clock rollback |
| `Leases.AcquireAnswers` | postgres/state.go:120-150 | every lease answer is complete, with a Reset after the instant |
| `Leases.FirstAcquisition` | postgres/state.go:61-68 | a first lease runs from the request's instant if and only if that is not before the epoch, earlier from the epoch; it fails only when the lease alone leaves the exact range |
| `Leases.EarlyAcquisition` | postgres/state.go:61-68 | asked for one duration before the epoch, a lease is held for two |
| `Leases.ReacquireIdempotent` | postgres/state.go:120-137 | re-acquiring a held lease with its cost renews and charges nothing |
| `Leases.ReleaseExact` | postgres/strict.go:423-440 | a release removes exactly that lease's cost and no other record |
| `Leases.ReleaseWritten` | postgres/strict.go:423-440 | a release leaves a strictly written state |
| `LeaseRuns.LeaseExpiryUnobservable` | postgres/strict.go:357-398 | an expired lease row acquires as no row would |
| `LeaseRuns.AcquiredRowExpires` | postgres/strict.go:387-392 | a row an acquisition wrote is loaded until two durations, and a second, after its observation and not longer |
| `LeaseRuns.ReleasedRowExpires` | postgres/strict.go:440-446 | a row a release wrote is loaded exactly while one of its leases is unexpired |
| `LeaseRuns.EventWritten` | postgres/strict.go:357-454 | one strict lease event keeps the row well written and is not refused as corrupt |
| `LeaseRuns.NoFalseLeaseCorruption` | postgres/strict.go:357-454 | over every run, across limits, durations, revisions and clock rollback, no acquisition and no release calls the row corrupt |
| `LeaseRuns.AcquireInv` | postgres/strict.go:357-398 | an acquisition keeps the ledger and the row in agreement |
| `LeaseRuns.ReleaseInv` | postgres/strict.go:409-454 | so does a release, deleting the row with its last lease |
| `LeaseRuns.CleanupExact` | postgres/native.go:30-35 | cleanup removes exactly the row that would not be loaded at its clock |
| `LeaseRuns.CleanupInv` | postgres/native.go:30-35 | so does cleanup of an expired row |
| `LeaseRuns.LeaseSafety` | postgres/strict.go:357-454 | in every run under one limit and duration, revisions varying, leases granted, not released and unexpired on the latest clock cost at most the limit |
| `LeaseRuns.EarlySafety` | postgres/strict.go:357-454 | until a clock has reached one lease duration the limit holds at every instant |
| `LeaseRuns.ClockLoss` | postgres/strict.go:441-442 | once the row is deleted with its clock, a request at an earlier instant overlaps: two leases of the whole limit are unexpired there |
| `LeaseRuns.LeaseSafetyExact` | postgres/strict.go:357-454 | with a given latest clock the limit holds at an instant in every run if and only if that clock has not passed it or is below one lease duration |
| `AtomicBatch.BucketNameInjective` | policy.go:156-168 | policy ID, NUL and key determine a bucket name uniquely |
| `AtomicBatch.CommandChars` | atomic_batch.go:90-104 | command IDs use the visible characters that are no delimiters of section 5.6.2 of RFC 9110 |
| `AtomicBatch.Validate` | atomic_batch.go:69-88 | the pass with a set of seen names accepts exactly valid batches of distinct buckets |
| `AtomicBatch.Effective` | postgres/atomic.go:172-177 | the latest of the clock and every loaded state's observation |
| `AtomicBatch.BucketTried` | postgres/atomic.go:178-192 | one speculated bucket: debited when sufficient, refilled otherwise |
| `AtomicBatch.RestoredUntouched` | postgres/atomic.go:193-205 | giving a speculative debit back reports the exact refilled balance, and as Reset exactly the instant that balance is full again |
| `AtomicBatch.TrialInOrder` | postgres/atomic.go:178-192 | whatever was loaded, no speculated decision has a Reset before its bucket's observation |
| `AtomicBatch.BatchAllOrNothing` | postgres/atomic.go:164-213 | a batch is admitted exactly when every bucket suffices; then each loses its own cost, otherwise none does; every Reset is exactly when that bucket is full again |
| `AtomicBatch.DecodeReceipt` | postgres/atomic.go:232-286 | the decoding loop accepts exactly well-formed receipts |
| `AtomicBatch.EntryExact` | postgres/atomic.go:232-286 | a stored decision decodes exactly if it is this store's and revision's and a complete admission, a complete rejection with a bounded wait, or a spared bucket |
| `AtomicBatch.WrittenReceiptDecodes` | postgres/atomic.go:232-286 | every receipt a batch writes decodes, RetryAfter bound included |
| `AtomicBatch.AcceptBatch` | atomic_batch.go:140-158 | the acceptance loop accepts exactly complete results under the caller's command ID that fit their error |
| `AtomicBatch.JudgeBatch` | atomic_batch.go:138-173 | the whole result: accept and stamp, pass a known failure on, or report unknown |
| `AtomicBatch.AcceptedExactly` | atomic_batch.go:140-172 | accepted results in terms of complete decisions, the one empty result errors are passed on for, and the refusals passed on |
| `AtomicBatch.UnknownExactly` | atomic_batch.go:164-172 | an outcome is reported unknown exactly when the result is not a complete fitting one and not an empty one with a canceled, deadline or applicable safe error |
| `AtomicBatch.BatchFailsClosed` | atomic_batch.go:138-173 | protected work may proceed exactly on a complete admitted batch |
| `AtomicBatch.DecodedIsBelieved` | atomic_batch.go:140-158 | whatever decodes, the service believes |
| `Database.IntentExact` | postgres/atomic.go:65-90 | two presentations share an intent if and only if the clock profile and, in order, every policy, key, kind and cost are equal |
| `Database.IntentBinds` | postgres/atomic.go:65-89 | the same against a stored intent, field by field |
| `Database.RowExpires` | postgres/strict.go:344-347 | a written row is gone exactly once two periods, a second and, for a token bucket, a full refill have passed |
| `Database.PurgeExact` | postgres/native.go:208-226 | loading deletes exactly the row it does not load |
| `Database.SingleInOrder` | postgres/strict.go:336-347 | whatever the tables hold, an admission is committed only with a Reset in order, touches its own row alone, and a refusal changes nothing |
| `Database.AtomicRefusal` | postgres/atomic.go:90-230 | a refused command changes no table |
| `Database.Store.AdmitAtomic` | postgres/atomic.go:90-230 | the transaction equals the command run alone; the tables change exactly when the commit took effect, acknowledged or not |
| `Database.Store.Transact` | postgres/atomic.go:112-230 | replay of a stored receipt, refusal of a changed intent, or first execution |
| `Database.Store.Execute` | postgres/atomic.go:164-213 | the loops of a first execution equal the specification |
| `Database.Store.LoadRows` | postgres/atomic.go:164-171 | the load loop loads every bucket and deletes the expired rows it meets |
| `Database.WriteAll` | postgres/atomic.go:206-213 | the write loop writes every bucket of the batch |
| `Database.Observe` | postgres/atomic.go:172-177 | the observation loop yields the effective instant |
| `Database.Try` | postgres/atomic.go:178-192 | the mutation loop, abandoned at the first error, equals the specification |
| `Database.GiveBack` | postgres/atomic.go:193-205 | the restoring loop rewrites every decision of a rejected batch |
| `Commands.SingleKeeps` | postgres/strict.go:314-355 | a single admission keeps the tables good and is refused only for overflow, changing nothing |
| `Commands.OthersKept` | postgres/atomic.go:90-230 | a command leaves rows of other buckets as they were |
| `Commands.RejectionWritesNothing` | postgres/atomic.go:193-213 | a rejected batch changes no row except that expired ones may be gone |
| `Commands.AtomicKeeps` | postgres/atomic.go:90-230 | a command keeps the tables good and is refused only for a changed intent or a clock out of range |
| `Commands.AtomicDebits` | postgres/atomic.go:90-230 | measured on the bucket, a command takes exactly its cost on an admitted first execution and nothing on rejection, replay, changed intent or failure |
| `Commands.SerialKeeps` | postgres/atomic.go:90-230 | no event changes or removes a stored command |
| `Commands.ReplayOk` | postgres/atomic.go:90-230 | over every history no stored row is corrupt and every receipt decodes |
| `Commands.ExactlyOnce` | postgres/atomic.go:90-230 | over every history, what a command took from a bucket is its cost if its stored receipt is admitted, else nothing |
| `Commands.ReplayStable` | postgres/atomic.go:123-138 | once committed, the same intent returns the original receipt after any further history, and a changed clock profile, policy, key, kind or cost is refused; neither touches a row |
| `Commands.SecondPresentation` | postgres/atomic.go:123-138 | between two presentations, whatever happens in between: the second is told the first one's receipt if and only if they differ in nothing but request clocks |
| `Locks.PlanBuckets` | postgres/atomic.go:142-156 | the loop over sorted keys takes one lock per distinct key |
| `Locks.BucketPlanIncreases` | postgres/atomic.go:142-156 | bucket locks are strictly increasing and cover every key |
| `Protocol.PlanIncreases` | postgres/atomic.go:112-156 | command lock, then bucket locks: every plan is strictly increasing |
| `Protocol.OutcomeSerial` | postgres/atomic.go:90-230 | at COMMIT a transaction's effect is itself run alone on the current tables |
| `Protocol.OutcomeSpares` | postgres/atomic.go:142-156 | and it touches nothing another transaction in flight relies on |
| `Protocol.StepInv` | postgres/atomic.go:90-230 | every step of every transaction, and of cleanup, keeps the protocol invariant |
| `Protocol.CleanedStep` | postgres/native.go:30-35 | a cleaner that deletes the rows it holds disturbs no transaction in flight |
| `Protocol.Serialisable` | postgres/atomic.go:90-230 | after any interleaving the tables are those of the committed transactions in commit order |
| `Protocol.ConcurrentExactlyOnce` | postgres/atomic.go:90-230 | exactly-once debit in every concurrent run |
| `Protocol.AnswersAgree` | postgres/atomic.go:123-138 | two callers told a receipt for one command were told the same one, for presentations that differ in nothing but request clocks, and it is the stored one |
| `Protocol.LateCallers` | postgres/atomic.go:123-138 | a call begun once its command was in the table is told the stored receipt if profile, policies, keys, kinds and costs are the stored ones and a refusal otherwise, whatever ran meanwhile |
| `Protocol.RetriesTold` | postgres/atomic.go:123-138 | against another caller's receipt: a later call is told it if and only if the two differ in nothing but request clocks |
| `Protocol.FinishEnds` | postgres/atomic.go:214-230 | a transaction leaves the tables and the answer of its call run alone, by the fate of its COMMIT |
| `Protocol.GrabExact` | postgres/native.go:30-35 | a cleaner can take exactly the rows that would not be loaded at its clock and that nobody else holds |
| `Protocol.CleanupUnseen` | postgres/native.go:30-35 | in every interleaving a cleaner removes only rows expired at the clock it read, so from then on every call is told the same |
| `Protocol.WaitsUpwards` | postgres/atomic.go:142-156 | a transaction waits only for one that asks for a later lock |
| `Protocol.NoWaitCycle` | postgres/atomic.go:112-156 | no reachable state has a cycle of waiting transactions and cleaners, row locks included |
| `Protocol.SomeoneProceeds` | postgres/strict.go:276-283 | whenever a transaction or a cleaner is in flight, one of them is not blocked |
| `Protocol.SomeoneSteps` | postgres/atomic.go:90-230 | whenever a transaction or a cleaner is in flight, one of them can take a step that gets it further |
| `StrictService.AdmitFailsClosed` | strict_service.go:138-167 | work proceeds exactly on a complete admission, or on a known non-mutation the policy lets through |
| `StrictService.DeclaredExactly` | strict_errors.go:137-142 | seven categories are safe, directly or in a BackendError, and only the owned outcome type declares |
| `StrictService.AdmitTold` | strict_service.go:138-172 | the answer to every result: complete ones handed on, declared outcomes with their kind, known refusals with their error, failed open exactly where the policy lets through, everything else unknown; a denial's reason fits its error and it reports nothing left |
| `StrictService.AcquireFailsClosed` | strict_lease.go:38-64 | ownership is reported exactly for a complete lease; leases never fail open |
| `StrictService.AcquireTold` | strict_lease.go:38-64 | the answer to every lease result, likewise but never failed open |
| `StrictService.ReleaseTold` | strict_lease.go:97-117 | a release succeeds exactly when the backend said so, outcomes keep their kind, applicable refusals their error, and everything else is unknown |
| `Recognition.DecisionsRecognised` | postgres/strict.go:481-490 | over every strict run, rows dropped at any point included, the service hands on the committed decision and its error, or a known overflow; no time check fires |
| `Recognition.OutOfOrder` | postgres/strict.go:481-490 | any decision is handed on unless its Reset lies before its instant |
| `Recognition.LeaseOutOfOrder` | postgres/strict.go:492-511 | any lease is, unless it expires at or before its instant or not at its Reset |
| `Recognition.LeasesRecognised` | postgres/strict.go:492-511 | the same for leases on every strictly written row |
| `BatchRecognition.RefusalsTold` | atomic_batch.go:164-172 | unavailable, overflow, corrupt and unsupported refusals are passed on; every other refusal becomes unknown |
| `BatchRecognition.CommandsRecognised` | atomic_batch.go:138-173 | after every history the caller is handed the stored receipt with its error, or a known overflow; unknown exactly for a changed intent |
| `Callers.CallersTold` | postgres/atomic.go:123-230 | the caller of a command is told no error only with a stored admitted receipt, a known error only if nothing changed or with a stored rejected one, and unknown for every unacknowledged COMMIT that was no refusal |
| `Callers.SingleCallersTold` | postgres/strict.go:314-355 | the same for single admissions, which never fail open on what the store returns |
| `Callers.SinglesRecognised` | postgres/strict.go:314-355 | after every history an acknowledged admission is handed on with its error, and a refusal is a known overflow |
| `Callers.ConcurrentCallersTold` | postgres/atomic.go:90-230 | both, in every interleaving, against the tables when the transaction ends |
| `Binary64.FloorDivExact` | valkey/scripts.go:37-40 | rounded division then floor is exact integer division below 2^53, negative numerators included |
| `Binary64.NumInside` | valkey/scripts.go:49-58 | rounding keeps any integer on its side of a bound below 2^53 |
| `Valkey.LuaWidth` | valkey/scripts.go:207 | the rounded segment width is positive, and exact for every period within 2^53-1 |
| `Valkey.Scan` | valkey/scripts.go:206-243 | the slot loop accepts exactly well-placed rings within 2^53-1, and yields their live usage, earliest live index and expired fields |
| `ValkeyRuns.LuaRefillExact` | valkey/scripts.go:156-168 | the 2^53 guard saturates only a bucket that is full anyway; below it the refill is exact |
| `ValkeyRuns.CeilingExact` | valkey/scripts.go:37-40 | the strict ceiling is integer ceiling division |
| `ValkeyRuns.LuaWaitExact` | valkey/scripts.go:173-177 | waits come out as in the Go code |
| `ValkeyRuns.LuaTokenAgrees` | valkey/scripts.go:135-180 | the token branch leaves the bucket and answers as the row step, Reset while within 2^53-1 |
| `ValkeyRuns.LuaWindowExact` | valkey/scripts.go:52-58 | the rounded window start is in range exactly when the true one is, and then equals it |
| `ValkeyRuns.LuaFixedAgrees` | valkey/scripts.go:181-205 | the fixed-window branch agrees with the row step, carry flag included |
| `ValkeyRuns.CutoffWithin` | valkey/scripts.go:206-209 | the oldest segment is exact whenever the window starts within 2^53-1 of zero |
| `ValkeyRuns.LuaIndices` | valkey/scripts.go:206-209 | the width, the current segment and its slot come out as in the Go code at every accepted instant |
| `ValkeyRuns.MirrorPlaced` | valkey/scripts.go:214-243 | slots that mirror a strictly written ring pass every check |
| `ValkeyRuns.SlidingResetExact` | valkey/scripts.go:251 | the sliding Reset rounds nowhere while it is within 2^53-1 |
| `ValkeyRuns.LuaSlidingAgrees` | valkey/scripts.go:206-265 | wherever its oldest segment selects what the true one does, the sliding branch agrees with the row step and keeps the slots mirroring its ring; Reset, and RetryAfter formed from it, while within 2^53-1 |
| `ValkeyRuns.SlidingAgreesExactly` | valkey/scripts.go:206-265 | the sliding branch answers as the row step from every ring accepted requests can leave if and only if the two oldest segments are equal or both lie before every accepted instant |
| `ValkeyRuns.CutoffShows` | valkey/scripts.go:209-243 | otherwise one unit in the segment after the lower of the two is counted by one and not by the other, and the answers differ |
| `ValkeyRuns.ScriptAgrees` | valkey/scripts.go:46-285 | the whole script: same outcome, answer and bucket as the row step, for all three algorithms |
| `ValkeyRuns.EarlyClocks` | postgres/strict.go:68-84 | both backends refuse every instant before -(2^53-1) microseconds, with the same error |
| `ValkeyRuns.EntriesAgree` | postgres/strict.go:329-334 | one AdmitStrict call, entry checks and either clock included: same outcome, answer and bucket |
| `ValkeyRuns.BackendsAgree` | valkey/strict.go:52-75 | after any sequence of calls and losses of the bucket both backends hold the same bucket and answer the next call alike |
| `ValkeyEdge.FirstAdmitted` | valkey/scripts.go:206-265 | at -(2^53-1) both admit a first request and keep the same segment |
| `ValkeyEdge.BottomDisagrees` | valkey/scripts.go:209 | fifteen microseconds on, the rounded oldest segment has passed it: the script admits, PostgreSQL rejects |
| `ValkeyEdge.TiesExist` | valkey/scripts.go:209 | a rounding that ties to even there exists |
| `ValkeyRetention.DropAnswered` | valkey/scripts.go:46-285 | where a row may go unnoticed, so may the hash that matches it |
| `ValkeyRetention.WindowHashExpires` | valkey/strict.go:332-339 | with a window hash whose TTL has passed the script answers as without one |
| `ValkeyRetention.TokenHashExpiresExactly` | valkey/strict.go:332-339 | with every token hash whose TTL has passed it does so if and only if the TTL covers a full refill |
| `ValkeyRetention.DrainedShows` | valkey/strict.go:68 | otherwise losing a drained bucket at its TTL shows in the next answer |
| `ValkeyRetention.HashTTLCovers` | valkey/strict.go:332-339 | from half a second on, in whole half milliseconds, the TTL covers it if and only if burst is at most capacity |
| `ValkeyValidation.TokensAccepted` | valkey/scripts.go:60-150 | the script accepts the token states PostgreSQL accepts, whatever a row holds, and refuses with the same error while the clock is in range, but for balances beyond 2^53-1 under another revision |
| `ValkeyValidation.FixedAccepted` | valkey/scripts.go:60-190 | the same fixed-window states |
| `ValkeyValidation.SlidingAccepted` | valkey/scripts.go:60-243 | the same sliding states, wherever the oldest segment does not round |
| `ValkeyValidation.UnknownFields` | valkey/scripts.go:79-102 | a hash with a slot field no ring has, or with slots under another algorithm, is refused |
| `ValkeyValidation.LeasesAccepted` | valkey/scripts.go:324-400 | the acquire script refuses the lease states PostgreSQL refuses, while even expired leases are within 1024, and every duration beyond 2^53-1 |
| `ValkeyLeases.ScanLeases` | valkey/scripts.go:373-400 | the scan accepts exactly well-formed leases within 1024 and yields live total, earliest expiry and live leases; its zero sentinel is sound on nonnegative clocks |
| `ValkeyLeases.LuaAcquireAgrees` | valkey/scripts.go:324-437 | on nonnegative clocks the acquire script answers as PostgreSQL does and keeps the same leases |
| `ValkeyLeases.LuaReleaseAgrees` | valkey/scripts.go:445-512 | the release script answers as PostgreSQL does and deletes the hash with its last lease |
| `MemoryTokens.MemoryRefillExact` | memory/store.go:434-462 | the memory refill is the PostgreSQL one if and only if the token sum does not wrap |
| `MemoryTokens.WrapLoses` | memory/store.go:455-460 | where it wraps, a refill leaves fewer tokens than before |
| `MemoryTokens.WrapExample` | memory/store.go:455-460 | one request and a 2048 microsecond wait under an accepted policy that wrap |
| `MemoryTokens.SlowNeverWraps` | memory/store.go:434-462 | a capacity of at most 1998 per microsecond of period never wraps, whatever the clocks |
| `MemoryTokens.Counter.constructor` | memory/store.go:365-371 | a new key starts with a full bucket |
| `MemoryTokens.Counter.RefillTokens` | memory/store.go:434-462 | the in-place word arithmetic equals the wrapping specification; every Div64 precondition holds |
| `MemoryTokens.Counter.Admit` | memory/store.go:414-432 | admitToken decides as the PostgreSQL step on the bucket the memory refill left |
| `MemoryTokens.MemoryStepExact` | memory/store.go:414-462 | so without a wrap it decides and stores what PostgreSQL does |
| `MemoryWraps.OldestTrue` | memory/store.go:500 | where the window starts, floored to a segment, within an int64 the computed oldest segment is the true one |
| `MemoryWraps.OldestWraps` | memory/store.go:500 | elsewhere it lies at or beyond the current segment, so everything counts as expired |
| `MemoryWraps.IndexTrue` | memory/store.go:499 | the current segment is the true one where its start fits an int64 |
| `MemoryWraps.IndexStale` | memory/store.go:499 | only the first segment's start does not; requests in it are all filed under one later index |
| `MemoryWraps.StaleInOrder` | memory/store.go:518-520 | unless the period is overdue, a live misfiled segment yields no Reset before the instant |
| `MemoryWraps.OverdueReset` | memory/store.go:518-520 | if it is, that segment is live at the latest accepted instant with a Reset before it |
| `MemoryWraps.ShortTimely` | memory/store.go:497-527 | no period of up to 109 years is overdue |
| `MemoryWraps.OverdueExample` | memory/store.go:497-527 | a period of 111 years is |
| `MemoryWindows.FixedUnits` | memory/store.go:486-495 | fixed windows start at the same instants in nanoseconds and microseconds |
| `MemoryWindows.FixedUnitsAgree` | memory/store.go:486-495 | a memory fixed-window step does and answers what the PostgreSQL one does, for every period and accepted instant: a wrapped start still names one window, and Reset unwraps it |
| `MemoryWindows.WidthUnits` | memory/store.go:497-500 | segment widths agree if and only if sixteen divides the period |
| `MemoryWindows.SlidingUnitsExact` | memory/store.go:497-527 | the memory and PostgreSQL sliding steps answer alike, Reset included, from every placed ring at every accepted instant if and only if sixteen divides the period and the earliest window starts within an int64 |
| `MemoryWindows.WidthShows` | memory/store.go:498 | where sixteen does not divide it, one unit used at the epoch shows |
| `MemoryWindows.WrapShows` | memory/store.go:500 | where the start wraps, one unit used at the earliest instant shows |
| `MemoryWindows.WrapAdmits` | memory/store.go:500 | and with a limit of one memory admits what PostgreSQL rejects |
| `MemoryWindows.ShortUnwrapped` | memory/store.go:500 | no accepted window of a period of up to six years wraps |
| `MemoryWindows.LongPeriodWraps` | memory/store.go:500 | one of 158 years does |
| `MemoryWindows.FiledStep` | memory/store.go:497-527 | every index a step leaves is true and up to the clock's, or the misfiled one |
| `MemoryWindows.FiledReset` | memory/store.go:518-520 | on such rings, unless the period is overdue, Reset is never before the instant |
| `MemoryWindows.OverdueShows` | memory/store.go:497-527 | if it is, one request at the earliest and one at the latest accepted instant yield a Reset before the second |
| `MemoryLeases.Holder.constructor` | memory/store.go:365-371 | a new key holds no lease |
| `MemoryLeases.Holder.Prune` | memory/store.go:221-228 | the loop keeps exactly the unexpired leases and sums them, in any map order |
| `MemoryLeases.Holder.EarliestLease` | memory/store.go:558-566 | the earliest expiry, and none exactly when nothing is held |
| `MemoryLeases.Holder.Acquire` | memory/store.go:206-256 | acquireLocked equals its specification, its effects on a wrong owner included |
| `MemoryLeases.SameDecision` | memory/store.go:206-256 | memory and PostgreSQL decide alike on the same leases and clock |
| `MemoryLeases.MemoryLeaseSafety` | memory/store.go:206-289 | over every life of a key, swept, evicted and re-created, leases unexpired on the latest clock cost at most the limit |
| `MemoryLeases.MemoryEarlySafety` | memory/store.go:206-289 | until a clock has passed one lease duration from the earliest accepted instant the limit holds at every instant |
| `MemoryLeases.SweptTwice` | memory/store.go:320-328 | a sweep at a later clock lets the whole limit be granted twice at one instant |
| `MemoryLeases.MemoryLeaseSafetyExact` | memory/store.go:206-336 | with a given latest clock the limit holds at an instant in every life of a key if and only if that clock has not passed it or no lease can have expired by it |
| `MemoryStore.Partition` | memory/store.go:97-108 | shard quotas sum to MaxKeys, differ by at most one and are positive |
| `MemoryStore.HasActiveLease` | memory/store.go:568-575 | the loop finds an active lease exactly when there is one |
| `MemoryStore.LessExact` | memory/store.go:389-391 | the key comparison is the lexicographic one |
| `MemoryStore.VictimOldest` | memory/store.go:377-396 | the victim was seen no later than any key without an active lease, and is first in order among those seen as early |
| `MemoryStore.VictimUnique` | memory/store.go:377-396 | there is one least evictable key, so map order cannot matter |
| `MemoryStore.Shard.constructor` | memory/store.go:97-108 | a new shard is empty and within quota |
| `MemoryStore.Shard.Candidates` | memory/store.go:378-383 | exactly the keys without an active lease are collected |
| `MemoryStore.Shard.First` | memory/store.go:387-394 | the first key in (last seen, key) order |
| `MemoryStore.Shard.EvictOldest` | memory/store.go:377-396 | evicts exactly the victim, or nothing when no key is evictable |
| `MemoryStore.Shard.GetOrCreate` | memory/store.go:353-372 | finds and carries over, creates, evicts for room, or refuses, within quota |
| `MemoryStore.Shard.ServeLocked` | memory/store.go:164-184 | errors exactly for a changed algorithm or no room, and otherwise steps as specified |
| `MemoryStore.Shard.ReleaseLocked` | memory/store.go:274-289 | succeeds exactly for the lease's owner, removes only that lease, and tells a missing lease from another's |
| `MemoryStore.Shard.TrimLeases` | memory/store.go:321-328 | drops exactly the expired leases and tells whether one is active |
| `MemoryStore.Shard.SweepLocked` | memory/store.go:316-336 | removes exactly the idle keys, trims the rest, and counts what it removed |
| `MemoryStore.ServeKeys` | memory/store.go:353-396 | serving adds at most its own key and removes at most the victim of a full shard |
| `MemoryStore.ShardBounded` | memory/store.go:353-396 | over every operation sequence no shard exceeds its quota, whatever the algorithms do to their own entries |
| `MemoryStore.WhoLeaves` | memory/store.go:306-396 | a key leaves only by a sweep that finds it idle or as the victim of a full shard that may evict |
| `MemoryStore.LeasesProtected` | memory/store.go:377-396 | a key with a lease active at an operation's instant survives it |
| `MemoryStore.OnlySweepRemoves` | memory/store.go:353-372 | with RejectOnCapacity only sweeps remove keys |
| `MemoryStore.StoreBounded` | memory/store.go:81-110 | over every operation sequence, keys routed by an arbitrary shard function, the store holds at most MaxKeys keys |
| `MemoryAdmission.ServedIsAdmitted` | memory/store.go:164-183 | serving a key in a shard does to it what strict admission says |
| `MemoryAdmission.AdmitRefuses` | memory/strict.go:17-60 | exactly when a strict admission is refused |
| `MemoryAdmission.MemoryRefillSound` | memory/store.go:434-462 | a memory refill keeps a bucket sound, wrapping or not |
| `MemoryAdmission.AdmitKeeps` | memory/strict.go:17-66 | a strict admission keeps the subject sound and its answer complete, and in order unless it is an overdue sliding window's, for all three algorithms |
| `MemoryAdmission.LifeKept` | memory/strict.go:17-66 | soundness is kept over every life of a key: drops, clock rollback and revision carry-over included |
| `MemoryAdmission.AdmissionsRecognised` | memory/strict.go:61-66 | every committed decision, of all three algorithms, passes the time check unless it is an overdue sliding window's, and is one the service hands on as it is |
| `MemoryAdmission.LateCaught` | memory/strict.go:113-118 | two requests for one unit make the time check refuse an overdue sliding window's decision |
| `MemoryAdmission.AlwaysTimedExact` | memory/strict.go:113-118 | over every life of a key the time check passes every decision if and only if the family is not an overdue sliding window |
| `MemoryAdmission.AcquisitionRecognised` | memory/strict.go:71-111 | so does every lease answer |
| `MemoryAdmission.SweepIsTrim` | memory/store.go:316-336 | what a sweep does to one key's leases is a trim, or a drop of an idle key with none active |
| `MemoryAdmission.LeaseLifeRecognised` | memory/strict.go:71-111 | over every life of a key with leases |
| `MemoryAgreement.TokenAgrees` | memory/store.go:353-462 | a token request answers as the row step and leaves its bucket, across revisions, where the refill does not wrap |
| `MemoryAgreement.FixedAgrees` | memory/store.go:486-495 | so does a fixed-window request whose window starts in range |
| `MemoryAgreement.SlidingAgrees` | memory/store.go:497-527 | so does a sliding one where sixteen divides the period and the earliest window fits an int64 |
| `MemoryAgreement.LivesAgree` | memory/strict.go:17-66 | after every life of a key, drops, revisions and clock rollback included, memory and PostgreSQL hold the same bucket and answer alike |
| `MemoryAgreement.RevisionAddsNothing` | memory/store.go:398-412 | a revision change keeps the balance where it fits the new limit, caps it otherwise, and touches no usage or lease |

## Left out

- The legacy `Service`, `Batch` and `Store` paths, and mutations in legacy mode: they skip the validation and carry marking the invariants rest on. The legacy wire decoding is modelled.
- `StrictService.Batch`, and the context and argument checks of `Admit`, `Acquire` and `Release` before dispatch: thin loops and checks.
- Valkey lease agreement over runs: after a refusal as not owned the two clocks differ.
- The strict Lua script is modelled as a transition of one hash value, except its slot loop; its in-place field updates, canonical number syntax and byte limits are not. Key expiry is taken on the request's clock, not the server's.
- ValkeyRuns.BackendsAgree: for sliding windows it asks of each call the condition of ValkeyRuns.SlidingAgreesExactly. The two stores lose a bucket together. Reset is claimed only while it is within 2^53-1, and a sliding RetryAfter while Reset and its distance are.
- ValkeyRuns.ScriptAgrees: the same.
- ValkeyLeases.LuaAcquireAgrees: nonnegative clocks only; a new PostgreSQL row starts at the epoch, a new hash at the request's instant.
- LeaseRuns.LeaseSafetyExact: latest clocks that leave no room for another lease are not covered; only a cleaner can carry one.
- MemoryLeases.MemoryLeaseSafetyExact: one lease duration, and instants before 2^53-1, the last at which a lease can be asked for.
- MemoryAgreement.LivesAgree: asks a capacity of at most 1998 per microsecond of a token period, and fixed windows that start at or after -(2^53-1), which PostgreSQL refuses otherwise and memory does not.
- MemoryWindows.SlidingUnitsExact: RetryAfter is compared while it fits a duration in microseconds. The memory window code is modelled on values.
- MemoryStore.Shard.ServeLocked: the algorithm's own change to a subject is an arbitrary function, so its claims hold for every algorithm; MemoryAdmission.Apply is the one the store runs. Store-wide locks, Close and Len's per-shard snapshots are not modelled.
- MemoryStore.Shard.First: the sort is reduced to its first element, the only one used.
- Reference.FreshRunRefines: the oracle is modelled on values, not on its mutable map; its window and lease parts are not modelled.
- Protocol.Serialisable: lock waits, timeouts and cancellation appear as steps that do not happen or as Abort; PostgreSQL's own lock manager and snapshots are not modelled.
- The commit and rollback error categories of the PostgreSQL executor beyond acknowledged, lost and failed.
- JSON bytes, size limits on states and receipts, SHA-256 and FNV internals, SQL text, pgx and valkey-go.
- Go contexts, panics, observers and timers.
- Key syntax, migrations, constructors and startup checks.
- HTTP, RPC, queue, authentication, slog and OpenTelemetry adapters: thin wrappers.
