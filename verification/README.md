# Safe Client Gateway: verified models

Dafny models of the parts of the Safe Client Gateway that carry real state, interleaving or framing, with
proofs about every run, every input or every reachable state.

- **Circuit breaker** (`CircuitBreakerModel`, `CircuitBreakerService`, `CircuitRuns`, `CircuitWitness`,
  `ProbeAccounting`, `HalfOpenVerdict`, `FailureWindow`, `OpeningRule`, `OpenHolds`, `CircuitHistory`): the
  service object updated in place, and a step system in which a request admitted in one state of the circuit
  records its outcome in another.
- **Request sharing** (`InFlight`): identical requests in flight share one promise, one slot and one outcome.
- **Redis cache** (`RedisStore`, `RedisCacheService`, `CacheStaleness`, `CounterWindow`, `CacheFirst`,
  `CacheFirstWitness`, `CacheFirstDataSource`): expiries that are set once, and the invalidation marker race.
- **Field encryption** (`JsText`, `Utf8`, `Hex`, `CanonicalContext`, `Envelope`, `LawfulInstance`,
  `KmsEncryptionService`, `EncryptedData`): framing, the canonical context, UTF-8, and what a stored value
  is bound to.
- **Backfill** (`WorkerPool`, `Backfill`, `Release`): a bounded pool, the batch loop, and when the flag can
  be turned on.
- **Safe signatures** (`Signatures`, `SafeSignature`): the stream parser, and the class that reads the same
  bytes a second time.
- **Chain API cache** (`ChainApi`): identity-checked eviction of failed creations.
- **Environment file** (`EnvText`, `EnvFile`, `EnvUpdate`): a printer whose output the parser must recognise.

Where the program falls short of what its comments or documentation promise, the code is modelled as it is,
a concrete run or input shows the difference, and the condition under which the promise is kept is proved:

- The limit on concurrent half-open probes (`docs/agents/ARCHITECTURE.md`, line 260) is kept in every run
  only if the threshold is 1: `ProbeAccounting.ProbeLimitHoldsIff`.
- A circuit still waiting for its retry time is said never to be cleaned up
  (`circuit-breaker.service.ts`, lines 530 to 531). The code compares activity ages only, so this needs a
  timeout of at most ten rolling windows and one millisecond: `OpenHolds.OpenHoldsIff`, and for the whole
  timeout after every opening and reopening `OpenHolds.ShutForTheTimeoutIff`.
- Failures older than the rolling window are said not to be counted
  (`circuit-breaker.interface.ts`, lines 20 to 23). The code counts a chain of failures whose neighbours are
  close. A circuit never opens late (`OpeningRule.OpensInTime`), but it opens on fewer than `threshold`
  failures in the window unless the threshold is at most 2 or the window is empty:
  `OpeningRule.OpensOnlyInWindowIff`, with a run that opens on two failures for every other configuration
  (`OpeningRule.OpensEarly`). The count kept while CLOSED is right up to a threshold of 3:
  `OpeningRule.CountsOnlyWindowIff` and `OpeningRule.CountsTooMany`.
- A circuit is said to trip on consecutive failures (`docs/agents/ARCHITECTURE.md`, line 260). A success in
  CLOSED interrupts nothing, so that holds in every run only if the threshold is 1:
  `OpeningRule.OpensOnlyOnConsecutiveIff`, with a run that opens right after a success
  (`OpeningRule.OpensDespiteSuccess`).
- The invalidation marker is said to prevent outdated data from being stored
  (`cache.first.data.source.ts`, lines 247 to 249). Four interleavings defeat it, exactly:
  `CacheFirst.WrittenPastUnlinkIff` and the runs in `CacheFirstWitness`.
- A counter is incremented under the bare key and read under the prefixed one, and an expiry that is not
  positive deletes it at once. What reads back is `RedisCacheService.CounterReadBackIff`. The shipped module
  gives no prefix (`src/datasources/cache/cache.module.ts`, line 84).
- A stored field comes back unchanged only if no surrogate in it stands alone: `Envelope.RoundTripIff`.
- A default value with a line separator in it is appended to `.env` by every update, for ever:
  `EnvUpdate.SeparatorNeverSettles`, with such a variable in `EnvUpdate.SeparatorExample`;
  `EnvUpdate.SecondUpdateChangesNothingIff` says exactly when an update settles.
- The text comment in `encryption.ts` (line 74) says `iv:authTag:encryptedData`; the code concatenates the
  three byte strings and encodes them once. `EncryptedData` follows the code.

The signature theorems speak of hex strings, which is what the callers' validation lets through
(`src/validation/entities/schemas/hex.schema.ts`). That this hypothesis is needed is remarked by three
lemmas about other strings: `Signatures.NegativeLengthIsAccepted`, `SafeSignatures.KeysCollideOutsideHex`
and `SafeSignatures.TypesDisagreeOutsideHex`.

A name such as `Reachable` or `Run` belongs to the step system of its module: runs are finite sequences of
events, each enabled when it happens, from an initial state. `now` is the one reading of the clock a call
takes. Cryptography is a record of functions (`Envelope.Primitives`) with the laws the code relies on;
`LawfulInstance` shows that the laws can hold together.

## Model

| member | source | states |
|---|---|---|
| CircuitBreakerModel.LimitIsCeiling | src/datasources/circuit-breaker/circuit-breaker.service.ts:349-357 | the half-open limit is the least whole number of failures that makes the percentage of the threshold |
| CircuitBreakerModel.HalfOpenLimit | src/datasources/circuit-breaker/circuit-breaker.service.ts:349-357 | within the schema bounds the limit is between 1 and the threshold |
| CircuitBreakerService.CircuitBreakerService.CanProceed | src/datasources/circuit-breaker/circuit-breaker.service.ts:94-110 | admits as the transition says and changes the named circuit alone |
| CircuitBreakerService.CircuitBreakerService.CanProceedInOpenState | src/datasources/circuit-breaker/circuit-breaker.service.ts:177-202 | from the retry time on the circuit turns half-open with counters cleared and the caller is its first probe; before, nothing changes |
| CircuitBreakerService.CircuitBreakerService.CanProceedInHalfOpenState | src/datasources/circuit-breaker/circuit-breaker.service.ts:219-238 | takes a slot exactly when fewer slots than the limit are taken |
| CircuitBreakerService.CircuitBreakerService.RecordSuccess | src/datasources/circuit-breaker/circuit-breaker.service.ts:290-315 | counts a half-open success and removes the circuit at the threshold; every other circuit is unchanged |
| CircuitBreakerService.CircuitBreakerService.GetOrRegisterCircuit | src/datasources/circuit-breaker/circuit-breaker.service.ts:135-164 | the existing circuit object, or a new one in its registered state, with every other entry kept |
| CircuitBreakerService.CircuitBreakerService.RecordFailure | src/datasources/circuit-breaker/circuit-breaker.service.ts:372-409 | registers, counts and opens as the transition says; every other circuit is unchanged; nothing when disabled |
| CircuitBreakerService.CircuitBreakerService.RecordFailureOf | src/datasources/circuit-breaker/circuit-breaker.service.ts:382-408 | the update of one circuit that is not OPEN, including the transition to OPEN |
| CircuitBreakerService.CircuitBreakerService.ReleaseHalfOpenProbe | src/datasources/circuit-breaker/circuit-breaker.service.ts:247-252 | one slot fewer, never below zero |
| CircuitBreakerService.CircuitBreakerService.DiscardOldFailuresOf | src/datasources/circuit-breaker/circuit-breaker.service.ts:424-445 | forgets all failures when the latest is older than the window, and none otherwise |
| CircuitBreakerService.CircuitBreakerService.Delete | src/datasources/circuit-breaker/circuit-breaker.service.ts:486-488 | removes the named circuit and no other |
| CircuitBreakerService.CircuitBreakerService.CleanupStaleCircuits | src/datasources/circuit-breaker/circuit-breaker.service.ts:505-525 | deleting while iterating keeps exactly the circuits that are not stale and counts the others |
| CircuitBreakerService.CircuitBreakerService.IsStaleCircuit | src/datasources/circuit-breaker/circuit-breaker.service.ts:536-546 | stale when never active, or inactive for more than ten rolling windows |
| CircuitRuns.ReachableInv | src/datasources/circuit-breaker/circuit-breaker.service.ts:219-315 | in every reachable state: tickets, slot counter and verdict counters agree with the history of the window |
| CircuitRuns.TrailingTrue | src/datasources/circuit-breaker/circuit-breaker.service.ts:298-300 | the longest run of successes at the end of the outcomes |
| ProbeAccounting.ProbeAccounting | src/datasources/circuit-breaker/circuit-breaker.service.ts:219-252 | over every interleaving the slot counter is at most the outstanding probes, which are at most the counter plus the outcomes stragglers recorded; exact without stragglers |
| ProbeAccounting.ProbeLimitHoldsIff | src/datasources/circuit-breaker/circuit-breaker.service.ts:207-213 | the promised limit on concurrent probes is kept in every run exactly when the threshold is 1 |
| ProbeAccounting.ProbeLimitExceeded | src/datasources/network/network.module.ts:131-160 | for every larger threshold a run in which one probe more than the limit is outstanding |
| HalfOpenVerdict.CompletionVerdict | src/datasources/circuit-breaker/circuit-breaker.service.ts:290-315 | a half-open completion closes the circuit exactly when the last `threshold` outcomes were successes, reopens it exactly when the failures reach the limit, and otherwise strictly lowers a positive budget |
| HalfOpenVerdict.WindowIsBounded | src/datasources/circuit-breaker/circuit-breaker.service.ts:298-314 | a half-open window outlives fewer than limit times threshold completions, however calls interleave |
| FailureWindow.FailureCountIsLongestChain | src/datasources/circuit-breaker/circuit-breaker.service.ts:424-445 | in CLOSED the count is the length of the longest suffix of the failure times with gaps within the window, and is below the threshold |
| FailureWindow.OpensExactlyAtThreshold | src/datasources/circuit-breaker/circuit-breaker.service.ts:372-409 | a circuit that is absent or CLOSED opens at a failure exactly when the last `threshold` failures form such a chain |
| OpeningRule.OpensInTime | src/datasources/circuit-breaker/interfaces/circuit-breaker.interface.ts:19-23 | a failure that makes `threshold` failures no older than the window always opens a circuit that is absent or CLOSED |
| OpeningRule.OpensOnlyInWindowIff | src/datasources/circuit-breaker/interfaces/circuit-breaker.interface.ts:19-23 | every opening, in every run, has `threshold` failures no older than the window exactly when the threshold is at most 2 or the window is empty |
| OpeningRule.OpensEarly | src/datasources/circuit-breaker/circuit-breaker.service.ts:406-445 | for every other configuration a run opens the circuit with exactly two failures in the window |
| OpeningRule.CountsOnlyWindowIff | src/datasources/circuit-breaker/circuit-breaker.service.ts:411-445 | in every CLOSED state the kept count is the number of failures no older than the window exactly when the threshold is at most 3 or the window is empty |
| OpeningRule.CountsTooMany | src/datasources/circuit-breaker/circuit-breaker.service.ts:424-445 | for every other configuration a run leaves a CLOSED circuit with a count one below the threshold and two failures in the window |
| OpeningRule.OpensOnlyOnConsecutiveIff | docs/agents/ARCHITECTURE.md:260 | every opening, in every run, ends `threshold` consecutive failures exactly when the threshold is 1 |
| OpeningRule.OpensDespiteSuccess | src/datasources/circuit-breaker/circuit-breaker.service.ts:290-315 | for every larger threshold a run opens the circuit at the failure right after a success in CLOSED |
| OpenHolds.OpenHoldsIff | src/datasources/circuit-breaker/circuit-breaker.service.ts:527-546 | no run of calls, late completions and cleanups gets past an OPEN circuit before its retry time exactly when the timeout is at most ten windows and a millisecond |
| OpenHolds.CleanedUpEarly | src/datasources/circuit-breaker/circuit-breaker.service.ts:505-525 | for every longer timeout a run in which the cleanup removes a waiting circuit and a call is admitted |
| OpenHolds.FirstCallIsAdmitted | src/datasources/circuit-breaker/circuit-breaker.service.ts:177-186 | an OPEN circuit admits a call exactly from its retry time on, as the only probe of a new window |
| OpenHolds.RetryTimeOfOpening | src/datasources/circuit-breaker/circuit-breaker.service.ts:457-464 | every opening, also a reopening from HALF_OPEN, sets the retry time one timeout after the failure that caused it |
| OpenHolds.ShutForTheTimeoutIff | src/datasources/circuit-breaker/circuit-breaker.service.ts:457-464 | in every run after any opening or reopening, with late completions and cleanups, no call is admitted for the whole timeout exactly when the timeout is at most ten windows and a millisecond |
| OpenHolds.AdmitsAfterTheTimeout | src/datasources/circuit-breaker/circuit-breaker.service.ts:177-202 | and after any such run a call is admitted exactly from one timeout after the opening on |
| CircuitHistory.RegistersIff | src/datasources/network/network.module.ts:147-153 | only a status of 500 or more or a request without a response registers a circuit |
| CircuitHistory.CleanupRemovesIff | src/datasources/circuit-breaker/circuit-breaker.service.ts:505-546 | in every run the cleanup removes a circuit exactly when no outcome was recorded in it for more than ten windows; a success in CLOSED is one |
| CircuitHistory.AdmittedIff | src/datasources/circuit-breaker/circuit-breaker.service.ts:94-110 | whom each state of a reachable circuit lets through; a refused call leaves no trace |
| CircuitHistory.DisabledAdmitsAll | src/datasources/circuit-breaker/circuit-breaker.service.ts:94-97 | a disabled breaker never has a circuit and admits everyone |
| CircuitHistory.ClosedCountsCompletions | src/datasources/circuit-breaker/circuit-breaker.service.ts:372-409 | in any run that ends CLOSED the failures counted from are the failing completions since a moment without a circuit, each at its own time |
| InFlight.RequestCache.Request | src/datasources/network/network.module.ts:187-214 | a caller joins the pending promise of its key or stores the one it starts |
| InFlight.RequestCache.OnFinally | src/datasources/network/network.module.ts:209-211 | deletes the key and nothing else |
| InFlight.OneRequestPerKey | src/datasources/network/network.module.ts:187-212 | at most one underlying request per key is outstanding in any reachable state |
| InFlight.CallerSharesPending | src/datasources/network/network.module.ts:187-214 | a call gets the pending request of its key, and then neither sends nor touches the circuit, or else the request it sends |
| InFlight.FinallyRemovesOwnEntry | src/datasources/network/network.module.ts:200-211 | although deletion is by key, settling a request only ever removes its own entry |
| InFlight.OneSlotOneOutcome | src/datasources/network/network.module.ts:131-216 | however many callers share a request it takes one slot and records one outcome; a refused or unguarded one takes and records none |
| InFlight.CallersKeepTheirRequest | src/datasources/network/network.module.ts:200-214 | along any run what a caller was given, and how a settled request ended, never change |
| InFlight.BreakerStaysReachable | src/datasources/network/network.module.ts:138-159 | every step of the shared requests is a step of the circuit or leaves it alone, so all circuit theorems apply |
| InFlight.CircuitFollowsRequests | src/datasources/network/network.module.ts:131-160 | over any run the circuit goes through exactly the admissions and completions of its requests, each with the outcome and time its request settled with |
| InFlight.SettledOutcomeIsRecorded | src/datasources/network/network.module.ts:143-157 | a settled request adds its own outcome to the half-open window, registers a missing circuit exactly if it failed, and adds its time to the failures of a CLOSED one |
| InFlight.ClosedCountsSettledFailures | src/datasources/network/network.module.ts:147-157 | in any run that ends CLOSED the failures counted from are the last settle times of the guarded requests that ended in a server error or without a response, once each however many callers shared them |
| InFlight.OutcomeIsDelivered | src/datasources/network/network.module.ts:200-214 | what a request settled with is what its callers find at any later time |
| RedisStore.DeltaBounds | src/domain/common/utils/number.ts:13-14 | every draw moves the value by at most the rounded-up share, either way |
| RedisStore.ExpirationUpperBound | src/datasources/cache/redis.cache.service.ts:66-71 | no draw on at most T seconds asks for more than T plus the rounded-up share of T |
| RedisStore.ExpirationPositiveIff | src/datasources/cache/redis.cache.service.ts:225-227 | for whole seconds every draw gives an expiry of at least one second exactly when the percentage is below 100 |
| RedisStore.EnforcedIff | src/datasources/cache/redis.cache.service.ts:225-227 | what Redis is asked for is the largest whole number up to the time to live and up to 2^53 less two |
| RedisStore.DeltaAtMostIff | src/domain/common/utils/number.ts:13-16 | the draws that move a value by at most k are exactly those up to (k + m) / 2m, for a largest deviation m |
| RedisCacheService.KeysDoNotCollide | src/datasources/cache/redis.cache.service.ts:158-163 | prefixing is injective and a key never meets its own marker |
| RedisCacheService.PrefixesSeparate | src/datasources/cache/redis.cache.service.ts:158-163 | services with different prefixes free of hyphens never meet on a key |
| RedisCacheService.HSetThenHGet | src/datasources/cache/redis.cache.service.ts:73-92 | a written value reads back until the expiry of its key, other fields of a live key stay, and so does the expiry it has |
| RedisCacheService.FailedHSet | src/datasources/cache/redis.cache.service.ts:73-86 | a failing write leaves nothing readable once it was cleaned up, and what it left behind when it was not |
| RedisCacheService.IncrementOpensWindow | src/datasources/cache/redis.cache.service.ts:108-126 | after an increment the count stands until the expiry the counter had, or else until the seconds asked for are over, and is zero from then on |
| RedisCacheService.RedisCacheService.AskedTtlFacts | src/datasources/cache/redis.cache.service.ts:114-121 | an expiry is asked for exactly with a positive time to live, with the given percentage or else the default one, and stays within the jitter |
| RedisCacheService.RedisCacheService.HSet | src/datasources/cache/redis.cache.service.ts:55-87 | nothing without a positive time to live; otherwise the field is written and the expiry set if there was none; after a failing command the key is absent, or as that command left it when the clean-up fails too |
| RedisCacheService.RedisCacheService.HGet | src/datasources/cache/redis.cache.service.ts:89-92 | the live value of the field |
| RedisCacheService.RedisCacheService.DeleteByKey | src/datasources/cache/redis.cache.service.ts:94-106 | the key is gone, its marker holds the time with the expiry of its first write, every other key is unchanged; when the marker write fails the call does, and the key is gone all the same |
| RedisCacheService.RedisCacheService.Increment | src/datasources/cache/redis.cache.service.ts:108-126 | one more than the live count; the expiry is set only if there was none |
| RedisCacheService.RedisCacheService.SetCounter | src/datasources/cache/redis.cache.service.ts:128-145 | sets an absent counter with its expiry, leaves a live one alone, fails on an expiry that is not positive |
| RedisCacheService.RedisCacheService.IncrementThenGet | src/datasources/cache/redis.cache.service.ts:49-126 | reading after an increment, in any state: without a prefix the new count comes back exactly when the increment left the counter alive or the count is zero; with one the reading is what it was before |
| RedisCacheService.CounterReadBackIff | src/datasources/cache/redis.cache.service.ts:108-126 | in any state a counter just incremented reads back exactly when there is no prefix and it survived its expiry, or what is read happens to hold the new count; with a prefix an increment never changes what is read |
| CacheStaleness.StalenessBound | src/datasources/cache/redis.cache.service.ts:73-77 | in every run of interleaved HSETs, EXPIREs and UNLINKs a readable value is younger than the largest expiry plus one latency |
| CacheStaleness.JitteredStalenessBound | src/datasources/cache/redis.cache.service.ts:66-77 | with at most T seconds and p percent, nothing is read one latency plus T plus the rounded-up share of T after it was written |
| CacheStaleness.ExpiryNeverMoves | src/datasources/cache/redis.cache.service.ts:75-77 | once set, the expiry survives all later writes and the key lives until exactly that time |
| CounterWindow.IncrementCountsTheWindow | src/datasources/cache/redis.cache.service.ts:108-126 | in every run an increment returns the starting value plus the increments since the counter was absent, itself included |
| CounterWindow.WindowIsFixed | src/datasources/cache/redis.cache.service.ts:114-123 | no run of increments and sets moves the expiry of a live counter |
| CacheFirst.WrittenPastUnlinkIff | src/datasources/cache/cache.first.data.source.ts:246-273 | a written response requested at or before a completed invalidation was written after its unlink exactly when it was written before the mark, checked before the mark and written after it, checked when the marker was gone, or checked when the marker had been overwritten by an older time |
| CacheFirst.StaleOnlyIf | src/datasources/cache/cache.first.data.source.ts:200-213 | hence a cached stale response got there in one of these four ways |
| CacheFirst.FreshWhenOrderly | src/datasources/cache/cache.first.data.source.ts:200-213 | ruling the four out, every cached response was requested after every completed invalidation |
| CacheFirst.ReachableInv | src/datasources/cache/redis.cache.service.ts:94-106 | what every interleaving keeps: data written after every unlink, markers equal to the last mark that landed |
| CacheFirst.WriteIsReadable | src/datasources/cache/cache.first.data.source.ts:207-213 | right after a write the field of the request holds its response, and every other field what it held |
| CacheFirst.CachedUnderOwnField | src/datasources/cache/cache.first.data.source.ts:207-213 | in every run what can be read under a field, data or 404, came from a request for that field |
| CacheFirst.ExpiredIsGone | src/datasources/cache/redis.cache.service.ts:75-77 | in every run nothing is read from data or marker once its expiry has passed |
| CacheFirst.TimesAreOfTheClock | src/datasources/cache/cache.first.data.source.ts:197-207 | start and mark times are those the clock shows, and the check sees the marker there is |
| CacheFirstWitness.WriteBetweenUnlinkAndMark | src/datasources/cache/redis.cache.service.ts:97-104 | a run caches a stale response between unlink and mark, and in no other of the four ways |
| CacheFirstWitness.MarkBetweenCheckAndWrite | src/datasources/cache/cache.first.data.source.ts:207-213 | a run caches a stale response because the mark landed between check and write, and in no other way |
| CacheFirstWitness.MarkerExpiredEarly | src/datasources/cache/redis.cache.service.ts:75-77 | a run caches a stale response because a later mark kept the expiry of an earlier one, and in no other way |
| CacheFirstWitness.MarksOutOfOrder | src/datasources/cache/redis.cache.service.ts:99-104 | a run caches a stale response because of two overlapping invalidations, and in no other way |
| CacheFirstDataSource.CacheFirstDataSource.ShouldBeCached | src/datasources/cache/cache.first.data.source.ts:259-273 | true exactly without a marker or with an integer marker strictly before the start |
| CacheFirstDataSource.CacheFirstDataSource.Begin | src/datasources/cache/cache.first.data.source.ts:133-174 | a cached value, a cached 404 told apart from it, an error for text that is not JSON, or a miss with its start time |
| CacheFirstDataSource.CacheFirstDataSource.Complete | src/datasources/cache/cache.first.data.source.ts:141-213 | data is written only past the marker check, a 404 without it, other failures not at all, and only this key changes |
| CacheFirstDataSource.CacheFirstDataSource.InvalidatedWhileFetching | src/datasources/cache/cache.first.data.source.ts:246-250 | after an invalidation during the fetch, with the marker still there at the check, the fetched data is not cached |
| Utf8.RoundTripIff | src/datasources/kms/kms-encryption.service.ts:115-185 | text survives encoding and decoding exactly when no surrogate in it stands alone |
| Utf8.EncodeInjective | src/domain/common/utils/encryption.ts:64 | well-formed texts with the same bytes are the same |
| Utf8.AsciiIsItself | src/domain/common/utils/encryption.ts:64 | ASCII text is its own bytes |
| CanonicalContext.CanonicalIff | src/domain/common/utils/encryption.ts:57-65 | two contexts have the same bytes exactly when they are equal as maps, whatever their insertion order and characters |
| CanonicalContext.SortedUnique | src/domain/common/utils/encryption.ts:58-63 | key-sorted lists with the same entries are the same list |
| CanonicalContext.EntriesInjective | src/domain/common/utils/encryption.ts:64 | the JSON text of an entry list determines the list |
| CanonicalContext.LessIff | src/domain/common/utils/encryption.ts:58-63 | keys are ordered by their first differing unit, a key before those it starts |
| CanonicalContext.CanonicalOfOwner | src/domain/common/utils/encryption.ts:57-65 | the bytes of a one-entry context of plain ASCII are the JSON text of a list with one pair |
| Envelope.ReadWrittenFrame | src/datasources/kms/kms-encryption.service.ts:120-181 | reading a written frame gives its four parts back |
| Envelope.WriteReadFrame | src/datasources/kms/kms-encryption.service.ts:163-184 | writing what was read gives the same bytes |
| Envelope.FrameAcceptedIff | src/datasources/kms/kms-encryption.service.ts:163-173 | exactly the frames with a wrapped key of 1 to 65535 bytes, a 12-byte IV and a 16-byte tag are accepted |
| Envelope.FrameLayoutIff | src/datasources/kms/kms-encryption.service.ts:163-184 | a blob is read as given parts exactly when it is two bytes of length, the wrapped key, 12 bytes of IV, the ciphertext and 16 bytes of tag |
| Envelope.StoredTextSplits | src/datasources/kms/kms-encryption.service.ts:123 | the stored text splits at its colons into exactly prefix, version and payload |
| Envelope.RoundTripIff | src/datasources/kms/kms-encryption.service.ts:103-189 | a value is read back, with the reader's flag on or off, exactly when it is well-formed and its wrapped key takes 1 to 65535 bytes |
| Envelope.BoundToContext | src/datasources/kms/kms-encryption.service.ts:93-102 | under a context that differs as a map the decryption fails |
| Envelope.ContextIsAMap | src/datasources/kms/kms-encryption.service.ts:93-102 | the order of the entries of a context does not matter |
| Envelope.StoredParts | src/datasources/kms/kms-encryption.service.ts:107-123 | the stored text holds the wrapped key, the IV drawn, and the value sealed under the key that is not stored |
| Envelope.FreshIvFreshText | src/datasources/kms/kms-encryption.service.ts:111-123 | the same value under the same data key is stored differently for every IV |
| Envelope.IndexMatchesIff | src/datasources/kms/kms-encryption.service.ts:191-209 | with a hash that separates texts, two values have the same index exactly when they are the same once normalised |
| Envelope.IndexNeedsTheKey | src/datasources/kms/kms-encryption.service.ts:204-208 | under keys whose hashes never meet no two values share an index |
| Envelope.PlaintextGate | src/datasources/kms/kms-encryption.service.ts:146-158 | plaintext passes a reader with the flag off; with the flag on it is refused unless blank |
| LawfulInstance.LawsAreConsistent | src/domain/common/utils/encryption.ts:15-51 | the laws asked of the primitives can be met together |
| KmsEncryptionService.KmsEncryptionService.OnModuleInit | src/datasources/kms/kms-encryption.service.ts:75-87 | start-up succeeds without a configured key or with one of exactly 32 bytes, and only then sets it |
| KmsEncryptionService.KmsEncryptionService.Encrypt | src/datasources/kms/kms-encryption.service.ts:103-128 | the envelope of the value, with the key buffer zeroed whether or not it fits |
| KmsEncryptionService.KmsEncryptionService.Decrypt | src/datasources/kms/kms-encryption.service.ts:146-189 | the reverse, with its errors, and the key buffer zeroed whenever one was unwrapped |
| KmsEncryptionService.KmsEncryptionService.BlindIndex | src/datasources/kms/kms-encryption.service.ts:200-209 | an index exactly when an index key is set, whatever the flag: the keyed hash of the normalised value |
| EncryptedData.RoundTrip | src/domain/common/utils/encryption.ts:77-138 | the stored bytes are IV, tag and ciphertext under the derived key, and JSON text comes back under the same key and salt exactly when it is well-formed |
| WorkerPool.BoundedAndDisjoint | scripts/backfill-field-encryption.ts:201-222 | in every interleaving at most min(concurrency, n) calls are outstanding, on different items, and a claim takes an item nobody claimed |
| WorkerPool.ResultsCompleteIff | scripts/backfill-field-encryption.ts:206-221 | in runs with rejections or without, once all workers returned every item has a result its call allowed exactly when the concurrency is at least 1 or there are no items |
| WorkerPool.ResolvesIff | scripts/backfill-field-encryption.ts:208-221 | once all workers have ended, all of them returned exactly when no call was rejected |
| WorkerPool.RunsEndTogether | scripts/backfill-field-encryption.ts:211-220 | no run gets stuck or exceeds 2 n plus workers steps, and all workers have returned exactly at that many |
| WorkerPool.PoolState.ClaimNext | scripts/backfill-field-encryption.ts:212-215 | post-increments the shared counter, in place |
| WorkerPool.PoolState.Store | scripts/backfill-field-encryption.ts:216 | stores the result under the claimed index, in place |
| WorkerPool.PoolState.Fail | scripts/backfill-field-encryption.ts:216-220 | a rejected call ends its worker and nothing else |
| Backfill.EncryptRow | scripts/backfill-field-encryption.ts:349-380 | the assignments for one row turn exactly its plaintext cells into ciphertext of their old text, with the blind index of that text where the column has one |
| Backfill.EncryptBatch | scripts/backfill-field-encryption.ts:346-381 | the pool, scheduled in any order, returns for every row of the batch the update of that row |
| Backfill.Table.SelectNeeding | scripts/backfill-field-encryption.ts:333-338 | different rows that need work, all of them if fewer than the limit |
| Backfill.Table.RunUpdate | scripts/backfill-field-encryption.ts:390-399 | changes exactly the row with the id, and nothing without assignments |
| Backfill.Table.WriteBatch | scripts/backfill-field-encryption.ts:384-402 | every row is untouched or processed, and as many fewer rows need work as the batch held |
| Backfill.Table.BackfillTable | scripts/backfill-field-encryption.ts:311-429 | it ends; then no cell needs encryption, every cell is untouched or a ciphertext of its old text under its row's scope with that text's index, and the count is the rows that needed work |
| Backfill.SecondRunChangesNothing | scripts/backfill-field-encryption.ts:325-341 | a second run finds and changes nothing |
| Release.VerifyPassesIff | scripts/backfill-field-encryption.ts:431-473 | after a backfill the verification count is zero exactly when no cell was blank and every indexed column had or got an index |
| Release.MissingIndexIsForGood | scripts/backfill-field-encryption.ts:496-507 | one cell encrypted without an index key makes verification fail in all later runs, whatever key they have |
| Release.OtherPrefixIsMalformed | src/datasources/kms/kms-encryption.service.ts:159-162 | text that starts with kms: but not with kms:v1: is refused by every reader |
| Release.ReleaseIsSafe | scripts/backfill-field-encryption.ts:517-529 | after a backfill that verifies, every value reads without error under every context that is its owner's as a map, flag on or off, and as it did before the backfill exactly unless it started with kms: without being ciphertext |
| Release.BackfilledCellReads | scripts/backfill-field-encryption.ts:349-374 | every cell that had to be encrypted reads as its old text under any context that is its owner's, flag on or off |
| Release.OtherOwnerCannotRead | scripts/backfill-field-encryption.ts:350-353 | and under the context of an owner with another scope it fails to read |
| Release.IndexFindsIff | scripts/backfill-field-encryption.ts:371-376 | the index written is the keyed hash of the normalised old text, so two cells share it exactly when these are equal |
| Hex.ParseIntOfHex | src/domain/common/utils/signatures.ts:101 | on hex digits Number.parseInt gives their value |
| Signatures.ParseSignaturesByType | src/domain/common/utils/signatures.ts:25-70 | the checks in their order, then the parts |
| Signatures.ParseParts | src/domain/common/utils/signatures.ts:40-69 | the loop computes the recursion over offsets, moving forward by at least 65 bytes a turn |
| Signatures.PartsFromIsParts | src/domain/common/utils/signatures.ts:72-103 | what is parsed from an offset depends on the rest of the string only |
| Signatures.PartsConcatenate | src/domain/common/utils/signatures.ts:38-69 | on any accepted string, hex or not, the parts are at least 65 bytes and concatenate to the input |
| Signatures.ParseIff | src/domain/common/utils/signatures.ts:19-103 | a hex string parses to a list exactly when the list is not empty, each member is 65 bytes with v other than 00 or 65 bytes with v = 00, a length and as many bytes, and together they are the string |
| Signatures.UniquelyDecodable | src/domain/common/utils/signatures.ts:19-70 | two lists of signatures never have the same concatenation |
| Signatures.RefusedIff | src/domain/common/utils/signatures.ts:40-95 | a hex string is refused with an error exactly when it is some signatures followed by a rest that breaks off in that way |
| Signatures.GuardErrors | src/domain/common/utils/signatures.ts:25-36 | on any string the prefix is checked first, then whole bytes, then 65 of them, and with all three the parts decide |
| Signatures.SourceReadsHex | src/domain/common/utils/signatures.ts:76-103 | the program's way of reading v and the length field meets what the hex theorems ask of a reader |
| SafeSignatures.SinglePartIsTheWhole | src/domain/common/entities/safe-signature.ts:24-32 | a single part is the whole input, so the second check never fires |
| SafeSignatures.SafeSignature.Create | src/domain/common/entities/safe-signature.ts:23-36 | construction succeeds exactly when the parse yields one part, and otherwise fails with the parser's error or because of concatenation |
| SafeSignatures.SafeSignature.Owner | src/domain/common/entities/safe-signature.ts:70-109 | the memoised owner is always that of the current fields, even after they were assigned; failures are not remembered |
| SafeSignatures.SafeSignature.ClearSignatureMemo | src/domain/common/entities/safe-signature.ts:111-118 | clearing keeps the memo right |
| SafeSignatures.KeyIsInjective | src/domain/common/entities/safe-signature.ts:106-108 | for 0x-prefixed hex strings the memo key determines signature and hash |
| SafeSignatures.StaticPartIsRSV | src/domain/common/entities/safe-signature.ts:38-53 | r, s and v in this order are the 65 bytes the parser delimited |
| SafeSignatures.TailIffContract | src/domain/common/entities/safe-signature.ts:55-66 | a dynamic tail is there exactly when the type is ContractSignature, and has the declared length |
| SafeSignatures.NormalisedIs65Bytes | src/domain/common/entities/safe-signature.ts:80-87 | eth_sign rewriting gives 65 bytes for every v in 31..255, keeps r and s and lowers v by four |
| SafeSignatures.OwnerByV | src/domain/common/entities/safe-signature.ts:70-141 | for every v: an address for 0 and 1, a recovery over exactly r and s for 27, 28, 31 and 32, an error otherwise |
| ChainApi.ChainApiManager.GetOrCreateApi | src/datasources/common/chain-api.manager.ts:16-38 | returns the cached creation or stores a new one |
| ChainApi.ChainApiManager.Settle | src/datasources/common/chain-api.manager.ts:25-26 | a pending creation becomes ready or fails, in place |
| ChainApi.ChainApiManager.HandleFailure | src/datasources/common/chain-api.manager.ts:27-35 | the handler of a failed creation evicts the entry when it is its own |
| ChainApi.ChainApiManager.DestroyApi | src/datasources/common/chain-api.manager.ts:44-46 | evicts the chain's entry and no other |
| ChainApi.SharedIff | src/datasources/common/chain-api.manager.ts:16-38 | two retrievals of a chain share one creation exactly when in between neither the chain was destroyed nor that creation's failure handled |
| ChainApi.NoHandledFailureIsCached | src/datasources/common/chain-api.manager.ts:27-35 | no creation whose failure handler has run is cached in any run |
| ChainApi.ResolvedServes | src/datasources/common/chain-api.manager.ts:16-38 | a creation that succeeded while cached serves its chain until a destroy, whatever fails meanwhile |
| ChainApi.RejectedIsReplaced | src/datasources/common/chain-api.manager.ts:27-35 | one rejected while cached is evicted by its handler and the next retrieval starts another |
| ChainApi.AfterDestroy | src/datasources/common/chain-api.manager.ts:44-46 | at every moment after a destroy, a retrieval gives a creation started after it |
| ChainApi.CreationsAreAccountedFor | src/datasources/common/chain-api.manager.ts:16-46 | a chain has had one creation per evicted entry, and one more while an entry is there |
| EnvFiles.FindDuplicateNames | scripts/env-json-helpers.ts:166-178 | reports every repeated occurrence in order, hence nothing exactly when the names are distinct |
| EnvText.ActiveIff | scripts/generate-env.ts:100 | the recogniser of active lines finds exactly the decompositions the regular expression allows |
| EnvText.CommentedIff | scripts/generate-env.ts:110 | the same for commented lines |
| EnvText.SanitizedIsClean | scripts/env-json-helpers.ts:94-99 | a sanitised value holds no control character but tab, and is unchanged exactly when it held none |
| EnvText.SanitizedUnitByUnit | scripts/env-json-helpers.ts:98 | exactly the control characters go, one by one, and the others keep their order |
| EnvText.EscapeInOnePass | scripts/env-json-helpers.ts:110-115 | the three replacements equal one pass from left to right over the kinds of line break |
| EnvText.EscapedIsOneLine | scripts/env-json-helpers.ts:110-115 | escaped comment text holds no line break, and is unchanged exactly when it held none |
| EnvText.ParseExistingEnv | scripts/generate-env.ts:83-120 | the loop reads the lines in order; an absent file is empty |
| EnvText.KnownIff | scripts/generate-env.ts:93-119 | a name is known exactly when some line sets or mentions it |
| EnvText.ValueStands | scripts/generate-env.ts:110-116 | a value stands until a later active line; comments never change it |
| EnvUpdate.AssignmentReadsBack | scripts/env-json-helpers.ts:125-156 | a rendered assignment is read back, without trailing white space, exactly when its trimmed line has at most 10000 units and its value no line separator |
| EnvUpdate.FitsIff | scripts/generate-env.ts:96-100 | without line separators in the default only the length decides |
| EnvFiles.EnvFile.GenerateEnvFile | scripts/generate-env.ts:213-288 | writes the new text, or changes nothing when the file exists and force is off |
| EnvFiles.EnvFile.UpdateEnvFile | scripts/generate-env.ts:130-186 | generates a missing file, and appends the missing variables to an existing one |
| EnvFiles.PushBlock | scripts/generate-env.ts:157-181 | a section is its banner and the lines of its variables, or nothing |
| EnvUpdate.UpdateReads | scripts/generate-env.ts:155-185 | the parser reads an updated file as the old lines followed by the added ones |
| EnvUpdate.UpdateIsConservative | scripts/generate-env.ts:122-126 | the old text and its last line are kept, and every name read before keeps its value, whatever values and descriptions hold |
| EnvUpdate.RequiredReadsBack | scripts/generate-env.ts:157-167 | an added required variable reads back as its default, sanitised and without trailing white space |
| EnvUpdate.UncommentedReadsBack | scripts/env-json-helpers.ts:142-156 | an optional variable printed on one line reads back as its default once the comment mark is taken away |
| EnvUpdate.DescriptionIsKeptIff | scripts/env-json-helpers.ts:110-115 | a description is printed as it is exactly when it has no line break |
| EnvUpdate.MissingIsPrinted | scripts/generate-env.ts:157-181 | an unknown variable that is required or has a default is printed as description, default hint if optional, assignment and a blank line, in this order |
| EnvUpdate.MissingKeepsOrder | scripts/generate-env.ts:143-148 | the added variables keep the order of the configuration |
| EnvUpdate.SecondUpdateChangesNothingIff | scripts/generate-env.ts:140-153 | a second update adds nothing exactly when every missing name fits on its line or is mentioned by a description |
| EnvUpdate.UpdateIsIdempotent | scripts/generate-env.ts:130-153 | if every missing variable fits, all wanted names are known afterwards and a second update adds nothing |
| EnvUpdate.UpdateAfterGenerateIff | scripts/generate-env.ts:213-263 | the same condition for an update of a file just generated |
| EnvUpdate.SeparatorNeverSettles | scripts/generate-env.ts:100-117 | while no missing variable of any configuration teaches a wanted name, each of any number of updates appends something and none makes the name known |
| EnvUpdate.SeparatorExample | scripts/generate-env.ts:100-117 | a required variable with a line separator in its default is such a name, next to any variables that do not mention it |

## Left out

- HTTP, Redis and Postgres wiring, AWS, NestJS, logging, permissions, symbolic-link checks and process exits: input and output.
- Two readings of the clock within one call (recordFailure reads it again when it opens a circuit): one reading per call.
- The clock is positive and never goes back in runs of the circuit; request ids in the runs are fresh.
- CircuitRuns follows one circuit name; that other names are untouched is stated by the class methods.
- deleteAll of the circuit breaker: a loop of deletes.
- Rounding of floating-point numbers in the jitter: real arithmetic, with the random draw as a parameter.
- Redis type errors (a counter and a hash under the same key): hashes and counters are separate maps.
- RedisCacheService.RedisCacheService.HSet: its two commands run back to back; `CacheStaleness` and `CacheFirst` let other clients act between the commands.
- CacheFirst.WrittenPastUnlinkIff: cached 404 entries are a kind of their own, since they are written without the marker check.
- CacheStaleness.StalenessBound: every EXPIRE arrives within a latency; the error path in which both EXPIRE and UNLINK fail is in `RedisCacheService.HSet` only, and leaves a key without an expiry.
- AES-GCM, KMS, HMAC, scrypt, base64, key recovery and address formatting: records of functions with the laws used; the order of checks inside the curve library is not modelled.
- Envelope.IndexMatchesIff: the keyed hash is taken to give different texts different values; a real one does so but for collisions.
- Trimming and lower-casing before the blind index: one abstract function.
- Backfill.Table.BackfillTable: no concurrent writers, a transaction that commits, and KMS keys that wrap to at most 65535 bytes (an encryption that fails stops the script).
- Hex.ParseIntOfHex: numbers are exact; beyond 2^53 JavaScript rounds, which cannot matter since the length is compared with that of a string.
- SafeSignatures.SafeSignature.Owner: signature and hash are 0x-prefixed hex, as their type says; `SafeSignatures.KeysCollideOutsideHex` shows why.
- Names inherited from Object.prototype used as request keys or chain ids (the records are plain objects).
- String(...) of a numeric or boolean default: the default is its text. The wording of the banners: any blank or comment lines that do not read as assignments.
- loadEnvJson's schema validation and JSON parsing: the variables are given, with names that match the pattern.
- The database migrator, cache key templates, name sanitising and the alert mapping: thin, or dependent on code outside this model.
