# Verified models of craton-hsm-core

Dafny models of the parts of a software HSM (a PKCS#11 token written in Rust) whose
correctness is not visible from reading one function, and proofs about whole runs of them:

* the **audit log**: a background worker that stamps, hash-chains, persists and caps events,
  five generations of rotated files, recovery at start-up, and the calendar arithmetic of its
  export format (`HashChain`, `LogFiles`, `AuditWorker`, `AuditRuns`, `AuditRestarts`, `CivilDate`,
  `Rfc3339`);
* **nonces and initialisation vectors**: the compare-and-swap nonce allocator of AES-256-GCM and
  the reuse detector of AES-CBC and AES-CTR (`GcmNonce`, `IvTracker`);
* the **RSA key caches** and the minimum key size (`LruCache`, `RsaKeyCache`, `RsaModulus`);
* the **rate limiter**: token buckets, per-session and global limits, and the gate on concurrent
  operations (`TokenBucket`, `RateLimiter`, `ConcurrencyGate`);
* the **entropy health tests** of NIST SP 800-90B and the process-wide error latch
  (`EntropyHealth`, `EntropyLatch`);
* the daemon's **login throttle** (`LoginThrottle`);
* the **DER reader** for RSA public keys (`DerReader`);
* the **HMAC_DRBG** of NIST SP 800-90A (`HmacDrbg`).

`Base` holds shared types. `dafny verify dfyconfig.toml` checks everything.

## How things are modelled

Objects that the program updates in place are classes, loops are loops, and each method is proved
equal to a function on values; the theorems are about runs of those functions. Concurrent code is a
state machine: one action per atomic step or critical section, a program counter per thread, and the
theorems hold for every sequence of actions. An action that is impossible in a state leaves it as it is.

Library calls are parameters: SHA-256, HMAC, JSON encoding, RSA key parsing and RSA operations are
arbitrary functions. Where a theorem needs SHA-256 not to collide, or not to yield the zero hash,
it says so, and only for what is hashed in the run. Clocks, random bytes, the disk's success or failure,
the tie-breaking of a hash map and the arrival of commands are parameters too. Rust integer widths appear where they
matter: saturation, the casts to 64 bits in the token bucket, counters that could wrap.

## Where the code does not do what one would expect

Each of these is a proved statement with the exact condition, not an opinion.

* Deleting audit entries: the documentation says that any deletion breaks the chain
  (`docs/PRESENTATION.md`, line 121). Recovery notices every deletion, repetition or reordering except
  cutting off the end (`HashChain.OnlyTruncationIsAccepted`).
* Restart after a rotation: recovery starts from the zero hash, so once `path.1` exists every restarted
  log finds its first line broken and refuses to record (`AuditRestarts.RestartContinuesExactly`,
  `AuditRestarts.FullFileEndsRestarts`, `AuditRestarts.RestartAfterRotationRefuses`).
* The worker moves the chain on before it writes. One failed write followed by a successful one breaks
  both the in-memory check and, contrary to the comment at `src/audit/log.rs`, lines 458 to 460, later
  recovery (`AuditRuns.VerifyChainSucceedsExactly`, `AuditRuns.FailedWriteBreaksCheck`,
  `AuditRestarts.RestartContinuesExactly`, `AuditRestarts.FailedWriteStopsRestart`).
* A restart forgets the last timestamp, so that a clock set back sets the timestamps back
  (`AuditRestarts.TimestampsIncreaseExactly`, `AuditRestarts.ClockSetBack`).
* AES-CBC tracks the IV before it looks at the key length, so a refused call can use an IV up
  (`IvTracker.RefusalKeepsTracker`, `IvTracker.CbcTracksBeforeRefusing`).
* A refill that exceeds 64 bits wraps: a drained bucket with 2^43 operations per second gets nothing
  after 2^21 microseconds (`TokenBucket.SafeGapExactly`, `TokenBucket.WrappedRefillRefuses`).
* Each call drops the fraction of a microsecond since the last one, so that a bucket polled fast enough
  is never refilled (`TokenBucket.YieldLowerBound`, `TokenBucket.PollingStarves`).
* Removing a key's counter and its prefix are two steps; an encryption between them repeats a nonce
  (`GcmNonce.RepeatsExactly`, `GcmNonce.CarefulNeverRepeats`, `GcmNonce.RemovalInTwoStepsRepeats`).
* Threads that find the last place free at once all take it, so that more than 10,000 sessions can have a
  bucket (`RateLimiter.SessionsBounded`, `RateLimiter.TwoTakeTheLastPlace`).
* An increment that is still to be rolled back can turn an operation away although there is room
  (`ConcurrencyGate.LetInExactly`, `ConcurrencyGate.RollBackTurnsAway`).
* The entropy latch is checked before the lock is taken: a caller that found it clear before it was set
  can still get bytes through afterwards, or index behind the window (`EntropyLatch.LatchHolds`,
  `EntropyLatch.ReadyPassesExactly`, `EntropyLatch.LateCallerPasses`, `EntropyLatch.LateCallerPanics`).
* A zero RSA modulus is read as no byte from an RSAPublicKey and as one zero byte from a
  SubjectPublicKeyInfo; all other moduli are read alike (`DerReader.FormsAgreeExactly`).
* The lengths given for the sequences and the bit string around a key are read and not compared with
  anything (`DerReader.AcceptedExactly`).

## Model

| member | source | states |
|---|---|---|
| HashChain.RecoverChainFromFile | src/audit/log.rs:646-724 | replaying a file line by line gives the hash of the whole chain, nothing for a missing or empty file, or the number of the first line that is unreadable, garbled, mislinked or not hashable |
| HashChain.RecoveryExactly | src/audit/log.rs:646-724 | for every file: recovery finds nothing broken exactly if the file is missing, or can be opened, has no unreadable or garbled line and its events chain from zero; then it returns the hash they end at, and nothing for a missing file or a chain that ends at zero |
| HashChain.BadLineIsReported | src/audit/log.rs:667-711 | a file with an unreadable or garbled line is broken, and the number reported is at most that line's |
| HashChain.FirstRejected | src/audit/log.rs:667-711 | the reported line is the first one whose prefix does not replay: everything before it does |
| HashChain.VerifyChain | src/audit/log.rs:1048-1061 | the in-memory check answers the number of entries exactly if the list replays from zero, otherwise the index of the first entry that does not fit |
| HashChain.ChainConcat | src/audit/log.rs:228-243 | replaying two stretches of the log one after the other is replaying them together |
| HashChain.LinesOfEvents | src/audit/log.rs:646-724 | recovery of a file of written events and the in-memory replay of these events agree |
| HashChain.NoCollisionFromSha256 | src/audit/log.rs:228-243 | links of two different events differ if SHA-256 does not collide on the strings hashed for them and payload encoding is injective |
| HashChain.SameEndSameHistory | src/audit/log.rs:228-243 | two event lists that replay from zero to the same hash are the same list, if the hash tells their events apart and from zero |
| HashChain.AlteredEntryIsReported | src/audit/log.rs:646-724 | changing one entry makes recovery report a broken line no later than the next entry, across blank lines |
| HashChain.OnlyTruncationIsAccepted | src/audit/log.rs:646-724 | recovery accepts a selection of entries of a good log, in any order and number, exactly if it is a prefix of the log, if the hash tells the entries apart and from zero |
| HashChain.PositionIsUnique | src/audit/log.rs:228-243 | no two prefixes of a good log end at the same hash |
| LogFiles.RotateLogFiles | src/audit/log.rs:735-767 | the renaming loop shifts every generation up by one, the current file to generation 1, and loses only generation 5 |
| LogFiles.AppendHistory | src/audit/log.rs:428-463 | one append adds its event at the end of what the files hold together; existing generations stay 1 to k with k at most 5; only a rotation with five generations drops anything, and then the oldest file |
| LogFiles.FilesHoldSuffix | src/audit/log.rs:428-463 | after any number of appends and rotations path.5 down to path.1 and then path hold a contiguous suffix of all events written, and all of them while fewer than five generations exist |
| LogFiles.RotatedFilesStayLinked | src/audit/log.rs:735-767 | each file replays from the hash its first event names to the hash the next younger file's first event names, the current file to the last hash |
| AuditWorker.WallTimestamp | src/audit/log.rs:384-387 | the timestamp is the 64-bit value nearest to the clock reading, also before the epoch or beyond 64 bits |
| AuditWorker.AuditLog.constructor | src/audit/log.rs:593-635 | start-up continues from the recovered hash, starts at zero without a file, and refuses to record when recovery finds the file broken |
| AuditWorker.AuditLog.ProcessRecord | src/audit/log.rs:367-480 | one record: refused when tampering was seen, timestamp forced up or exhausted, hash chained before the write, committed only if serialised and written, list capped |
| AuditWorker.FateOfRecord | src/audit/log.rs:367-463 | exactly when a record is refused, finds the clock exhausted, cannot be serialised, is not written or is committed, which timestamp it gets, and when the log stops recording |
| AuditWorker.RunTells | src/audit/log.rs:409-416 | every event chained in a run carries the session, operation, key and result of its own record |
| AuditWorker.CommittedTell | src/audit/log.rs:409-416 | the events committed in a run tell exactly what the committed records asked for, in order |
| AuditWorker.EntriesTell | src/audit/log.rs:409-477 | the in-memory list of a new log tells what the last 100,000 committed records asked for, in order |
| AuditWorker.AuditLog.WriteLine | src/audit/log.rs:430-453 | a full current file is rotated away before the line is written |
| AuditWorker.AuditLog.HandleRecord | src/audit/log.rs:484-508 | a record is processed in queue order, and only then its synchronous caller is told whether the event was committed |
| AuditWorker.AuditLog.HandleFlush | src/audit/log.rs:509-541 | a flush drains what has arrived, answers records and flushes met on the way, and is acknowledged after all of it, in the state that leaves |
| AuditWorker.AuditLog.WorkerLoop | src/audit/log.rs:482-547 | for every queue and every timing of drains: final state and order of processing as if the commands ran one by one; in the one trace of what happens, every reply comes after all records ahead of it, carries the log as it is then, and comes exactly once; success means committed |
| AuditWorker.RepliesFollowRecords | src/audit/log.rs:482-547 | before a flush is acknowledged every record ahead of it has been processed with its outcome and state; before a caller hears of success its event is committed |
| AuditWorker.EarlyReplyIsOutOfOrder | src/audit/log.rs:509-541 | a trace that answers a command before any record was processed is out of order, unless no record comes before that command |
| AuditWorker.RunChains | src/audit/log.rs:384-426 | for every clock, even stuck or running backwards, the events chained in a run link from the starting hash to the worker's hash with strictly increasing timestamps |
| AuditWorker.CommittedTimestampsIncrease | src/audit/log.rs:389-407 | timestamps of the committed events strictly increase, failed writes in between included |
| AuditWorker.RunKeepsLatest | src/audit/log.rs:465-477 | the in-memory list is the last min(n, 100,000) committed events |
| AuditRuns.VerifyChainSucceedsExactly | src/audit/log.rs:1048-1061 | the in-memory check succeeds after a run if nothing was committed, or the chain started in this process, at most 100,000 events were committed and no failed write came before a committed event; if the hash tells the events of the run apart, in no other case |
| AuditRuns.FailedWriteBreaksCheck | src/audit/log.rs:426-463 | a concrete run: the first write fails, the second succeeds, and the in-memory check fails |
| AuditRestarts.FilesAfterActs | src/audit/log.rs:428-463 | after every sequence of records and restarts, with any rotations, in which failing writes leave the files alone and nothing is committed behind a missing event, the files hold a suffix of all events committed by all processes, linked across files up to the end of the one chain from zero; from there the events still missing lead to the worker's hash, unless it was started in mid-chain and refuses to record |
| AuditRestarts.FilesTell | src/audit/log.rs:409-463 | over any restarts, rotations and failing writes that leave the files alone, the files tell, oldest first, what the committed records of all processes asked for, but for what was dropped with the oldest files |
| AuditRestarts.FilesAfterRun | src/audit/log.rs:428-463 | for one process on an empty directory without failures the files end at the worker's hash |
| AuditRestarts.RestartContinuesExactly | src/audit/log.rs:593-635 | if failing writes leave the files alone, a restart continues the one chain from zero as long as there was no rotation and no event was committed behind a missing one; if the hash tells the events chained apart, the restarted log refuses in every other case |
| AuditRestarts.RestartContinuesUnlessRotated | src/audit/log.rs:593-635 | without failures recovery returns the hash the last worker held and the file is one chain from zero as long as path.1 does not exist, for every hash; once it does, recovery reports line 1 broken and the restarted log refuses, if no event written hashes to zero |
| AuditRestarts.FullFileEndsRestarts | src/audit/log.rs:646-724 | once the file has reached its limit, the next record makes every later restart refuse to record, whatever happens in between |
| AuditRestarts.RestartAfterRotationRefuses | src/audit/log.rs:593-635 | a concrete run, for lines of any length: 100 MiB + 1 records and a restart, and the restarted log refuses |
| AuditRestarts.FailedWriteStopsRestart | src/audit/log.rs:426-463 | a concrete run: a failed write that leaves the files alone, a successful one and a restart, and the restarted log refuses |
| AuditRestarts.TimestampsIncreaseExactly | src/audit/log.rs:389-407 | over any number of restarts the timestamps written strictly increase exactly if each committed record finds its clock reading, or the timestamp its process has got to, past the last timestamp written |
| AuditRestarts.FirstReadingDecides | src/audit/log.rs:608-626 | a restart forgets the last timestamp: they go on increasing exactly if the first clock reading exceeds the last timestamp written |
| AuditRestarts.ClockSetBack | src/audit/log.rs:608-626 | a concrete run of two processes whose timestamps go back |
| CivilDate.DaysToYmd | src/audit/log.rs:1114-1127 | every day number yields a real Gregorian date |
| CivilDate.YearOfEraBounds | src/audit/log.rs:1118-1119 | the corrective divisions find the year of the 400-year era that contains the day |
| CivilDate.DaysFromCivilOfDaysToYmd | src/audit/log.rs:1114-1127 | counting days over years and months inverts the algorithm, for every day number |
| CivilDate.DaysToYmdOfDaysFromCivil | src/audit/log.rs:1114-1127 | the algorithm inverts the counting, for every date from 1970 on: the two are a bijection |
| CivilDate.DaysToYmdMonotone | src/audit/log.rs:1114-1127 | day numbers are in order exactly if their dates are |
| Rfc3339.ParseOfFormat | src/audit/log.rs:1089-1111 | for every 64-bit nanosecond count the text has 27 characters and its fields give back the microseconds |
| Rfc3339.FormatShape | src/audit/log.rs:1089-1111 | for every 64-bit nanosecond count the text has its dashes, T, colons, point and Z at their places and digits everywhere else |
| Rfc3339.DigitIsCharacter | src/audit/log.rs:1089-1111 | a digit is the character with code 48 plus its value |
| Rfc3339.FormatInjective | src/audit/log.rs:1089-1111 | two timestamps print alike exactly if they agree to the microsecond |
| GcmNonce.NextKeepsInv | src/crypto/encrypt.rs:226-306 | every atomic step keeps: each count handed out belongs to one thread or one nonce, never to two; counts are 0, 1, 2, … per life of the counter |
| GcmNonce.NextKeepsLedger | src/crypto/encrypt.rs:226-306 | every atomic step keeps: each nonce used has a count that was handed out, and each count handed out was used, is held by a thread, or is lost |
| GcmNonce.RunKeepsInv | src/crypto/encrypt.rs:60-124 | both over every interleaving, removals and re-initialisation included |
| GcmNonce.NoncesNeverRepeat | src/crypto/encrypt.rs:226-306 | between two removals of a key's counter no two encryptions use the same nonce; the counts handed out are exactly 0 to n - 1, neither they nor the counter pass 2^31, every nonce used has one of them, and every one of them was used, is about to be, or was lost to a failed prefix draw |
| GcmNonce.GivesUpOnlyAtLimit | src/crypto/encrypt.rs:226-306 | a step ends an encryption that is still allocating its count only if the counter is at 2^31; losing a race never does |
| GcmNonce.EveryEncryptionEnds | src/crypto/encrypt.rs:226-306 | in every interleaving the encryptions of a key are as many as its nonces issued, its counts lost to failed prefix draws, its refusals at the limit and its threads under way |
| GcmNonce.AloneFinishes | src/crypto/encrypt.rs:226-306 | from any state a thread that nothing interrupts is done within four more steps |
| GcmNonce.RepeatsExactly | src/crypto/encrypt.rs:73-79 | two encryptions with one key between which its prefix is not removed use the same nonce exactly if they have the same count, whatever becomes of the counter |
| GcmNonce.RemovedNeverRepeats | src/crypto/encrypt.rs:73-79 | if the prefix is removed between them and not drawn again after that, they never do |
| GcmNonce.CarefulNeverRepeats | src/crypto/encrypt.rs:73-124 | over a whole run with any removals no nonce of a key repeats, if no prefix is taken between the removal of its counter and its own, and none is drawn twice |
| GcmNonce.PrefixStays | src/crypto/encrypt.rs:113-124 | as long as a key's prefix is not removed every nonce of the key starts with it, whatever becomes of the counter |
| GcmNonce.RemovalInTwoStepsRepeats | src/crypto/encrypt.rs:73-79 | a concrete run: an encryption between the removal of the counter and of the prefix repeats a nonce |
| IvTracker.Cipher.CheckIvReuse | src/crypto/encrypt.rs:152-206 | the check with its two limits, and what it tracks |
| IvTracker.Cipher.AesCbcEncrypt | src/crypto/encrypt.rs:478-538 | CBC's order of checks, the key length after the IV |
| IvTracker.Cipher.AesCtrEncrypt | src/crypto/encrypt.rs:652-664 | CTR's order of checks, the key length before the IV |
| IvTracker.ForgottenKeyStartsOver | src/crypto/encrypt.rs:73-79 | after a removal of its key or a reset an encryption with good arguments is accepted whatever was used before, exactly if there is room for a key; a removal touches no other key |
| IvTracker.IvNeverAcceptedTwice | src/crypto/encrypt.rs:152-206 | a (key, IV) pair is accepted twice, in whatever modes, only if the key was removed or the trackers reset in between |
| IvTracker.AcceptedExactly | src/crypto/encrypt.rs:478-538 | an encryption of a run is carried out exactly if it has 16 IV bytes not all zero, at most 256 MiB, a key of 16, 24 or 32 bytes, an IV not tracked for the key, and there is room for one more key and IV |
| IvTracker.RefusedWith | src/crypto/encrypt.rs:478-664 | exactly which error an encryption is refused with, in either mode |
| IvTracker.TrackerIsBounded | src/crypto/encrypt.rs:142-206 | in every run at most 10,000 keys and 100,000 IVs per key are tracked |
| IvTracker.RefusalKeepsTracker | src/crypto/encrypt.rs:478-538 | a refused call leaves the tracked sets unchanged, except exactly CBC calls with good arguments, an acceptable IV and a key of wrong length |
| IvTracker.CbcTracksBeforeRefusing | src/crypto/encrypt.rs:478-538 | a concrete refused call that changes the tracked sets |
| LruCache.LruMap.LruInsert | src/crypto/sign.rs:138-149 | a present key is replaced in place; a fresh one goes to the back, evicting the front of a full map |
| LruCache.LruMap.LruGet | src/crypto/sign.rs:154-165 | a hit returns the value and moves its entry to the back |
| LruCache.LruMap.ShiftRemove | src/crypto/sign.rs:215-218 | removal keeps the order of the rest |
| LruCache.RunKeepsOrder | src/crypto/sign.rs:138-165 | after any run the map has at most 64 distinct keys in order of last hit or fresh insertion |
| LruCache.EvictionNeedsSixtyFourOthers | src/crypto/sign.rs:138-165 | a key leaves by eviction only if 64 distinct other keys were hit or freshly inserted since its own last hit or fresh insertion |
| LruCache.KeyStays | src/crypto/sign.rs:138-165 | no other operation on other keys removes a key |
| RsaKeyCache.NextKeepsInv | src/crypto/sign.rs:189-218 | every step of cached operations, evictions and clears keeps cached keys equal to what their handle's bytes give |
| RsaKeyCache.CachedEqualsUncached | src/crypto/sign.rs:638-908 | in every interleaving, with handles rebound only after eviction and with no operation on them running, each cached operation returns what the uncached one returns on the same arguments and randomness, errors included |
| RsaKeyCache.PrivateOutcomes | src/crypto/sign.rs:638-908 | in every interleaving a private-key call returns, by the key parsed from its own bytes: a data error over 64 MiB or for a digest not of 32, 48 or 64 bytes, a handle error if the bytes do not parse, a size error below 2^2047, a parameter error without a hash, and otherwise what the library makes of that key |
| RsaKeyCache.PublicOutcomes | src/crypto/sign.rs:638-908 | likewise a public-key call, with the key built from its own components and the size error before the handle error |
| RsaKeyCache.SuccessNeedsLargeKey | src/crypto/sign.rs:292-363 | no call succeeds with a modulus below 2^2047, with too much data or with a digest of the wrong length |
| RsaKeyCache.CallsAnswered | src/crypto/sign.rs:638-908 | in every interleaving each call begun has been answered once or is under way |
| RsaKeyCache.CallFinishes | src/crypto/sign.rs:638-908 | a call under way is answered within two more steps of its own thread |
| RsaKeyCache.CachesAreLru | src/crypto/sign.rs:138-218 | in every interleaving each handle cache is a bounded map under its own lookups, insertions and evictions: at most 64 keys, no handle twice, in order of last use |
| RsaKeyCache.ContentCacheEqualsParsing | src/crypto/sign.rs:238-278 | in every interleaving the content-hash cache returns what plain parsing returns, if SHA-256 does not collide on the keys used |
| RsaKeyCache.LooksAnswered | src/crypto/sign.rs:238-278 | in every interleaving each lookup begun has been answered once or is parsing |
| RsaKeyCache.HandleCacheEqualsContentCache | src/crypto/sign.rs:377-464 | the operations without the handle cache, which parse through the content-hash cache, return the same as those with it, in whatever interleavings |
| RsaModulus.FirstNonzero | src/crypto/sign.rs:341-363 | leading zero bytes are all skipped and nothing else |
| RsaModulus.ModulusBitsIsBitLength | src/crypto/sign.rs:341-363 | the bits counted from the bytes are the bit length of the integer, for every byte string |
| RsaModulus.SizeChecksAgree | src/crypto/sign.rs:326-363 | the public-key check accepts exactly values of at least 2^2047 and agrees with the private-key check on the same modulus |
| TokenBucket.RateState.constructor | src/crypto/rate_limit.rs:62-70 | a new bucket is full; the rate saturates |
| TokenBucket.RateState.TryConsume | src/crypto/rate_limit.rs:74-88 | one call: refill with both casts, saturation and cap, then the withdrawal |
| TokenBucket.ConsumeStaysWithin | src/crypto/rate_limit.rs:74-88 | a call keeps the account of a window: granted plus remaining is at most capacity plus what the rate yields |
| TokenBucket.WindowBound | src/crypto/rate_limit.rs:61-89 | between any two calls on one bucket the microtokens granted are at most the capacity plus rate times elapsed microseconds over 1,000,000 |
| TokenBucket.SpacedRequestsGranted | src/crypto/rate_limit.rs:61-89 | requests at least ceil(1,000,000 / operations per second) microseconds apart are all granted if no cast wraps |
| TokenBucket.CoveredRequestsGranted | src/crypto/rate_limit.rs:61-89 | requests whose gaps each refill one operation, as cut to 64 bits, are all granted |
| TokenBucket.SafeGapExactly | src/crypto/rate_limit.rs:61-89 | a call that comes a gap after the one before it is granted in every run on a fresh bucket exactly if the refill as cut to 64 bits covers one operation, for every rate |
| TokenBucket.BurstDrains | src/crypto/rate_limit.rs:61-89 | of calls at one instant a fresh bucket grants the configured number and is then empty |
| TokenBucket.WrappedRefillRefuses | src/crypto/rate_limit.rs:76-80 | a concrete run in which a wrapped refill refuses a request that kept its distance |
| TokenBucket.NothingElseIsLost | src/crypto/rate_limit.rs:74-88 | in every run what is granted and left amounts at least to the tokens at first and all refills, or to a full bucket |
| TokenBucket.YieldLowerBound | src/crypto/rate_limit.rs:76-79 | without a wrap the refills of a run fall short of the rate by less than a microsecond and a microtoken per call |
| TokenBucket.YieldExact | src/crypto/rate_limit.rs:76-79 | below the saturated rate no microtoken is lost: a run yields exactly the rate times its whole microseconds |
| TokenBucket.PollingStarves | src/crypto/rate_limit.rs:76-80 | the microsecond per call is really lost: polled less than a microsecond apart, a bucket without a whole token is never refilled |
| RateLimiter.RateLimiter.constructor | src/crypto/rate_limit.rs:165-177 | no sessions at first; a global bucket exactly if that limit is set |
| RateLimiter.RateLimiter.CheckRate | src/crypto/rate_limit.rs:188-218 | a check is allowed exactly if the session has or gets a bucket that grants and the global bucket grants; which buckets are charged |
| RateLimiter.ClosedSessionStartsOver | src/crypto/rate_limit.rs:246-248 | a session that was closed and comes back is granted its first check exactly if there is room for its bucket; no other session is touched |
| RateLimiter.NewSessionBurst | src/crypto/rate_limit.rs:190-205 | a new session with room for its bucket is granted its configured number of checks at one instant and no more, whatever other sessions do then; at the saturated rate as many as the capacity holds |
| RateLimiter.CheckIsThreeSteps | src/crypto/rate_limit.rs:188-218 | a check that nothing interrupts, as three critical sections, is the sequential one |
| RateLimiter.RunKeepsInv | src/crypto/rate_limit.rs:188-248 | in every interleaving each bucket keeps its rate and capacity |
| RateLimiter.SessionsBounded | src/crypto/rate_limit.rs:190-201 | in every interleaving of n threads at most 10,000 + n - 1 sessions have a bucket, as the test for room and the insertion are two steps |
| RateLimiter.TwoTakeTheLastPlace | src/crypto/rate_limit.rs:190-201 | that bound is attained: two threads that find the last place free both take it |
| RateLimiter.GlobalWindowBound | src/crypto/rate_limit.rs:208-215 | in every interleaving, between any two actions, all sessions together are allowed at most the global capacity plus what the global rate yields |
| RateLimiter.SessionChargeBound | src/crypto/rate_limit.rs:190-205 | in every interleaving, between any two actions with the session not removed, its bucket grants at most its capacity plus what its rate yields |
| RateLimiter.SessionWindowBound | src/crypto/rate_limit.rs:188-218 | and the session is allowed no more than that and the operations it had under way at the start |
| ConcurrencyGate.NextKeepsInv | src/crypto/rate_limit.rs:224-243 | every atomic step changes the counter by at most one and keeps it equal to operations under way plus pending roll-backs |
| ConcurrencyGate.GateHolds | src/crypto/rate_limit.rs:224-243 | in every interleaving the operations under way never exceed the limit, and the counter neither over- nor underflows |
| ConcurrencyGate.LetInExactly | src/crypto/rate_limit.rs:224-235 | an operation is let in exactly if fewer than the limit are under way or rolling back |
| ConcurrencyGate.RollBackTurnsAway | src/crypto/rate_limit.rs:224-235 | a concrete interleaving in which an operation is turned away from a gate with a free place |
| ConcurrencyGate.QuietGateIsOpen | src/crypto/rate_limit.rs:224-243 | the counter is zero exactly if nothing is under way or rolling back |
| EntropyHealth.EntropyHealthMonitor.constructor | src/crypto/entropy_health.rs:81-95 | a new monitor is in the reset state and has not passed startup |
| EntropyHealth.EntropyHealthMonitor.TestRepetition | src/crypto/entropy_health.rs:176-201 | one sample of the repetition count test |
| EntropyHealth.EntropyHealthMonitor.TestProportion | src/crypto/entropy_health.rs:207-244 | one sample of the adaptive proportion test, on the window array |
| EntropyHealth.EntropyHealthMonitor.FeedSampleUnchecked | src/crypto/entropy_health.rs:143-147 | both tests on one sample, the second only if the first passes |
| EntropyHealth.EntropyHealthMonitor.FeedSamples | src/crypto/entropy_health.rs:151-159 | the loop stops at the first sample that is not accepted |
| EntropyHealth.EntropyHealthMonitor.Observe | src/crypto/entropy_health.rs:151-165 | nothing is accepted before startup has passed |
| EntropyHealth.EntropyHealthMonitor.StartupTest | src/crypto/entropy_health.rs:101-126 | startup resets, runs 1024 samples through both tests and passes only if all are accepted |
| EntropyHealth.AcceptsExactly | src/crypto/entropy_health.rs:176-244 | from reset a stream is accepted exactly if at no position the last 41 bytes are equal or the aligned 1024-byte window holds its first byte 670 times; no index leaves the window |
| EntropyHealth.FirstRejection | src/crypto/entropy_health.rs:176-244 | the byte refused is the first one whose position is rejected by the whole-stream definition |
| EntropyHealth.FeedAllTracks | src/crypto/entropy_health.rs:143-159 | on any bytes after any history, failures included, the monitor's verdict is the one its two streams give |
| EntropyHealth.JudgeAllMeaning | src/crypto/entropy_health.rs:176-244 | exactly which bytes are accepted, refused, or index behind the window, in terms of everything the two tests were given before |
| EntropyHealth.FirstFailure | src/crypto/entropy_health.rs:143-147 | how the first failure leaves the two streams: a repeated sample does not reach the proportion test |
| EntropyHealth.SpentForGood | src/crypto/entropy_health.rs:207-244 | after a proportion failure no byte is accepted any more |
| EntropyHealth.ChunksDoNotMatter | src/crypto/entropy_health.rs:151-159 | cutting a stream into chunks changes neither verdict nor state |
| EntropyHealth.MonitorRejectsExactly | src/crypto/entropy_health.rs:101-159 | startup samples and any chunks after them are all accepted exactly if the whole stream since startup is healthy; no index ever leaves the window |
| EntropyHealth.StartupPassesExactly | src/crypto/entropy_health.rs:101-126 | startup passes exactly with at least 1024 samples of which the first 1024 are healthy |
| EntropyHealth.PassedAfter | src/crypto/entropy_health.rs:101-165 | in every run of startup tests and observations the monitor counts as started exactly if one of the startup tests passed |
| EntropyHealth.NothingBeforeStartup | src/crypto/entropy_health.rs:151-165 | until then everything observed is refused and leaves no trace |
| EntropyLatch.RunKeepsInv | src/crypto/entropy_health.rs:257-323 | in every interleaving the shared monitor tracks a healthy stream until a test fails |
| EntropyLatch.HealthyUntilLatched | src/crypto/entropy_health.rs:302-323 | everything observed since startup is healthy as long as no test has failed |
| EntropyLatch.LatchHolds | src/crypto/entropy_health.rs:302-323 | the flag is sticky; after it is set bytes pass only for callers that had found it clear twice before, each at most once; if there is none, nothing passes |
| EntropyLatch.ReadyPassesExactly | src/crypto/entropy_health.rs:302-323 | in every interleaving a ready caller's bytes pass exactly if none of them, behind everything tested before, is at a rejected position; it panics exactly behind a window that failed on its 1024th sample, unless its first byte is a 41st repetition; otherwise it fails |
| EntropyLatch.BiasIsFinal | src/crypto/entropy_health.rs:302-323 | in every continuation after a proportion failure nothing but empty strings passes |
| EntropyLatch.LateCallerPasses | src/crypto/entropy_health.rs:302-323 | a concrete interleaving in which a byte passes after the latch |
| EntropyLatch.LateCallerPanics | src/crypto/entropy_health.rs:302-323 | a concrete interleaving in which a caller indexes behind the window after the latch |
| LoginThrottle.Throttle.Check | craton-hsm-daemon/src/server.rs:209-243 | refused exactly during a lockout; an expired lockout gives a fresh set of attempts |
| LoginThrottle.Throttle.EvictExpired | craton-hsm-daemon/src/server.rs:2405-2426 | eviction drops expired lockouts and then the entries with the fewest failures down to 1024, whatever the order of the map |
| LoginThrottle.Throttle.RecordFailure | craton-hsm-daemon/src/server.rs:246-268 | eviction, then one more failure, then a lockout if the maximum is reached |
| LoginThrottle.FewestFailures | craton-hsm-daemon/src/server.rs:2416-2420 | the victim has the fewest failures of all |
| LoginThrottle.RunKeepsInv | craton-hsm-daemon/src/server.rs:209-268 | in every run of serialised requests an entry has a lockout exactly if its failures have reached the maximum, and the map holds at most 1025 entries |
| LoginThrottle.LockoutEvictedLast | craton-hsm-daemon/src/server.rs:2405-2426 | a running lockout is evicted only if every entry that stays is locked as well |
| LoginThrottle.FailuresSpanCooldown | craton-hsm-daemon/src/server.rs:209-268 | any max + 1 consecutive failures of one client on one slot, with no success between and no eviction of its entry for want of room, take at least the cooldown |
| LoginThrottle.CooldownIsSharp | craton-hsm-daemon/src/server.rs:209-268 | a concrete run with two failures exactly the cooldown apart: the bound is attained |
| LoginThrottle.RefusedOnlyWithCause | craton-hsm-daemon/src/server.rs:209-268 | a client is refused only after max failures of its own since it was last unknown, and no longer than the cooldown after the last request |
| LoginThrottle.SuccessStartsOver | craton-hsm-daemon/src/server.rs:356-362 | after a success a client is refused again only after max failures that come after it |
| LoginThrottle.ExpiryStartsOver | craton-hsm-daemon/src/server.rs:209-243 | a client whose lockout is found to have run out is refused again only after max failures from that request on |
| LoginThrottle.SparedUnlessFull | craton-hsm-daemon/src/server.rs:246-268 | a request that finds at most 1024 entries after expiry costs no other client its entry or its count |
| DerReader.ReadLength | src/crypto/awslc_backend.rs:896-916 | a length read ends inside the buffer and is below 2^32 |
| DerReader.Reader.Tag | src/crypto/awslc_backend.rs:887-894 | reads one byte inside the buffer or fails |
| DerReader.Reader.Length | src/crypto/awslc_backend.rs:896-916 | the accumulating loop computes the big-endian value of the length bytes; every access is inside the buffer |
| DerReader.Reader.Sequence | src/crypto/awslc_backend.rs:918-924 | a sequence tag and its length, or failure |
| DerReader.Reader.Integer | src/crypto/awslc_backend.rs:926-941 | an integer's content without its sign byte, or failure |
| DerReader.Reader.Bytes | src/crypto/awslc_backend.rs:943-950 | bytes inside the buffer, or failure |
| DerReader.Reader.Skip | src/crypto/awslc_backend.rs:952-954 | the position moves without a check and does not overflow |
| DerReader.ParseRsaSpki | src/crypto/awslc_backend.rs:844-875 | for every byte string the parser reads only inside it and returns the key of the specification or an error |
| DerReader.AcceptedExactly | src/crypto/awslc_backend.rs:844-955 | a byte string is accepted exactly if the tags and lengths of one of the two forms stand at their places, and the key is what stands there |
| DerReader.ReadLengthOf | src/crypto/awslc_backend.rs:896-916 | the shortest encoding of a length, short or long form, is read back exactly if the length is below 2^32 |
| DerReader.ParseOfPlainKey | src/crypto/awslc_backend.rs:849-858 | an encoded RSAPublicKey, with anything behind it, gives its integers back exactly if its body is shorter than 2^32 bytes, and is refused otherwise |
| DerReader.ParseOfWrappedKey | src/crypto/awslc_backend.rs:859-871 | the same for SubjectPublicKeyInfo with any algorithm identifier |
| DerReader.KeyRoundTrip | src/crypto/awslc_backend.rs:844-875 | both encodings of every nonzero modulus and exponent come back as the same pair exactly if they are shorter than 2^32 bytes |
| DerReader.FormsAgreeExactly | src/crypto/awslc_backend.rs:849-871 | both forms of one key are read alike exactly if the modulus is not zero |
| HmacDrbg.HmacDrbg.constructor | src/crypto/drbg.rs:64-90 | the instantiated state of section 10.1.2.3 of SP 800-90A |
| HmacDrbg.HmacDrbg.Update | src/crypto/drbg.rs:120-157 | the update function of section 10.1.2.2 |
| HmacDrbg.UpdatedIsRounds | src/crypto/drbg.rs:120-157 | an update is one round with separator 0 and, exactly if there is data, one more with separator 1 |
| HmacDrbg.HmacDrbg.ReseedFrom | src/crypto/drbg.rs:165-178 | reseeding from 32 bytes sets the counter to 1 |
| HmacDrbg.HmacDrbg.NextOutput | src/crypto/drbg.rs:209-224 | one block, compared with the block before it |
| HmacDrbg.HmacDrbg.FillOutput | src/crypto/drbg.rs:207-231 | the loop fills the buffer with the blocks in order, the last one cut, or stops at a repeated block |
| HmacDrbg.HmacDrbg.Generate | src/crypto/drbg.rs:197-238 | a call reseeds, fills, updates and counts; on a repeated block it fails |
| HmacDrbg.FillMeaning | src/crypto/drbg.rs:207-250 | the loop stops exactly at the first block that repeats its predecessor, the last block of earlier calls included |
| HmacDrbg.GenerateMatchesStandard | src/crypto/drbg.rs:197-250 | output of any length is the first n bytes of the blocks that section 10.1.2.5 defines after the fresh reseed, and the call fails exactly if one of them repeats the block put out before it |
| HmacDrbg.RunNeverRepeats | src/crypto/drbg.rs:197-250 | over all calls of a run no two adjacent blocks put out are equal, and the reseed counter is 1 or 2 |
| HmacDrbg.IntervalNeverFires | src/crypto/drbg.rs:197-204 | the reseed interval is never reached: the entropy for it has no influence on any call |

## Left out

- Concrete cryptography (AES, RSA, ECDSA, Ed25519, ML-KEM, ML-DSA, SLH-DSA, HKDF): library calls, here arbitrary functions.
- `src/crypto/pqc.rs`, `derive.rs`, `keygen.rs`, `backend.rs`, `rustcrypto_backend.rs`: delegation and simple framing.
- `src/crypto/mechanisms.rs` and `approved_services.rs`: lookup tables.
- Configuration, TLS, platform access control, integrity checks, memory locking, metrics: plumbing around the file system, the environment and the network.
- The gRPC handlers of the daemon other than the throttle; the InitToken throttle is a second `LoginThrottle.Throttle` on its own map with the same rules.
- Timing equalisation, zeroisation and logging.
- Export of the audit log other than its timestamps, field sanitising, pagination, and draining of entries; the operation in an event is a name and numbers.
- Crashes in the middle of a write and mutex poisoning. A failing disk call in a record may leave the files in any state (`AuditWorker.Io`); the theorems about files are for runs in which a failing call leaves them as they were. A failing size query, which the code takes for size zero, is not modelled.
- AuditWorker.AuditLog.WorkerLoop: the trace is the order in which records are processed and replies sent, as the worker notes it; the queue is the order of arrival; the sender side and time-outs of waiting callers are not modelled.
- CivilDate.DaysToYmd: day numbers are unbounded, so the overflow of the 64-bit sum for day numbers near 2^64 is not modelled; the only caller passes at most 213,503.
- GcmNonce.NoncesNeverRepeat: a thread keeps its counter entry from being removed while it holds it, as the map's guard does; clearing all counters at once is the removal of each. Argument checks before the counter and the cipher itself are not modelled.
- IvTracker.IvNeverAcceptedTwice: sequential calls only; the decryption functions do not use the tracker.
- ConcurrencyGate.GateHolds: for a limit other than zero, which switches the gate off, and for fewer than 2^64 operations at a time.
- EntropyHealth.AcceptsExactly: the 32-bit run counter, which could wrap only after 2^32 failures in a row, is unbounded here.
- RsaKeyCache.CachedEqualsUncached: a call is made with the bytes its handle is bound to; reference counting and scrubbing of cached keys are not modelled.
- LoginThrottle.FailuresSpanCooldown: requests are serialised; concurrent requests of one client may pass the check together.
- HmacDrbg.HmacDrbg.ReseedFrom: entropy is a parameter; an unhealthy source aborts the process and is not modelled here.
