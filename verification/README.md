# Sysible controller: verified models of its state machines

The controller keeps a tamper-evident audit log, enrols hosts with one-time tokens,
hands tasks and one-shot passwords to their agents, quarantines agents whose
self-measurement changes, throttles logins and enrolments, and bridges agent-hosted
terminals. This project models that logic in Dafny and proves what the design relies on,
over every input, every run or every interleaving.

Code that updates tables or dictionaries in place is modelled by classes whose methods
are proved equal to a specification function of the old state; the same functions are the
steps of a state machine (`World`, `Fleet`, `Log`, `Siege`), and the theorems are about
whole runs of that machine. Pure code is modelled by functions and lemmas.

| module | what it models |
|---|---|
| `RowEncoding`, `AuditChain`, `AuditLog` | the length-prefixed row encoding, the hash chain and its verifier, the locked writers with retention, high-water mark and backfill |
| `EnrollTokens`, `Enrolment` | the enrol-token table under any interleaving, and the enrolment handler with adoption, rebind authorisation, revocation, restore, deletion |
| `TaskQueue` | queue, fetch, result, reclaim, prune, host deletion and the RAM-held become-passwords, interleaved statement by statement |
| `AgentIntegrity` | comparing, sealing, re-seal windows, the missing-report timer, skipped writes |
| `LoginThrottle` | the two login throttles and that they agree |
| `LatticePaths`, `StaleWrites`, `LoginSiege`, `LoginBounds`, `LoginWitnesses` | a login key under attack by overlapping requests: a potential argument for writers of stale rows, the state machine, the bounds, and the runs that reach them |
| `EnrollFlood` | the enrolment flood guard, with its bound over whole runs |
| `JsonText`, `AgentBundle` | JSON string literals and their readers; baking the controller address into the agent source, and the canonical form behind its version |
| `SelfAddress`, `PtyBridge`, `JumpHop`, `PortalFiles` | address self-repair, the terminal bridge, jump-hop printing and parsing, saving without clobbering |
| `Common`, `Decimal` | options, bytes, base-ten printing and parsing |

Hashing is one arbitrary function from hash inputs to 64-character digests. Nothing is
assumed about it: where a theorem needs collision resistance, its conclusion names two
different hash inputs with the same digest as the only alternative.

Where the code does something its documentation does not say, the model follows the code
and a lemma states it:

- A measurement with a null file hash is flagged as changed when compared with itself
  (`AgentIntegrity.NullHashFlagsItself`); a clean comparison means equality exactly when the
  baseline holds no null.
- The remaining lockout is truncated to whole seconds and 0 means "not locked", so the last
  second of every lockout is open (`LoginWitnesses.LastSecondIsOpen`); the proved bounds use
  lockout − 1.
- The login throttle's check and record are separate calls with a password verification in
  between, the administrator handlers run in a thread pool, and
  `login_throttle_record_failure`, documented as atomic, is a SELECT followed by an upsert
  (`backend/db.py:2336-2355`). A write of a stale row takes the count of failures back and may
  lift a lockout (`LoginWitnesses.OverlappingWriteUndoesLock`). With at most c requests of a key in
  flight and C(n, k) for the binomial coefficient (`LatticePaths.PathsAreBinomials`), a stretch
  of at most lockout − 1 seconds lets past the check at most
  - C(c + max + 1, c) − c − 1 requests, whatever happens (`LoginBounds.StretchBound`);
  - C(c + max, c) − 1, if no record call that began before the stretch is still under way at its
    start (`LoginBounds.QuietStretchBound`);
  - max + c − 1, if no record call writes after another one has since it began
    (`LoginBounds.AtomicStretchBound`).

  Each of the three is reached by some run, for every max and c
  (`LoginWitnesses.StretchBoundIsReached`, `LoginWitnesses.QuietBoundIsReached`,
  `LoginWitnesses.AtomicBoundIsReached`); the third is broken by overlapping records as soon as
  max and c are at least 2 (`LoginWitnesses.OverlapBreaksAtomicBound`), the second by straddling ones
  as soon as c is (`LoginWitnesses.StraddleBreaksQuietBound`), and without a bound on c there is
  none (`LoginWitnesses.OverlapIsUnbounded`). All three need a window longer than lockout − 1
  seconds, or max to be 1 (`LoginWitnesses.SerialBoundIff`). The portal's handlers do not yield
  between check and record, so for them the bound is max (`LoginBounds.SerialStretchBound`).
- A terminal buffer cap below 1, which the environment can set, is no cap: 0 keeps everything and
  a negative one only cuts the front of each push (`PtyBridge.CapsExactlyFromOne`,
  `PtyBridge.ZeroCapKeepsAll`, `PtyBridge.NegativeCapCutsEachPush`).
- Outside strict mode, a key that resolved once and is later missing makes an honest log
  fail verification (`AuditLog.LostKeyBreaksVerification`); an honest log verifies exactly when
  no retained unkeyed row follows a keyed one.
- With rebind authorisation switched off a bare token replaces a stale host's secret
  (`Enrolment.WithoutRebindAuthATokenSuffices`).
- The address is baked into Python source as a JSON literal. A JSON reader gives every address back
  (`JsonText.JsonRoundTrip`); Python, which does not pair surrogate escapes, gives it back if and
  only if it stays within U+FFFF (`JsonText.PythonRoundTripIff`).
- The canonical form behind the agent version survives patching if and only if the address has
  no double quote (`AgentBundle.PatchUndoneIffNoQuote`); the version itself then differs unless the
  truncated hash collides (`AgentBundle.PatchKeepsVersionIff`).
- `_parse_jump_hop` is documented as total and safe on any hop that `valid_jump` accepted. It
  is total, but `valid_jump` skips its port-range test when the hop ends in a newline
  (`JumpHop.CheckedHopParses`, `JumpHop.NewlineHidesThePort`). The resolver strips its
  configuration and never emits such a hop (`JumpHop.EmittedHopParses`).

## Model

| member | source | states |
|---|---|---|
| RowEncoding.DigestPayload | backend/db.py:2478-2489 | The buffer grown field by field exists exactly when every field is shorter than 2^32 bytes; it is the encoding that the digests hash, nulls read as empty, consists of bytes, and decodes to the exact field list |
| RowEncoding.DecodeEncode | backend/db.py:2478-2489 | Decoding an encoding recovers the field list, for every list |
| RowEncoding.EncodeDecode | backend/db.py:2478-2489 | Nothing but an encoding decodes: the decoder is the inverse in the other direction too |
| RowEncoding.EncodeInjective | backend/db.py:2478-2489 | No two field lists, of the same or different lengths, share an encoding |
| RowEncoding.EncodeAppend | backend/db.py:2478-2489 | Encoding field by field into a growing buffer equals encoding the whole list |
| RowEncoding.BigEndianIsBigEndian | backend/db.py:2486-2488 | The length prefix has its most significant byte first |
| Decimal.PrintInjective | backend/portal_files.py:84-89 | Distinct numbers print differently in base ten |
| AuditChain.SameInputSameRow | backend/db.py:2538-2549 | Rows hashed from the same input agree on algorithm, previous hash, timestamp text and every column |
| AuditChain.CoversEveryColumn | backend/db.py:2538-2549 | What is hashed of two rows is the same if and only if algorithm, previous hash, timestamp text and every single column agree, nulls read as empty: none is left out |
| AuditChain.AnotherKeyIsRefused | backend/db.py:2547-2549 | A keyed row accepted under one key is accepted under another only where the two keys give one digest |
| AuditChain.KeyMattersWhenKeyed | backend/db.py:2547-2549 | Without a key no keyed row is accepted, and an unkeyed one is judged by the plain hash |
| AuditChain.HashedMembers | backend/db.py:2724-2727 | Exactly the rows with a digest are walked |
| AuditChain.MicrosAreNearest | backend/db.py:2538-2549 | The hashed number of microseconds is within half a one of the time |
| AuditChain.StampPinsTime | backend/db.py:2538-2549 | The six-decimal timestamp text that is hashed determines the time to within one microsecond, and its sign |
| AuditChain.VerifyChain | backend/db.py:2715-2766 | Ok exactly when every hashed row recomputes, links to its predecessor and never drops from keyed to unkeyed, and the mark is not above the last id; otherwise the reported row is the first break, or the last row of a cut tail |
| AuditChain.OneVerdict | backend/db.py:2715-2766 | That contract leaves room for one verdict only: count, broken row, keyed flag and recorded mark included |
| AuditChain.OneMoreRow | backend/db.py:2729-2757 | The per-row tests of the loop accept a row exactly when the chain extended by it is still acceptable, and a chain with a refused row never is |
| AuditChain.AcceptedStretch | backend/db.py:2715-2757 | Trimming rows off the front or the back leaves an acceptable chain |
| AuditChain.TamperEvidence | backend/db.py:2715-2757 | Two accepted logs with the same last digest agree row by row from the tail, over the shorter length, on every column, or else a hash collision between them is exhibited |
| AuditChain.EditIsReported | backend/db.py:2715-2757 | Changing any column of any row, replacing or reordering rows, while keeping the tail digest, is refused, up to a collision |
| AuditChain.DigestsDistinct | backend/db.py:2538-2549 | A chain that began at genesis never repeats a digest, up to a collision |
| AuditChain.DeletionIsReported | backend/db.py:2715-2757 | Deleting any interior run of retained rows, after any front trim, is refused, up to a collision |
| AuditLog.Sealed | backend/db.py:2684-2696 | The inserted row carries its id, timestamp and columns as given, the previous hash and a full-length digest |
| AuditLog.SealedOk | backend/db.py:2671-2696 | A row sealed with the vault key, or without any, passes the verifier that holds the key, and is keyed exactly when a key was used |
| AuditLog.Log.Append | backend/db.py:2665-2712 | One locked append: refused without a key in strict mode or for an unstorable field, leaving nothing behind; otherwise the sealed row is added after the previous tail and old rows are trimmed |
| AuditLog.Log.BumpHead | backend/db.py:2564-2588 | The mark moves up to the id and never down |
| AuditLog.Log.Backfill | backend/db.py:2620-2661 | An entirely unhashed table is re-sealed row by row in id order and its mark seeded; a table with any hashed row is left alone |
| AuditLog.Log.Verify | backend/db.py:2953-2997 | The same, unique verdict for the log object's own rows and mark, whichever genesis and columns it has |
| AuditLog.BackfilledChain | backend/db.py:2620-2661 | The backfilled table is hashed throughout, links from genesis, verifies row by row and keeps every id and column |
| AuditLog.TrimKeepsNewest | backend/db.py:2705-2709 | A trim keeps a suffix with the same last id, drops only ids beyond the configured number, and leaves at most that many rows |
| AuditLog.ApplyTrim | backend/db.py:2705-2709 | After a trim of a reachable log at most the configured number of rows remain and the log is still honest |
| AuditLog.ApplyAppend | backend/db.py:2665-2712 | An append that may be logged adds one row with exactly the given entry, the next id and the previous digest or genesis, keyed exactly when the key resolved; any other changes nothing; the log stays honest |
| AuditLog.ApplyKeepsHonest | backend/db.py:2564-2712 | Every append, trim, late bump and lost bump keeps the invariant, and the mark never moves back |
| AuditLog.LockedAppendIsTwoSteps | backend/db.py:2665-2712 | The locked transaction is an append step followed by a trim step of the state machine |
| AuditLog.MarkOverRun | backend/db.py:2564-2588 | Over any run the mark never decreases and never exceeds the highest retained id |
| AuditLog.HonestVerdict | backend/db.py:2715-2766 | In any reachable state verification is ok if and only if no retained unkeyed row follows a keyed one |
| AuditLog.HonestRunVerifies | backend/db.py:2620-2766 | From any legacy table, after the backfill and any interleaving of appends, trims and late or lost bumps, verification is ok, in strict mode always, otherwise while a key once seen stays |
| AuditLog.LostKeyBreaksVerification | backend/db.py:2665-2766 | Outside strict mode the condition is needed: an append with the key and one without it make an honest log fail |
| AuditLog.TailRemovalIsReported | backend/db.py:2758-2766 | While the mark is current, the verdict on the log with any non-empty tail removed is not ok, and reports the recorded mark if and only if no downgrade is retained |
| AuditLog.NewestBumpMakesCurrent | backend/db.py:2564-2588 | The bump of the newest append makes the mark current, in whatever order bumps land |
| EnrollTokens.TokenStore.Create | backend/db.py:1400-1430 | A minted token is unused, unbound and not a reissue token |
| EnrollTokens.TokenStore.CreateReissue | backend/db.py:1448-1466 | A reissue token is unused and bound to its host from the start |
| EnrollTokens.TokenStore.Validate | backend/db.py:1494-1527 | Valid exactly when known, unexpired, and unused or reused inside the window by its bound host |
| EnrollTokens.TokenStore.Authorizes | backend/db.py:1469-1491 | True exactly for an unused, unexpired reissue token bound to exactly this host |
| EnrollTokens.TokenStore.Consume | backend/db.py:1586-1609 | The claim succeeds exactly when the token is unused or already bound to this host, and then binds it |
| EnrollTokens.TokenStore.InvalidateFor | backend/db.py:1551-1565 | Exactly the tokens bound to the host disappear, and their number is returned |
| EnrollTokens.TokenStore.PurgeUnconsumed | backend/db.py:1568-1583 | Exactly the unused tokens disappear, and their number is returned |
| EnrollTokens.OneTokenOneHost | backend/db.py:1494-1609 | In every interleaving of mints, claims and deletions by any number of replicas a token is claimed for at most one host |
| EnrollTokens.UsedBindingIsFrozen | backend/db.py:1586-1609 | Once used, a token's binding stays until the row is deleted |
| EnrollTokens.GoneIsGone | backend/db.py:1551-1583 | A deleted token never returns and is never claimed again |
| EnrollTokens.ForceDeleteIsFinal | backend/app.py:2650-2685 | After a purging Force Delete no token bound to the host, or ever claimed for it, validates, can be claimed or is claimed again |
| Enrolment.MostRecent | backend/app.py:693-696 | The adopted record is a candidate, and none was seen more recently |
| Enrolment.Supersedable | backend/app.py:651-696 | An adopted record has the same address, no conflicting hostname, is not revoked, not live and not the excluded one |
| Enrolment.Controller.MatchSecret | backend/db.py:858-881 | True exactly when the record stores the hash of the presented secret, or its legacy raw form; a legacy row is then re-stored hashed |
| Enrolment.Controller.FindSupersedable | backend/app.py:651-696 | The listing loop and the stable sort pick that record |
| Enrolment.Controller.HandleEnrol | backend/app.py:907-1053 | The handler's answer and both tables after it, for every request: refusals change nothing but a legacy hash, acceptance binds the token and rewrites the one record |
| Enrolment.EnrolledMeans | backend/app.py:907-1053 | An accepted request had a known, unexpired token that was free for the answered host; the token is now used and bound to it, its record stores the hash of the answered secret, and nothing else changed |
| Enrolment.RefusedMeans | backend/app.py:907-1021 | A refused request changes nothing but a legacy secret that was proven, re-stored hashed |
| Enrolment.WhereRequestsLand | backend/app.py:915-933 | A request lands on the host of its token, else on the one it names, or, if that is unknown, on the most recent stale record of the same machine, which is never revoked or live |
| Enrolment.NewHostEnrols | backend/app.py:907-1053 | A valid unbound token enrols an unknown host without a stale record, and the record stores the hash of the answered secret |
| Enrolment.AuthorisedRebindSucceeds | backend/app.py:968-1053 | The holder of the current secret, or of an unused reissue token, re-enrols the host, which then authenticates with the answered secret |
| Enrolment.UnprovenIsRefused | backend/app.py:974-992 | Without either, an existing host is refused, with 409 while live and 403 afterwards |
| Enrolment.StoredHashIsNoSecret | backend/db.py:858-881 | A secret matches its hash, a stored hash does not match itself, a raw legacy secret does |
| Enrolment.StepIsTokenStep | backend/app.py:907-1053 | Every request does at most one token statement; an enrolment answered is a claim that succeeded |
| Enrolment.OneTokenEnrolsOneHost | backend/app.py:907-1053 | Over every run, under every configuration, all enrolments answered with one token name one host, to which it stays bound |
| Enrolment.ExpiredNeverEnrols | backend/db.py:1494-1527 | An expired token never enrols anything again, whatever happens in between |
| Enrolment.Controller.Remove | backend/app.py:2650-2685 | The record is gone, and with purging so is every token bound to the host |
| Enrolment.SecretChangeNeedsAuthority | backend/app.py:907-1053 | With rebind authorisation on, a step that changes an existing host's secret held the current secret or an unused, unexpired reissue token bound to exactly that host, and the host was not revoked |
| Enrolment.SecretSafetyOverRun | backend/app.py:907-1053 | Over any run without a deletion of the host, a changed secret means that some step in between held such authority at that moment |
| Enrolment.WithoutRebindAuthATokenSuffices | backend/app.py:968-992 | With the switch off the guarantee fails: any valid, unused, unbound ordinary token for an existing host's id replaces its secret |
| Enrolment.RebindSpendsReissue | backend/app.py:968-1033 | A takeover without the secret was authorised by a reissue token and uses it up |
| Enrolment.ReissueRebindsOnce | backend/db.py:1448-1491 | Over any run a reissue token authorises at most one rebind |
| Enrolment.RevokedStaysRevoked | backend/app.py:2698-2756 | A revoked record stays revoked with its secret unchanged until an explicit restore or deletion, whatever enrolments, adoptions and heartbeats arrive |
| Enrolment.RevokeThenRestore | backend/app.py:2698-2756 | Revoking locks a host out whatever it presents, restoring lets exactly its old secrets in again, other hosts notice nothing |
| Enrolment.HeartbeatMeans | backend/db.py:884-928 | A heartbeat with the right secret marks the host seen and keeps what it leaves out; any other changes nothing |
| Enrolment.DisenrollMeans | backend/app.py:2767-2793 | Disenrolling takes the host's own secret and removes that host only |
| Enrolment.TokensAreMinted | backend/db.py:1400-1466 | Under every configuration the table only ever holds tokens that were minted |
| Enrolment.ForceDeleteRefusesForEver | backend/app.py:2650-2685 | In every run, after a purging Force Delete every request with a token then bound to the host is refused for ever, and changes nothing |
| TaskQueue.PendingIds | backend/db.py:3035-3057 | The host's pending task ids, all of them, in strictly increasing order |
| TaskQueue.TaskStore.Queue | backend/db.py:3020-3032 | A new pending task for the host under a fresh id |
| TaskQueue.TaskStore.Fetch | backend/db.py:3035-3057 | Exactly the host's pending tasks are returned and marked dispatched at that time; no other task changes |
| TaskQueue.TaskStore.Submit | backend/db.py:3060-3082 | A result is recorded exactly when the task is still dispatched, which closes it |
| TaskQueue.TaskStore.Reclaim | backend/db.py:3085-3132 | Of the selected tasks those still dispatched get a synthetic result, then expired finished tasks and their results are pruned |
| TaskQueue.TaskStore.Prune | backend/db.py:3144-3161 | Exactly the finished tasks created before the cutoff and their results go |
| TaskQueue.TaskStore.DeleteHost | backend/db.py:961-982 | No task or result of the host is left; every task of another host is there unchanged, and each other host's results are the same sequence |
| TaskQueue.TimedOutAllMeans | backend/db.py:3100-3125 | The selected tasks that are still dispatched, and no others, time out, each with one synthetic result |
| TaskQueue.PrunedMeans | backend/db.py:3144-3161 | Exactly the finished tasks created before the cutoff go, with their results |
| TaskQueue.PendingBecome.Sweep | backend/app.py:1252-1256 | Exactly the expired passwords are dropped |
| TaskQueue.PendingBecome.Store | backend/app.py:1259-1264 | Sweeps, then holds the password for its task; an empty password is not stored |
| TaskQueue.PendingBecome.Take | backend/app.py:1267-1270 | Returns the task's password and forgets it, without looking at its expiry |
| TaskQueue.ApplyKeepsInv | backend/db.py:3020-3161 | Every statement of every request keeps ownership, result counting, hand-out order and secrecy |
| TaskQueue.HandedOutOnce | backend/db.py:3035-3057 | Over any interleaving a task appears at one place of one response only, to the host it was queued for |
| TaskQueue.ResponsesIncrease | backend/db.py:3035-3057 | A host's fetch responses, concatenated over any run, are strictly increasing in id |
| TaskQueue.OneResultPerFinishedTask | backend/db.py:3060-3132 | A retained task has exactly one result row when done or timed out and none otherwise, so a real and a synthetic result never both exist |
| TaskQueue.QueuedIsFetched | backend/db.py:3020-3057 | A queued task is in its host's next fetch, dispatched |
| TaskQueue.StaleIsSelected | backend/db.py:3085-3110 | A task dispatched before the cutoff is selected, with its host |
| TaskQueue.SelectedIsReclaimed | backend/db.py:3085-3132 | A selected task that is still dispatched times out with exactly one result, and no other task changes |
| TaskQueue.StoredIsDelivered | backend/app.py:1936-1945 | A password that is still held when its task's turn comes is in the response, and no longer held |
| TaskQueue.SecretLeavesOnce | backend/app.py:1922-1947 | A stored password leaves at most once, unaltered, in the response that hands out the task it was stored for, to that task's host |
| TaskQueue.SweptIsNeverDelivered | backend/app.py:1252-1270 | A password that a sweep removed was never delivered and never will be, whatever follows |
| AgentIntegrity.CompareMeasurements | backend/agent_integrity.py:96-116 | The two loops report version, changed, missing and new files as the specification lists them |
| AgentIntegrity.CompareClean | backend/agent_integrity.py:96-116 | No mismatch if and only if version and file map are equal and the baseline holds no null hash |
| AgentIntegrity.NewOrGoneMeans | backend/agent_integrity.py:105-115 | The list names a file as new, or as gone, if and only if it is |
| AgentIntegrity.ChangedMeans | backend/agent_integrity.py:105-112 | The list names a file as changed if and only if the two hashes differ |
| AgentIntegrity.NullHashFlagsItself | backend/agent_integrity.py:105-108 | A null hash is reported even against the measurement it came from |
| AgentIntegrity.IntegrityStore.EvaluateReport | backend/agent_integrity.py:119-183 | A report re-seals in a window, seals when there is no baseline, otherwise is compared, saving only on change |
| AgentIntegrity.IntegrityStore.NoteMissingReport | backend/agent_integrity.py:186-224 | A missing report arms the timer or, after the grace period, quarantines; never in a window and never twice |
| AgentIntegrity.IntegrityStore.Rebaseline | backend/agent_integrity.py:245-252 | The host's record is forgotten |
| AgentIntegrity.IntegrityStore.MarkUpdating | backend/agent_integrity.py:255-274 | A re-seal window opens and a quarantine is lifted |
| AgentIntegrity.SealedIsLatest | backend/agent_integrity.py:143-158 | The sealed measurement of a history is that of a sealing event after which none seals and none rebaselines |
| AgentIntegrity.HistoryAgrees | backend/agent_integrity.py:119-274 | Every reachable record is what its host's history alone says: baseline, window, status and silence |
| AgentIntegrity.BaselineAndStatus | backend/agent_integrity.py:119-229 | The baseline is the latest sealing event's measurement; quarantined exactly when the mismatch list is not empty |
| AgentIntegrity.ReportVerdict | backend/agent_integrity.py:160-183 | A report outside a window leaves the host ok if and only if it equals the sealed baseline and that has no null hash |
| AgentIntegrity.ReportAnswer | backend/agent_integrity.py:143-183 | A report in a window is accepted and re-seals; one outside is answered with the status and mismatches the record then holds |
| AgentIntegrity.UpdateLiftsQuarantine | backend/agent_integrity.py:255-274 | An announced update lifts a quarantine, and nothing starts another before its window ends |
| AgentIntegrity.SilenceIsFlagged | backend/agent_integrity.py:186-224 | A sealed host that was ok and falls silent outside a window: a miss at least the grace period after the first finds or makes it quarantined for silence, an earlier one leaves it ok |
| AgentIntegrity.SilenceMeansGrace | backend/agent_integrity.py:186-224 | In a quarantine for silence every measurement is older than the flag by at least the grace period |
| AgentIntegrity.StepAlike | backend/agent_integrity.py:160-181 | From stores that differ only in flagged-at, lazy and eager saving answer alike and stay so |
| AgentIntegrity.SkippedWritesAreInvisible | backend/agent_integrity.py:128-181 | Over every history, skipping unchanged writes gives the same answers as saving every heartbeat |
| LoginThrottle.DbThrottle.LockedSeconds | backend/db.py:2311-2323 | Positive exactly when at least one whole second of the lockout is left |
| LoginThrottle.LockedForMeans | backend/db.py:2322-2323 | The answer is the time left less a fraction of a second, and 0 in the last second |
| LoginThrottle.DbThrottle.RecordFailure | backend/db.py:2326-2357 | Old failures drop out, the new one is added, and reaching the maximum starts a lockout; the result is the lockout now in effect, whole when this failure starts it and truncated otherwise |
| LoginThrottle.DbThrottle.Clear | backend/db.py:2360-2368 | Only this key is forgotten |
| LoginThrottle.MemoryThrottle.LockedSeconds | backend/portal_app.py:239-248 | The same whole seconds left |
| LoginThrottle.MemoryThrottle.RecordFailure | backend/portal_app.py:257-267 | The same new record as the durable throttle's |
| LoginThrottle.MemoryThrottle.Clear | backend/portal_app.py:270-273 | Only this address is forgotten |
| LoginThrottle.TwinsAgree | backend/portal_app.py:239-273 | From equal tables, over any run of checks, failures and clears, both give the same answers and end with equal tables |
| LatticePaths.PathsAreBinomials | backend/db.py:2326-2357 | The path counts in the login bounds are binomial coefficients: Paths(a, b) · a! · b! = (a + b)! |
| StaleWrites.ReadKeeps | backend/db.py:2333-2344 | Reading the row is worth exactly the place it takes: the starts still to come stay bounded by the same number |
| StaleWrites.WriteKeeps | backend/db.py:2351-2355 | Writing a row read earlier never raises the bound on the starts still to come, however far it sets the count back |
| StaleWrites.PotentialAtMost | backend/db.py:2326-2357 | Whatever is held by writers under way, with a place left over at most C(c + max + 1, c) − c − 1 can still start |
| LoginSiege.UninterruptedRecord | backend/db.py:2326-2357 | A record call that nothing interrupts has the effect of the one-step record of the throttle objects |
| LoginSiege.FailedIsCloser | backend/db.py:2333-2350 | A failure of the stretch leaves the row it read one failure closer to a lockout that lasts the stretch, or keeps it locked |
| LoginSiege.StretchPays | backend/db.py:2311-2357 | Over every interleaving of checks, begins, reads and writes within a stretch, what passes is paid for by the potential at its start |
| LoginBounds.StretchBound | backend/app.py:3723-3760 | However the checks, reads and writes of a key interleave, with at most c requests in flight any stretch of at most lockout − 1 seconds lets at most C(c + max + 1, c) − c − 1 past the check |
| LoginBounds.QuietStretchBound | backend/app.py:3723-3760 | At most C(c + max, c) − 1 if no record call straddles the start of the stretch |
| LoginBounds.AtomicStretchBound | backend/app.py:3723-3760 | At most max + c − 1 in a run where no record call writes after another one has since it began |
| LoginWitnesses.StretchBoundIsReached | backend/app.py:3723-3760 | The general bound is exact: for every max and c some run reaches it at a single moment |
| LoginWitnesses.QuietBoundIsReached | backend/app.py:3723-3760 | So is the one without straddling record calls, starting from nothing |
| LoginWitnesses.AtomicBoundIsReached | backend/app.py:3723-3760 | And so is the one for records that do not overlap |
| LoginWitnesses.OverlapBreaksAtomicBound | backend/db.py:2333-2356 | With max and c at least 2, overlapping records let more than max + c − 1 requests pass at one moment |
| LoginWitnesses.SerialBoundIff | backend/db.py:2326-2357 | With a positive window, serial requests keep to max in every stretch if and only if the window is longer than lockout − 1 seconds or max is 1 |
| LoginWitnesses.WindowMustCover | backend/db.py:2326-2357 | With max at least 2 and a shorter window, max + 1 serial requests pass within one window |
| LoginWitnesses.StraddleBreaksQuietBound | backend/db.py:2333-2356 | With c at least 2, record calls that straddle the start let more than C(c + max, c) − 1 requests pass at one moment |
| LoginWitnesses.OverlapIsUnbounded | backend/app.py:3723-3760 | Without a bound on c there is none: any number of checks before the first write all pass |
| LoginBounds.SerialStretchBound | backend/portal_app.py:277-319 | Where requests do not overlap, a stretch of at most lockout − 1 seconds lets at most max past the check |
| LoginWitnesses.OverlappingWriteUndoesLock | backend/db.py:2333-2356 | Of two failures one short of max the second locks, but not if it read the row before the first wrote it |
| LoginBounds.RunBound | backend/app.py:3723-3760 | Over D seconds at most (C(c + max + 1, c) − c − 1) · (⌊D/(lockout − 1)⌋ + 1) requests pass the check |
| LoginWitnesses.LastSecondIsOpen | backend/db.py:2322-2323 | The lost second is real for every max: after that many failures a check half a second before the lockout ends passes |
| EnrollFlood.RateGuard.Limited | backend/app.py:815-852 | The decision, the retry hint and the trimmed table; after an admission the table is within its size or holds no idle source, and no other source's hits change |
| EnrollFlood.ForgettingIsInvisible | backend/app.py:815-852 | Trimming old hits and evicting idle sources never changes a decision or a hint compared with a guard that keeps everything |
| EnrollFlood.WindowBound | backend/app.py:815-852 | Any closed window of the configured length holds at most the configured number of admitted requests of one source |
| EnrollFlood.AdmittedIff | backend/app.py:815-852 | A request is admitted if and only if fewer than the configured number of its source were admitted in the closed window that ends with it |
| EnrollFlood.FullListsAdmissions | backend/app.py:815-852 | The history the bound speaks of is exactly what the coded guard admitted |
| AgentBundle.NoStraddle | backend/agent_bundle.py:253-270 | No match of the pattern that starts before an occurrence of the call reaches into it |
| AgentBundle.MatchMeans | backend/agent_bundle.py:256-270 | The scan matches exactly what the regular expression describes |
| AgentBundle.PatchShape | backend/agent_bundle.py:769-800 | Patching replaces the default fragment in one place and leaves the text on both sides |
| AgentBundle.BakedInAddress | backend/agent_bundle.py:769-800 | The first default fragment becomes the call with a literal that reads as exactly the given address; everything else stays |
| AgentBundle.PatchFailsWhen | backend/agent_bundle.py:783-788 | Patching fails exactly when the fragment is missing |
| JsonText.JsonRoundTrip | backend/agent_bundle.py:790-798 | A JSON reader written on its own gives every text back from its escaped body |
| JsonText.PythonRoundTripIff | backend/agent_bundle.py:790-798 | As a Python literal the body stands for the text if and only if that stays within U+FFFF |
| AgentBundle.PatchUndone | backend/agent_bundle.py:253-800 | For every source with the default fragment and every address without a double quote the canonical form is unchanged by patching |
| AgentBundle.PatchUndoneIffNoQuote | backend/agent_bundle.py:253-800 | It is unchanged if and only if the address has no double quote |
| AgentBundle.PatchKeepsVersion | backend/agent_bundle.py:256-270 | An agent patched with such an address reports the version of the shipped source, whatever the hash |
| AgentBundle.PatchKeepsVersionIff | backend/agent_bundle.py:256-270 | The version is unchanged by patching if and only if the address has no double quote or the truncated hash collides on the two canonical forms |
| AgentBundle.JsonBodyHasNoQuote | backend/agent_bundle.py:790-800 | JSON escaping introduces no double quote |
| AgentBundle.JsonBodyQuotes | backend/agent_bundle.py:790-800 | Every quote inside a JSON literal is escaped, and an address with a quote gives a literal with one |
| SelfAddress.AddressTally.Observe | backend/self_address.py:94-110 | An accepted sighting updates its entry or adds one, the oldest making room; a rejected one changes nothing |
| SelfAddress.AddressTally.ForgetOldest | backend/self_address.py:113-115 | Removes the first entry that was seen least recently |
| SelfAddress.AddressTally.Prune | backend/self_address.py:118-121 | Removes exactly the entries not seen for the forgetting time |
| SelfAddress.AddressTally.Assess | backend/self_address.py:124-161 | Stale exactly when the advertised address was not reached lately; a candidate is eligible and no eligible entry counts more |
| SelfAddress.AfterKeeps | backend/self_address.py:94-121 | Over any run at most 64 distinct addresses are tracked and every count, time and peer in an entry is backed by the history |
| SelfAddress.ReplacementIsEarned | backend/self_address.py:124-161 | An eligible replacement was sighted at least 20 times, by two distinct peers, five minutes apart, the last within fifteen |
| SelfAddress.OnePeerMovesNothing | backend/self_address.py:124-161 | With sightings from a single peer nothing is ever eligible |
| SelfAddress.LiveAddressStays | backend/self_address.py:94-161 | While at most 64 distinct addresses were seen, an address reached in the last fifteen minutes is never reported stale |
| SelfAddress.TrackedAlone | backend/self_address.py:94-121 | Within 64 addresses each is tracked as if it were the only one: its entry holds all its sightings since it was last forgotten |
| SelfAddress.StreakCountsAll | backend/self_address.py:94-110 | Without a prune every sighting counts |
| SelfAddress.EarnedIsEligible | backend/self_address.py:140-161 | An address with 20 sightings by two peers, five minutes apart and the last within fifteen, is eligible |
| SelfAddress.ReachedIff | backend/self_address.py:124-139 | The advertised address counts as reached if and only if it was sighted within fifteen minutes |
| PtyBridge.Bridge.Create | backend/remote_routes.py:1294-1306 | A fresh open session for the host |
| PtyBridge.Bridge.PushOutput | backend/remote_routes.py:1400-1418 | Output is buffered up to the cap for the owning host only; an unknown or foreign session tells the agent to stop |
| PtyBridge.Bridge.ReadOutput | backend/remote_routes.py:1421-1431 | Everything buffered, then nothing is buffered |
| PtyBridge.Bridge.QueueInput | backend/remote_routes.py:1434-1445 | Input is appended in order; a close only marks the session |
| PtyBridge.Bridge.TakeInput | backend/remote_routes.py:1448-1464 | All queued input at once, also after a close; nothing to a foreign host |
| PtyBridge.Bridge.Reap | backend/remote_routes.py:1467-1481 | Exactly the sessions past their grace time go, none used in the last thirty seconds; the other idle ones are closed, active ones untouched, and nothing reapable is left |
| PtyBridge.BufferIsNewest | backend/remote_routes.py:1400-1431 | For any cap of at least 1 the buffer is always the last min(n, cap) characters pushed since the previous read |
| PtyBridge.ReadsArePushes | backend/remote_routes.py:1400-1431 | Without overflow the reads concatenate to the pushes |
| PtyBridge.InputArrivesInOrder | backend/remote_routes.py:1434-1464 | Whatever the output cap, queued input is taken exactly once and in order, and a take leaves none behind, closed or not |
| PtyBridge.CapsExactlyFromOne | backend/remote_routes.py:1289-1415 | Over all runs the buffer is the newest characters up to the cap, none for a negative one, if and only if the cap is at least 1 |
| PtyBridge.BelowOneIsNoCap | backend/remote_routes.py:1412-1415 | For every cap of 0 or below, a single push leaves any wanted number of characters in the buffer |
| PtyBridge.ZeroCapKeepsAll | backend/remote_routes.py:1412-1415 | With a cap of 0 the buffer is everything pushed since the previous read, over any run |
| PtyBridge.NegativeCapCutsEachPush | backend/remote_routes.py:1412-1415 | With a negative cap a push that makes the buffer long enough drops exactly its oldest −cap characters |
| JumpHop.CheckedHopParses | backend/remote_routes.py:353-372 | Parsing any hop that the check accepted never raises, and its port is in 1..65535 if and only if the hop without a final newline passes the range test |
| JumpHop.NewlineHidesThePort | backend/relay.py:384-399 | A hop with a final newline passes the check and yields port 99999 |
| JumpHop.RangeOfShape | backend/relay.py:392-398 | The range test looks at exactly the port that the parser will read |
| JumpHop.CheckMeans | backend/relay.py:64-68 | The greedy scan is the regular expression: a hop passes if and only if it has no leading dash, the expression describes it and its port is in range |
| JumpHop.PlainConfigIsEmitted | backend/relay.py:200-236 | A plain host name with a plain user is routed as user@host, with the port when it is not 22 |
| JumpHop.DefaultUserIsEmitted | backend/relay.py:200-236 | Without a configured user the relay's own account is used |
| JumpHop.EmittedHopParses | backend/relay.py:200-236 | Every hop emitted from a stripped configuration parses, with a port in 1..65535 |
| JumpHop.PrintThenParse | backend/relay.py:200-236 | Parsing an emitted hop returns the configured user, unbracketed host and port if and only if the host carries no port of its own |
| JumpHop.CoercePort | backend/relay.py:376-381 | A configured port in 1..65535 is kept, anything else becomes 22 |
| PortalFiles.SafeFilenameIsPlain | backend/portal_files.py:37-47 | An accepted name is a plain file name, and every plain file name is accepted unchanged |
| PortalFiles.DirectoryIsDropped | backend/portal_files.py:37-47 | Whatever directory is put in front, only the file's own name is used |
| PortalFiles.NumberedInjective | backend/portal_files.py:84-89 | Different counters give different names |
| PortalFiles.NumberedIsNew | backend/portal_files.py:84-89 | A numbered name differs from the original and is still a plain name |
| PortalFiles.NumberedKeepsExtension | backend/portal_files.py:84-89 | The number goes between the stem and the extension |
| PortalFiles.TriedAreDistinct | backend/portal_files.py:84-89 | Every probe of the loop tries a name not tried before |
| PortalFiles.Pool.Save | backend/portal_files.py:77-93 | The chosen name was absent and plain, every existing file is unchanged, the new one reads back as written, and at most one more probe is made than there are files |

## Left out

- RowEncoding.DigestPayload: fields arrive as bytes; how Python turns a string into UTF-8, and a lone surrogate that it refuses, is not modelled.
- AuditChain.VerifyChain: the rows and the mark are one snapshot, although the code reads them in two connections, so an append between the two reads is outside the claim. A stored column of 2^32 bytes or more counts as a break; SQLite does not store one.
- AuditChain.StampPinsTime: timestamps are reals, so negative zero, NaN and infinities do not occur.
- AuditLog.Log.Append: secret redaction of the description and the `source` column, which no digest covers, are not modelled; the caller's previous tail hash is assumed shorter than 2^32 bytes.
- Enrolment.Controller.MatchSecret: re-storing a legacy secret hashed is assumed to succeed, where the code ignores a failing write.
- Enrolment.Controller.HandleEnrol: hostnames are taken as stripped, and the gates before the enrol lock (malformed host id, flood guard, address allowlist, paused enrolment), environment tagging and the edition cap are not modelled. Revocation does not take the enrol lock; a request is one atomic step here.
- TaskQueue.TaskStore.Fetch: that the poll of a quarantined host does not fetch is not part of this model.
- TaskQueue.PendingBecome.Take: the want-root side table works the same way and is not modelled again; task payloads and result texts are not modelled.
- AgentIntegrity.IntegrityStore.EvaluateReport: a measurement is a version and a list of path and hash pairs; other JSON values a report could hold, and a failing save, are not modelled.
- LoginBounds.StretchBound: every request of the run fails and is recorded or still in flight, so no login succeeds meanwhile, and the clock does not go back; a store error, on which the callers let the request through or drop the record, is not modelled.
- EnrollFlood.WindowBound: the clock does not go back.
- SelfAddress.AddressTally.Observe: parsing an address and deciding whether it is routable is one boolean input; saving the tally is not modelled.
- PtyBridge.Bridge.TakeInput: the waiting between the turns of the long poll, and its deadline, are not modelled.
- JumpHop.EmittedHopParses: the identity path, the routing allowlist and the spellings of a configured port that `int()` takes besides integers are outside the model; `valid_jump_chain`, which no backend code calls, is left out.
- PortalFiles.Pool.Save: POSIX paths only; file-system errors and another writer between the probe and the write are not modelled.
- AgentBundle.PatchKeepsVersion: the hash behind the version is an arbitrary function; missing source files are not modelled.
- SHA-256, HMAC (RFC 2104, section 2), PBKDF2 and token randomness: abstract functions and fresh inputs.
- SQLite itself, transactions that fail half way and file persistence: a committed statement is one step, and ids are never reused.
- HTTP routing, pages, SSH, certificate generation and the shell scripts the bundle carries: no property beyond single branches, or foreign behaviour that cannot be seen.
- Single sign-on adoption and the administrator account routes: partial-failure paths of single branches.
