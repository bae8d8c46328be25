# Verified model of ModuLab Core

A Dafny model of five parts of ModuLab Core's backend, with proofs about every run of
them. `dafny verify dfyconfig.toml` checks the whole project.

## What is modelled

**Audit log** (`AuditFormat`, `AuditChain`, `AuditSearch`, `AuditLog`, `AuditEffects`,
`AuditWriters`).
Rows, both hash formulas over the concrete `|`-joined text, the locked append, the
verifier's walk, the search scan with its cap, and any number of concurrent writers as a
state machine. HMAC-SHA256 (section 2 of RFC 2104) is an injective function whose values
are never empty.

**Sessions and accounts** (`SessionStore`, `Sessions`, `SessionFacts`, `Accounts`,
`AccountServer`, `AccountEffects`, `AccountRuns`, `AccountIndex`, `AccountExamples`, `Anomaly`,
`AnomalyRuns`). Valkey is a store of keys with expiry instants and a clock that moves in
steps. `SessionStore` says what each
operation does to it, `Sessions` is the step-by-step code, `AccountServer` the handlers on
top of it with the users table. `Accounts.Step` is one request, and the theorems are about
every sequence of requests. `AccountIndex` says when the session index loses a session.
`AccountEffects` says what each request does in terms of stored keys and rows.
`Anomaly` compares the two sliding baselines of a session with a tracker that forgets
nothing, `AnomalyRuns` places this into arbitrary runs.

**Bootstrap gate** (`Positional`, `Base58`, `BootstrapGate`, `BootstrapEffects`,
`BootstrapRuns`). The
middleware with its delays in int64 nanoseconds, its critical sections interleaved by any
number of requests, and the Base58 text of the token.

**CRUD engine** (`CrudManifest`, `CrudSql`, `CrudRequests`, `CrudRows`, `CrudRuns`,
`CrudEffects`, `CrudListing`, `CrudServer`). The manifest check, the statements as syntax
trees with numbered placeholders, an interpreter that refuses what PostgreSQL refuses (empty or repeated
columns, unknown columns, unbound parameters), the handlers, and runs in which the
ownership check and the write of different requests interleave.

**Encryption migration** (`Migration`, `MigrationRuns`, `MigrationEffects`). The startup migration
with a crash possible before every step, over any number of boots.

`Wrappers` holds the option and result types, `Crypto` the abstract cipher and MAC.

## What was found

- The last admin can lose the role at its own login. The wizard then counts as incomplete
  and skips the second gate, so an account nobody approved gets its full role
  (`AccountExamples.DemotedAdminOpensTheGate`).
- An approval renews the session keys but not the index. If no request of the user comes
  before the index expires, a later lock or deletion finds nothing to revoke
  (`AccountExamples.LapsedIndexSurvivesLock`). This is the only way for the index to lose a
  session (`AccountIndex.StepIndexedIff`), and one request of the user in time repairs it
  (`AccountIndex.RequestAfterApprovalRestoresCoverage`).
- Approving a locked row gives its live pending sessions their full role
  (`AccountExamples.ApprovedWhileLocked`).
- The migration is described as safe on every boot. From version 0 it is so only if no
  earlier boot died after rewriting a user or a setting
  (`MigrationRuns.FromVersionZero`, `MigrationRuns.InterruptionSealsTwice`).
- A day without a known country lets the anomaly baseline expire and the login country
  takes its place (`Anomaly.LapseMisreports`).
- A create on a shared table in which no field has a value is an INSERT without columns
  and fails with an internal error (`CrudRequests.InsertMeansCreate`).
- A search that finds nothing in 20000 rows ends the paging although matches may follow
  (`AuditSearch.PagesCompleteIffNoLongGap`, `AuditSearch.MatchBeyondCap`).
- With fourteen failures the delay outlasts the announced one-hour block; this happens as
  soon as five requests can be in flight (`BootstrapRuns.WithinTheHourIff`).
- Page numbers end at 100000, so a table with more rows than fit on those pages cannot be
  listed in full (`CrudListing.PagesShowEveryRowIff`).
- The comment at `backend/internal/bootstrap/manager.go:358-362` expects the token line to
  outgrow the box; it never does (`Base58.TokenLineClosed`).
- Verify's one row beyond the limit overflows at the largest int64
  (`AuditLog.AuditTable.Verify`).

## Model

| member | source | states |
|---|---|---|
| `AuditChain.VerifiedIffSegment` | backend/internal/audit/audit.go:797-858 | With an injective MAC, only issued hashes in the table and no separator in any field, the walk accepts a table if and only if it is a contiguous segment of the written log, up to id, timestamp and, on legacy rows, the three ciphertexts: interior deletion, insertion, reordering and edits all show; losing a prefix or suffix does not |
| `AuditChain.VerifiedIsAligned` | backend/internal/audit/audit.go:816-857 | Even with separators in fields, an accepted table that reuses only issued hashes carries the hashes of consecutive log entries |
| `AuditChain.FormatsNeverCollide` | backend/internal/audit/audit.go:732-755 | The seven-field and the four-field hash never agree, not even on two different rows |
| `AuditChain.SameHashSameEntry` | backend/internal/audit/audit.go:732-755 | Two rows with the same hash agree on everything that hash covers, whichever formula each used |
| `AuditChain.HashesDiffer` | backend/internal/audit/audit.go:362-421 | All hashes of an honestly written log are pairwise distinct |
| `AuditChain.NextEntry` | backend/internal/audit/audit.go:839-853 | The successor of a verified row that is log entry k is log entry k + 1 |
| `AuditChain.SeparatorInFieldDefeatsSegment` | backend/internal/audit/audit.go:732-739 | Why separator-free fields are needed: a one-row log and a different one-row table that verifies, obtained by moving text across the separator |
| `AuditFormat.JoinInjective` | backend/internal/audit/audit.go:732-739 | The joined text determines the list of fields, also between lists of different length, when no field holds the separator |
| `AuditFormat.LastPartRecovered` | backend/internal/audit/audit.go:732-755 | Whatever the other fields hold, the last one (the previous hash) can be read back from the joined text |
| `AuditLog.AuditTable.Log` | backend/internal/audit/audit.go:362-421 | Appends exactly one row, linked to the newest hash, and keeps an honest log honest |
| `AuditLog.LoggedEntryReadsBack` | backend/internal/audit/audit.go:362-421 | An entry lists back with exactly the emails and details it was logged with |
| `AuditLog.LoggedRowBarFree` | backend/internal/audit/audit.go:386-420 | A logged row is free of separators as soon as the three plain fields are |
| `AuditLog.AuditTable.Verify` | backend/internal/audit/audit.go:797-858 | Reports the least bad row among the first min(n, limit) with its checked count and id, or OK, complete exactly when the table has at most limit rows; at the largest int64 the extra row overflows and the query fails |
| `AuditLog.CompleteVerdictMeansChained` | backend/internal/audit/audit.go:797-858 | OK and complete together mean every link and hash of the table is right and the limit covered it, and conversely |
| `AuditLog.CleanVerifyIffSegment` | backend/internal/audit/audit.go:797-858 | OK and complete if and only if the table is a contiguous segment of the log within the limit |
| `AuditLog.AuditTable.List` | backend/internal/audit/audit.go:460-501 | Without a search the newest rows the filters keep, below the cursor; with one, the first limit matches among the first 20000 such rows |
| `AuditLog.Scan` | backend/internal/audit/audit.go:469-500 | The nested batch loop ends and returns the first limit matches among the first 20000 filtered rows below the cursor |
| `AuditLog.ScanBatch` | backend/internal/audit/audit.go:482-494 | The inner loop stops exactly when enough matches are found and drops nothing before |
| `AuditSearch.NewestSorted` | backend/internal/audit/audit.go:535-571 | The query delivers exactly the rows meeting every condition, in strictly decreasing id |
| `AuditSearch.CursorContinues` | backend/internal/audit/audit.go:477-496 | A cursor set to the n-th delivered row continues right after it |
| `AuditSearch.PagesCompleteIffNoLongGap` | backend/internal/audit/audit.go:448-501 | Following the last returned id page by page yields every match exactly once if and only if no match has 20000 filtered rows without a match before it |
| `AuditSearch.PagesCompleteBelowCap` | backend/internal/audit/audit.go:448-501 | With at most 20000 filtered rows the pages together are exactly the matches, newest first, each once |
| `AuditSearch.MatchBeyondCap` | backend/internal/audit/audit.go:448-501 | A table of 20001 rows whose only match is the oldest: the first page is empty and paging ends |
| `AuditSearch.PagePosition` | backend/internal/audit/audit.go:482-496 | A non-empty page ends at a position of the result from which the next page starts |
| `AuditWriters.EveryInterleavingVerifies` | backend/internal/audit/audit.go:382-420 | For any number of writers, any interleaving and any rollbacks, committed rows are in increasing id, form one chain of current-format hashes, and a walk over them reports no break |
| `AuditWriters.NextKeepsInv` | backend/internal/audit/audit.go:382-420 | Each begin, lock, read, insert, commit or rollback keeps the chain and what every writer past the lock relies on |
| `AuditWriters.OneWriterPastLock` | backend/internal/audit/audit.go:393-400 | The advisory lock excludes a second writer up to its commit or rollback |
| `AuditWriters.WithoutLockChainForks` | backend/internal/audit/audit.go:352-361 | Without the lock two writers fork the chain |
| `Base58.DecodeEncode` | backend/internal/bootstrap/manager.go:326-349 | A decoder written as the definition inverts the encoder on every byte sequence, leading and all zeros included; so encoding is injective |
| `Base58.EncodeDecode` | backend/internal/bootstrap/manager.go:326-349 | Every text over the alphabet is the encoding of the bytes it decodes to |
| `Base58.Base58Encode` | backend/internal/bootstrap/manager.go:326-349 | The division loop, the in-place reversal and the leading ones together compute the defined encoding |
| `Base58.ReverseInPlace` | backend/internal/bootstrap/manager.go:341-347 | The swap loop reverses the buffer in place |
| `Base58.TokenLength` | backend/internal/bootstrap/manager.go:312-318 | 32 bytes take at most 44 characters |
| `Base58.BoxLineClosedIffFits` | backend/internal/bootstrap/manager.go:363-369 | A box line has its right border exactly if the text fits the inner width |
| `Base58.TokenLineClosed` | backend/internal/bootstrap/manager.go:363-398 | The line of any token keeps its right border |
| `Base58.AlphabetIsDistinct` | backend/internal/bootstrap/manager.go:320-326 | The 58 letters of the alphabet are distinct |
| `Positional.RebaseRoundTrip` | backend/internal/bootstrap/manager.go:326-349 | Rewriting leading zeros and number in another base and back loses nothing |
| `BootstrapGate.Manager.Middleware` | backend/internal/bootstrap/manager.go:129-169 | One request leaves the gate as defined and gets the defined response, for every order of completed, paused, blocked, right and wrong token |
| `BootstrapGate.Manager.GetBlockedFor` | backend/internal/bootstrap/manager.go:220-235 | How long the address has to wait, 0 if it may go on |
| `BootstrapGate.Manager.RecordFailure` | backend/internal/bootstrap/manager.go:237-264 | The failure counts, the delay, the block and the pause after one more failure |
| `BootstrapGate.Manager.RecordSuccess` | backend/internal/bootstrap/manager.go:266-270 | A success forgets the address only |
| `BootstrapGate.Manager.Complete` | backend/internal/bootstrap/manager.go:199-203 | Completing the wizard closes the gate and changes nothing else |
| `BootstrapGate.BackoffExactIff` | backend/internal/bootstrap/manager.go:245-246 | The int64 delay is 2^(k-1) seconds if and only if k is at most 34 |
| `BootstrapRuns.PauseBound` | backend/internal/bootstrap/manager.go:129-168 | For any interleaving with at most k requests in flight: failures plus requests past the snapshot stay within 9 + k, the addresses together have no more failures than were counted, and up to k = 25 no delay leaves int64 |
| `BootstrapRuns.WaitAtMostAnHour` | backend/internal/bootstrap/manager.go:220-264 | With at most four requests in flight no address ever waits more than an hour |
| `BootstrapRuns.WithinTheHourIff` | backend/internal/bootstrap/manager.go:129-264 | Every wait of every address in every run stays within the announced hour if and only if at most four requests can be in flight at a time |
| `BootstrapRuns.FiveInFlightWaitLonger` | backend/internal/bootstrap/manager.go:129-264 | A run with five in flight after which an address waits more than an hour |
| `BootstrapRuns.WaitAtMostAnHourIff` | backend/internal/bootstrap/manager.go:237-264 | A recorded failure at the block threshold keeps every later wait within an hour exactly if the computed delay is at most two hours; while delays are exact (up to 34 failures), exactly up to the thirteenth failure |
| `BootstrapRuns.ClosedStaysClosed` | backend/internal/bootstrap/manager.go:129-168 | Once completed or paused, the gate stays so, and only requests already past the snapshot with the right token reach the handler |
| `BootstrapRuns.SmallStepsAreServe` | backend/internal/bootstrap/manager.go:129-168 | The separate critical sections of one undisturbed request add up to the whole request |
| `BootstrapRuns.ThrottleSchedule` | backend/internal/bootstrap/manager.go:220-264 | In sequential runs failure n of an address comes at least 2^(n-1)-1 seconds after the first, from the fifth on at least 15 s and n-5 hours; at most ten failures, delays at most 512 s, and no wait of any address ever exceeds an hour |
| `BootstrapGate.SumWithout` | backend/internal/bootstrap/manager.go:237-264 | Counting the failures over addresses does not depend on the order |
| `Sessions.Valkey.CreateSession` | backend/internal/auth/session.go:407-468 | Stores the session and indexes it, both for a full lifetime |
| `Sessions.Valkey.Advance` | backend/internal/auth/session.go:453-466 | As time passes exactly the keys whose lifetime is over disappear |
| `Sessions.Valkey.SetMembers` | backend/internal/auth/session.go:478-482 | The members of an index, each once |
| `Sessions.Valkey.ValidateSessionById` | backend/internal/auth/session.go:763-814 | Answers the stored session exactly when it exists and is not over age; slides the session, the index and both baselines; removes an over-age one everywhere |
| `Sessions.Valkey.CheckCountry` | backend/internal/auth/session.go:853-943 | Reports the known previous country exactly when the request names another one, and slides or rewrites the baseline |
| `Sessions.Valkey.CheckDevice` | backend/internal/auth/session.go:958-1014 | The same for the User-Agent |
| `Sessions.Valkey.RevokeUserSessions` | backend/internal/auth/session.go:478-529 | The loop over the index removes every indexed session, its baselines and then the index |
| `Sessions.Valkey.RevokeSessionById` | backend/internal/auth/session.go:557-588 | Succeeds exactly for a live session and removes it, its baselines and its index entry |
| `Sessions.Valkey.RevokeOwnSessionById` | backend/internal/auth/session.go:650-695 | Succeeds exactly for an indexed live session of the caller |
| `Sessions.Valkey.ListActiveSessions` | backend/internal/auth/session.go:1158-1250 | The scan shows every live session, each once |
| `Sessions.Valkey.ListActiveSessionsForUser` | backend/internal/auth/session.go:1267-1334 | Shows the live sessions of the index, each once, and removes dead members one by one |
| `Sessions.Valkey.DeleteSession` | backend/internal/auth/session.go:1348-1356 | Removes the session and its baselines, and leaves the index |
| `Sessions.Valkey.UpdateSessionsRole` | backend/internal/auth/session.go:1370-1422 | Rewrites every indexed live session one by one, renews only the session keys, drops dead members |
| `Sessions.Valkey.RevalidateSession` | backend/internal/auth/revalidate.go:104-223 | A rejected session is removed everywhere; otherwise only the displayed claims and the refresh token change and the remaining lifetime is kept |
| `Sessions.Valkey.CreateModuleToken` | backend/internal/auth/moduletoken.go:74-92 | Stores the module and the session the token stands for |
| `Sessions.Valkey.ValidateModuleToken` | backend/internal/auth/moduletoken.go:101-126 | Answers the session exactly when the token is for this module and the session itself validates |
| `Sessions.PartlyUpdatedNext` | backend/internal/auth/session.go:1386-1414 | One turn of the role-update loop does to the partly updated store what updating one more member means |
| `SessionFacts.TickKeeps` | backend/internal/auth/session.go:798-808 | Letting time pass keeps the index covering every live session |
| `SessionFacts.CreateKeeps` | backend/internal/auth/session.go:453-466 | A login with a fresh id adds exactly that session and keeps coverage |
| `SessionFacts.ValidateKeeps` | backend/internal/auth/session.go:763-814 | Validation keeps coverage, owners, roles and ages |
| `SessionFacts.RevokeUserKeeps` | backend/internal/auth/session.go:478-529 | So does revoking a user |
| `SessionFacts.RevokeByIdKeeps` | backend/internal/auth/session.go:557-588 | So does revoking by id |
| `SessionFacts.OwnRevokeKeeps` | backend/internal/auth/session.go:650-695 | So does ending an own session |
| `SessionFacts.LogoutKeeps` | backend/internal/auth/session.go:1348-1356 | So does logging out |
| `SessionFacts.CleanKeeps` | backend/internal/auth/session.go:1267-1334 | So does listing with cleanup |
| `SessionFacts.RevalidateKeeps` | backend/internal/auth/revalidate.go:104-223 | So does revalidation, which also keeps the expiry of a session it leaves alive |
| `SessionFacts.UpdateRoleKeeps` | backend/internal/auth/session.go:1370-1422 | A role update keeps membership of every live session and everybody else's coverage, though the index may now end before the sessions |
| `SessionFacts.ValidationRestoresCoverage` | backend/internal/auth/session.go:798-808 | While the index lives, validating any session of the user makes it cover all of them again |
| `SessionFacts.IndexedUntilExpiry` | backend/internal/auth/session.go:455-466 | Until the index expires no live session drops out of it |
| `SessionFacts.RevokeUserIsComplete` | backend/internal/auth/session.go:478-529 | Revocation leaves no live session of the user if and only if all were indexed, and never touches anybody else's |
| `SessionFacts.IndexListingIsScan` | backend/internal/auth/session.go:1158-1334 | The listing through the index equals the scan restricted to the owner if and only if the index is complete |
| `SessionFacts.CleanupRemovesDeadOnly` | backend/internal/auth/session.go:1267-1334 | Cleanup leaves exactly the live members |
| `SessionFacts.OwnRevokeIsDirect` | backend/internal/auth/session.go:650-695 | With a complete index, ending an own session succeeds exactly when a direct lookup finds it live and owned, and does the same as revoking it directly |
| `SessionFacts.RevokedIsUnindexed` | backend/internal/auth/session.go:557-588 | A revoked session is in no index, all others stay |
| `AccountServer.Server.Callback` | backend/internal/auth/handlers.go:524-673 | Both gates, the upsert that never resets approval or lock, and the session with the gated role, as one login step |
| `AccountServer.Server.LogoutHandler` | backend/internal/auth/handlers.go:1278-1345 | Logging out validates first and then removes the session in any case |
| `AccountServer.Server.DeleteSelfHandler` | backend/internal/auth/handlers.go:895-990 | Deletes the row and every indexed session exactly when the caller's login is recent, the row exists and is not the last admin |
| `AccountServer.Server.ApproveHandler` | backend/internal/auth/admin.go:559-625 | Approves and rewrites live sessions exactly for a recent admin and an existing row |
| `AccountServer.Server.LockHandler` | backend/internal/auth/admin.go:636-695 | Locks and revokes exactly for a recent admin, another, existing account that is not the last admin |
| `AccountServer.Server.UnlockHandler` | backend/internal/auth/admin.go:705-745 | Unlocks without touching role, approval or sessions |
| `AccountServer.Server.DeleteHandler` | backend/internal/auth/admin.go:753-823 | Deletes and revokes exactly under the same guards as locking |
| `AccountServer.Server.RequireRecentAdmin` | backend/internal/auth/admin.go:256-292 | Lets exactly admins with a recent login through |
| `AccountServer.Server.RequireActive` | backend/internal/auth/admin.go:437-473 | Lets exactly validated, non-pending, unlocked sessions through |
| `AccountServer.Server.GuardAgainstLastAdmin` | backend/internal/auth/admin.go:391-407 | Blocks exactly the only remaining admin row |
| `AccountServer.Server.UpsertUser` | backend/internal/db/users.go:47-75 | A known row gets profile and role only; a new one starts unlocked with the given approval |
| `AccountServer.Server.UserApproved` | backend/internal/db/users.go:108-118 | True exactly for an existing approved row |
| `AccountServer.Server.UserLocked` | backend/internal/db/users.go:123-133 | True exactly for an existing locked row |
| `AccountServer.Server.ApproveUser` | backend/internal/db/users.go:291-297 | Sets approval of an existing row and counts it |
| `AccountServer.Server.SetLocked` | backend/internal/db/users.go:308-327 | Sets or clears the lock of an existing row and counts it |
| `AccountServer.Server.DeleteUser` | backend/internal/db/users.go:335-341 | Removes the row and counts it |
| `AccountServer.Server.MySessionsHandler` | backend/internal/auth/mysessions.go:25-45 | Shows an active caller the live sessions of the own index |
| `AccountServer.Server.RevokeMySessionHandler` | backend/internal/auth/mysessions.go:54-76 | Ends exactly an own, live, indexed session of an active caller |
| `AccountServer.Server.RevokeSessionHandler` | backend/cmd/core/main.go:2418-2440 | Ends exactly a live session, for an admin |
| `AccountServer.Server.ModuleTokenHandler` | backend/internal/auth/moduletoken.go:74-92 | Mints a token for the own session of an active caller |
| `AccountServer.Server.ModuleRequestHandler` | backend/internal/auth/moduletoken.go:137-160 | Lets exactly the tokens through that lead to a session in use; refuses other tokens, and pending or locked sessions, with their own answers |
| `AccountServer.Server.MeHandler` | backend/internal/auth/handlers.go:833-874 | A plain request validates the session and changes nothing else |
| `AccountServer.Server.Serve` | backend/internal/auth/handlers.go:444-810 | Every action of a run is done by the code, so what is proved about runs holds of it |
| `AccountRuns.StepPrivilegedIff` | backend/internal/auth/handlers.go:538-604 | From a reachable state in which every live session with a real role belongs to an approved, unlocked row, one request keeps that if and only if it is careful: a login of a known, not approved or locked row only after the wizard, no approval of a locked row with live sessions, and an index holding the user's sessions at each lock and deletion |
| `AccountRuns.RunPrivilegedIff` | backend/internal/auth/handlers.go:444-810 | Over every run of logins, requests, logouts, admin actions, self-deletions, revocations, revalidations, module tokens and clock steps: privilege is tied to approval in all states if and only if every request was careful |
| `AccountIndex.StepIndexedIff` | backend/internal/auth/session.go:453-515 | Whatever the request, an approval with a session open included: a user whose live sessions are all indexed stays so, if and only if the clock does not pass the end of the index while a session of the user lives on |
| `AccountIndex.RunIndexedIff` | backend/internal/auth/session.go:453-1408 | Over any run the index is complete for everybody in all states if and only if nobody's index lapses |
| `AccountIndex.LapseIsSilence` | backend/internal/auth/session.go:798-808 | Such a lapse is told from outside: the user made no login and no request for a whole session lifetime, within which an approval gave a session its role |
| `AccountIndex.LapseFreePrivilegedIff` | backend/internal/auth/admin.go:559-823 | Over every run without a lapse, whoever is approved, locked, deleted or revoked: privilege stays tied to approval throughout if and only if known rows not in good standing log in only while the wizard is complete and no locked row with live sessions is approved |
| `AccountIndex.FromTheStart` | backend/internal/auth/admin.go:559-823 | Both for every run from the empty system |
| `AccountIndex.CoverageLasts` | backend/internal/auth/session.go:453-1408 | Without approvals of live sessions every index outlives all sessions of its user, and none lapses |
| `AccountRuns.StepKeepsCoverage` | backend/internal/auth/session.go:453-1408 | No request but such an approval lets an index end before a session |
| `AccountRuns.LoginPrivilegedIff` | backend/internal/auth/handlers.go:538-604 | A login keeps it if and only if the wizard is complete, the row is new, or the row is in good standing |
| `AccountRuns.ApprovePrivilegedIff` | backend/internal/auth/admin.go:578-599 | An approval keeps it if and only if the row is unlocked or has no live session |
| `AccountRuns.RemovePrivilegedIff` | backend/internal/auth/admin.go:659-677 | Locking or deleting keeps it if and only if the index holds every session of the row that has a real role |
| `AccountRuns.DeadStaysDead` | backend/internal/auth/session.go:763-804 | Once an issued session's key is gone, for whatever reason, no run makes its id validate again, directly or through a module token |
| `AccountRuns.StepSessions` | backend/internal/auth/session.go:407-468 | A request adds at most the session it issues; owner and creation time never change |
| `AccountRuns.CreationTimeIsFixed` | backend/internal/auth/revalidate.go:199-221 | The creation time of a session that survives a run is the one it started with |
| `AccountRuns.Lifetimes` | backend/internal/auth/session.go:798-808 | In every reachable state: a session validates exactly within 30 days of its creation, the displayed last activity is the time since it was created, validated or given a role, and without a role update the key is gone before 31 days |
| `AccountIndex.RequestAfterApprovalRestoresCoverage` | backend/internal/auth/session.go:798-808 | After an approval and any further run without a lapse, whatever others do meanwhile, the next request of any session of that user makes the index outlive all of them again |
| `AccountExamples.DemotedAdminOpensTheGate` | backend/internal/auth/handlers.go:538-567 | A run of logins only after which no admin row is left and an account nobody approved holds a valid session with its full role |
| `AccountExamples.ApprovedWhileLocked` | backend/internal/auth/admin.go:578-599 | A run that locks a user, lets the user log in as pending and approves the row: the session is active while the row stays locked |
| `AccountExamples.LapsedIndexSurvivesLock` | backend/internal/auth/session.go:1370-1408 | A run in which an approval renews the session but not the index, the index lapses, and a later lock leaves an active, valid session |
| `Anomaly.StoreIsTrackerIff` | backend/internal/auth/session.go:853-943 | Over any run of a session, the expiring write-on-change baseline reports exactly what a tracker that rewrites and never forgets reports, if and only if every request that finds the baseline expired has the login value as last known value (or none known and nothing to report) |
| `Anomaly.SteadyRunRaisesChanges` | backend/internal/auth/session.go:853-943 | With known values less than a lifetime apart, the reports are exactly the changes between neighbours in the login value followed by the known values |
| `AnomalyRuns.SessionIsTrackerIff` | backend/internal/auth/session.go:763-1014 | For a session opened in any reachable state, with any actions of anybody in between, for countries and devices: its reports are those of the tracker if and only if every request that finds the baseline expired is harmless |
| `AnomalyRuns.SessionAnomaliesAreChanges` | backend/internal/auth/session.go:763-1014 | And with known values less than a lifetime apart they are exactly the changes in login value and known values |
| `AnomalyRuns.ChecksFollowVisits` | backend/internal/auth/session.go:763-1014 | Whatever others do, the reports about a session are those of a tracker fed with its own requests |
| `AnomalyRuns.FinishOnKey` | backend/internal/auth/session.go:478-1422 | After the visit no handler changes a baseline of a session that survives it, or adds one |
| `Anomaly.ReportsAre` | backend/internal/auth/session.go:853-943 | Each request is compared with the last known value, or with the login value when that has expired |
| `Anomaly.TrackerReports` | backend/internal/auth/session.go:829-831 | The tracker reports a request exactly when it and the last known value differ |
| `Anomaly.TrackerRaisesChanges` | backend/internal/auth/session.go:829-831 | Together its reports are the adjacent changes of the known values |
| `Anomaly.LapseMisreports` | backend/internal/auth/session.go:929-942 | A lapse that matters: a false report and a missed one |
| `CrudManifest.ValidateCrudFields` | backend/internal/modules/crud.go:78-107 | Accepts exactly the declarations with proper, distinct, unreserved names, known types and encryption only on text; otherwise names the first offending field |
| `CrudRequests.BuildInsert` | backend/internal/modules/crud.go:349-398 | Refuses with the first refused field's status, else builds an INSERT with one placeholder per column and the owner last |
| `CrudRequests.BuildUpdate` | backend/internal/modules/crud.go:428-472 | The same for UPDATE, with the row id as last argument |
| `CrudRequests.InsertMeansCreate` | backend/internal/modules/crud.go:349-398 | Run by the interpreter, the INSERT adds exactly the row the create asks for, field by field; it fails if and only if it has no column |
| `CrudRequests.UpdateMeansPatch` | backend/internal/modules/crud.go:428-472 | The UPDATE patches the row of that id field by field and changes no other |
| `CrudRequests.InsertIsWellFormed` | backend/internal/modules/crud.go:376-398 | No column twice, every placeholder bound and every argument used; an empty column list is the only fault |
| `CrudRequests.UpdateIsWellFormed` | backend/internal/modules/crud.go:459-472 | The same for UPDATE, which is never at fault |
| `CrudRequests.Refusal` | backend/internal/modules/crud.go:349-371 | A request goes through exactly when no field is refused |
| `CrudRows.DecryptCrudRow` | backend/internal/modules/crud.go:624-650 | Opens every encrypted column of a fetched row, or fails exactly when one cannot be opened |
| `CrudRows.SubmittedReadsBack` | backend/internal/modules/crud.go:342-415 | Opened, a created row holds exactly the submitted values, null for the rest, and its owner |
| `CrudRows.CreatedRowOpens` | backend/internal/modules/crud.go:349-415 | Opening a created row gives the row a table without encryption would hold |
| `CrudRows.PatchedRowOpens` | backend/internal/modules/crud.go:428-472 | Patching then opening is opening then patching |
| `CrudRows.CreatedRowHolds` | backend/internal/modules/crud.go:349-375 | A created row has its required columns set and ciphertexts in its encrypted ones |
| `CrudRows.PatchedRowHolds` | backend/internal/modules/crud.go:428-457 | A patch keeps that |
| `CrudRuns.RunKeepsInv` | backend/internal/modules/crud.go:284-531 | Over all runs with interleaved checks and writes: rows carry their id, required columns are set, encrypted ones hold ciphertexts, and a passed check still names the owner |
| `CrudRuns.RunKeepsOrigin` | backend/internal/modules/crud.go:417-491 | Through any run a row keeps id, creation time and owner, and a deleted row stays away |
| `CrudRuns.OthersDoNotMatter` | backend/internal/modules/crud.go:284-531 | With owner scoping, a user's rows after any interleaving of everybody's requests are what they are if only that user's requests had been made |
| `CrudRuns.OthersDoNotTouch` | backend/internal/modules/crud.go:501-531 | No request of one user changes another user's rows |
| `CrudRuns.EncryptionIsInvisible` | backend/internal/modules/crud.go:607-650 | Read through decryption, the table after any run is the table the same run leaves without encryption |
| `CrudRuns.FromTheEmptyTable` | backend/internal/modules/crud.go:284-531 | From the empty table on, over every run: the invariant, and each user alone with the own rows |
| `CrudRuns.EmptyTable` | backend/internal/modules/crud.go:115-179 | The migrated, empty table meets what the run theorems start from |
| `CrudServer.Table.CreateCrudRow` | backend/internal/modules/crud.go:342-415 | The handler's table and response are those of the field-by-field create |
| `CrudServer.Table.UpdateCrudRow` | backend/internal/modules/crud.go:417-479 | Ownership first, then the first refused field, then exactly the patch |
| `CrudServer.Table.DeleteCrudRow` | backend/internal/modules/crud.go:481-491 | Deletes exactly that row, exactly when ownership holds |
| `CrudServer.Table.OwnsCrudRow` | backend/internal/modules/crud.go:501-531 | Not found, forbidden or allowed, as existence and owner demand |
| `CrudServer.Table.List` | backend/internal/modules/crud.go:284-340 | Of the rows the WHERE clause selects, the requested page, opened; with owner scoping every returned row names the caller as owner; a page number over the cap is refused |
| `CrudListing.PageShowsOwner` | backend/internal/modules/crud.go:309-339 | With owner scoping every row a page shows has the caller as owner |
| `CrudListing.VisibleIsListed` | backend/internal/modules/crud.go:284-340 | Every visible row is on a page that can be asked for, if all fit under the cap |
| `CrudListing.CreatedRowIsListed` | backend/internal/modules/crud.go:284-415 | After an accepted create in any reachable state, a page the user can ask for shows the row with the submitted values |
| `CrudListing.ListShowsPlainRow` | backend/internal/modules/crud.go:317-339 | In every reachable state a list opens every row, with exactly the declared columns and the values of a table without encryption |
| `CrudListing.ListSelectsVisible` | backend/internal/modules/crud.go:309-315 | The condition and its argument select exactly the caller's rows (all rows of a shared table) |
| `CrudListing.PagesShowEveryRowIff` | backend/internal/modules/crud.go:284-304 | While the rows stay the same, the pages a list answers show every visible row, each once, exactly when the rows fit on the 100000 pages up to the cap; every later page is refused |
| `Migration.Database.MigrateToEncryptedStorage` | backend/internal/db/migrate_encryption.go:37-75 | Cut off after any number of steps, the code has performed exactly that prefix of the planned steps; corrupt flags and finished migrations write nothing |
| `Migration.Database.MigrateV1` | backend/internal/db/migrate_encryption.go:125-186 | Users, then the five settings, each rewritten once from what was read at the start |
| `Migration.Database.MigrateV2NewsFeeds` | backend/internal/db/migrate_encryption.go:82-121 | Feed addresses that do not open yet are sealed |
| `MigrationRuns.FeedsAreSealedOnce` | backend/internal/db/migrate_encryption.go:82-121 | From version 0 or 1, after any number of interrupted boots and one that completes, every feed address is sealed exactly once and opens to the original |
| `MigrationRuns.FromVersionZero` | backend/internal/db/migrate_encryption.go:37-75 | From version 0, each user and setting value is sealed once more than the number of interrupted boots that got to it, and reads back if and only if none did |
| `MigrationRuns.AllReadBackIff` | backend/internal/db/migrate_encryption.go:37-75 | So all of them read back if and only if no interrupted boot got to a non-empty one; in particular after one uninterrupted boot |
| `MigrationRuns.AttemptsWrap` | backend/internal/db/migrate_encryption.go:125-186 | Over any boots a value is sealed once per step performed on it |
| `MigrationRuns.FromVersionOneOn` | backend/internal/db/migrate_encryption.go:53-73 | From version 1 on, no boot touches a user or a setting other than the flag |
| `MigrationRuns.SettledForGood` | backend/internal/db/migrate_encryption.go:42-60 | At version 2 or with a corrupt flag no boot ever changes anything |
| `MigrationRuns.CompletedSetsFlag` | backend/internal/db/migrate_encryption.go:71-74 | A completed boot leaves version 2 |
| `MigrationRuns.InterruptionSealsTwice` | backend/internal/db/migrate_encryption.go:147-160 | One crash after the first row, and the address later opens to a ciphertext |
| `MigrationRuns.ReadsBackIffOnce` | backend/internal/db/migrate_encryption.go:82-121 | Sealed exactly once is the only way a text that does not open by itself reads back |
| `AccountEffects.LogoutDoes` | backend/internal/auth/session.go:1348-1356 | A logout removes the session key and both baselines; every other session, every row and every token stays |
| `AccountEffects.LoggedOutForGood` | backend/internal/auth/handlers.go:1278-1345 | And no later run makes that session validate again |
| `AccountEffects.RevalidateDoes` | backend/internal/auth/revalidate.go:104-223 | A session with a refresh token that the IdP refuses or knows as somebody else's is gone with its baselines and index entry; an honoured one carries the new claims and ends when it would have; nobody else is touched, and nothing is without a refresh token |
| `AccountEffects.DisownedForGood` | backend/internal/auth/revalidate.go:141-154 | A disowned session never validates in any later run |
| `AccountEffects.RequestDoes` | backend/internal/auth/session.go:763-814 | A request with a session of at most 30 days renews it and its owner's index for a day and leaves the rest; an older session is gone everywhere |
| `AccountEffects.ManagingNeedsAdmin` | backend/internal/auth/admin.go:256-292 | Approving, locking, unlocking or deleting does no more than the visit unless the session has the admin role and was opened at most 900 seconds ago |
| `AccountEffects.UsersChange` | backend/internal/auth/admin.go:256-292 | A row changes only by a login, by deleting the own account, or by such an administrator |
| `AccountEffects.ApproveDoes` | backend/internal/auth/admin.go:559-625 | For such an administrator the row is approved and its indexed live sessions get the row's role, unlocked, for a day; no other session changes but the visitor's |
| `AccountEffects.LockDoes` | backend/internal/auth/admin.go:636-695 | The row is locked and every indexed session is gone with its baselines and the index |
| `AccountEffects.UnlockDoes` | backend/internal/auth/admin.go:705-745 | Only the lock of the row changes |
| `AccountEffects.DeleteDoes` | backend/internal/auth/admin.go:753-823 | The row is gone, and its indexed sessions with it |
| `AccountEffects.RemovalRefused` | backend/internal/auth/admin.go:377-407 | The own account and the only admin row are neither locked nor deleted |
| `AccountEffects.DeleteSelfDoes` | backend/internal/auth/handlers.go:895-990 | Deletes the own row and sessions exactly within 900 seconds of the login and if another admin row is left |
| `AccountEffects.LoginDoes` | backend/internal/auth/handlers.go:538-673 | The whole state after a login: the row, the session with the claimed role exactly if there is no admin row or the row is approved and not locked, its index, and nothing else |
| `AccountEffects.LoginRefused` | backend/internal/auth/handlers.go:524-536 | Without a group a login changes nothing |
| `AccountEffects.EndSessionDoes` | backend/cmd/core/main.go:2418-2440 | An administrator ends any live session, everybody else none |
| `AccountEffects.EndOwnDoes` | backend/internal/auth/mysessions.go:54-76 | A session in use ends exactly the own sessions in the own index |
| `AccountEffects.ListOwnDoes` | backend/internal/auth/mysessions.go:25-45 | Listing drops the dead members of the own index and no more |
| `AccountEffects.ListingsTell` | backend/internal/auth/session.go:1210-1222 | A listing has one entry for each live session, with its data, the seconds left and the seconds used up |
| `AccountEffects.MintDoes` | backend/internal/auth/moduletoken.go:74-92 | A session in use gets a token for itself and the one module, for 1200 seconds |
| `AccountEffects.TokenDoes` | backend/internal/auth/moduletoken.go:101-126 | After any run that does not mint the same text again: another module refuses the token and nothing changes; its own takes it exactly for 1200 seconds while the session itself is good, and treats it exactly as a request of that session |
| `AccountEffects.UnknownToken` | backend/internal/auth/moduletoken.go:101-126 | A token nobody minted opens nothing |
| `AccountEffects.ElapseDoes` | backend/internal/auth/session.go:453-466 | As time passes exactly the keys that have reached their end disappear |
| `AccountEffects.ApprovedBecause` | backend/internal/auth/admin.go:559-599 | Over any run a row comes to be approved only by a recent administrator's approval or by a login while there is no admin row |
| `AccountEffects.AdminRemains` | backend/internal/auth/admin.go:391-407 | Without a login no run removes the last admin row |
| `CrudEffects.RefusedIff` | backend/internal/modules/crud.go:349-457 | From body and fields alone: a create or patch is refused exactly if a given value cannot be read, a required field is missing or null (in a patch: null), or a value is to be encrypted without a key; the first such field decides the status |
| `CrudEffects.CreateDoes` | backend/internal/modules/crud.go:342-415 | An accepted create adds one row that opens to the submitted values, null elsewhere, its id, both times and the owner; a refused or empty one adds nothing |
| `CrudEffects.PatchDoes` | backend/internal/modules/crud.go:417-479 | After an accepted patch the row opens with the old value where the body is silent, null where it says null, else the submitted value; the update time is new, all other columns and rows are kept; without a passed check nothing changes |
| `CrudEffects.RemoveDoes` | backend/internal/modules/crud.go:481-491 | A checked deletion removes that row only |
| `CrudEffects.CheckDoes` | backend/internal/modules/crud.go:501-531 | The check passes exactly for the owner, or for everybody on a shared table, and tells a missing row from somebody else's |
| `CrudEffects.AcceptedMeans` | backend/internal/modules/crud.go:78-107 | A manifest is accepted exactly when every name has the shape [a-z][a-z0-9_]*, none is reserved or repeated, all kinds are known and only text is encrypted |
| `CrudListing.PageNumbers` | backend/internal/modules/crud.go:284-304 | 50 rows by default, 200 at most, page 1 by default, 100000 at most |
| `CrudListing.PageHas` | backend/internal/modules/crud.go:284-315 | Row i of page n is number (n-1)*size+i of the order, and only the last page is not full |
| `AuditEffects.HashedTexts` | backend/internal/audit/audit.go:732-755 | The two hashed texts, field by field |
| `AuditEffects.WalkAccepts` | backend/internal/audit/audit.go:816-857 | A row passes exactly if it is linked to the row before and either formula gives its hash |
| `AuditEffects.WalkLimits` | backend/internal/audit/audit.go:797-800 | Without a positive limit Verify walks 50000 rows |
| `AuditEffects.LogWrites` | backend/internal/audit/audit.go:362-421 | The new row has the plain fields, ciphertexts that open to the rest, the newest hash as link and a hash of the current formula |
| `AuditEffects.FilterMeans` | backend/internal/audit/audit.go:535-556 | The filters written out: equality on event type and actor, both ends of the time range included, the cursor excluded |
| `AuditEffects.PageLimits` | backend/internal/audit/audit.go:460-464 | 1 to 200 rows as asked, else 50 |
| `AuditEffects.ContainsIff` | backend/internal/audit/audit.go:505-516 | A match is a contiguous part of the text |
| `AuditEffects.SearchFinds` | backend/internal/audit/audit.go:362-516 | A search finds a logged entry exactly by event type, ids, emails, names and details as they were before encryption, lower-cased |
| `BootstrapEffects.TurnedAway` | backend/internal/bootstrap/manager.go:129-150 | A closed gate answers 404, a paused one 503, a waiting address how long; nothing changes |
| `BootstrapEffects.RightToken` | backend/internal/bootstrap/manager.go:151-156 | The right token reaches the handler and clears the address only |
| `BootstrapEffects.WrongToken` | backend/internal/bootstrap/manager.go:157-168 | A wrong one counts: delays double from one second, the fifth failure blocks for an hour, the tenth in all pauses the gate, and the answer says so |
| `BootstrapEffects.CompletedTurnsAway` | backend/internal/bootstrap/manager.go:199-203 | After completion everybody gets 404 |
| `Base58.TextMeansNumber` | backend/internal/bootstrap/manager.go:326-349 | The text is the same number as the bytes, read big-endian in base 58, after one leading 1 for each leading zero byte |
| `Base58.AlphabetIs` | backend/internal/bootstrap/manager.go:320-326 | The alphabet holds exactly the digits and letters but 0, O, I and l |
| `Base58.BoxLineIs` | backend/internal/bootstrap/manager.go:363-369 | A line that fits is 68 columns wide with the border on both sides |
| `MigrationEffects.FlagMeans` | backend/internal/db/migrate_encryption.go:38-60 | No flag means 0, and "1" and "2" are read as such |
| `MigrationEffects.AtoiReads` | backend/internal/db/migrate_encryption.go:44-58 | Written numbers are read back within 64 bits |
| `MigrationEffects.AtoiReadsSigned` | backend/internal/db/migrate_encryption.go:44-58 | So they are with a sign |
| `MigrationEffects.AtoiRefuses` | backend/internal/db/migrate_encryption.go:44-58 | Any other character makes the flag corrupt |
| `MigrationEffects.ToEncrypt` | backend/internal/db/migrate_encryption.go:125-178 | Exactly the five settings and email and name of every user |
| `MigrationEffects.CompletedBoot` | backend/internal/db/migrate_encryption.go:62-74 | A completed boot writes "2" under the flag's key and keeps all rows and settings there are |
| `AccountEffects.EndOwnSparesOthers` | backend/internal/auth/session.go:650-695 | Whatever the index says, ending own sessions never touches somebody else's |
| `CrudEffects.OtherwiseNobody` | backend/internal/modules/crud.go:501-531 | A row of an owner-scoped table without the caller's name is refused to the caller |
| `CrudEffects.CellOpensTo` | backend/internal/modules/crud.go:624-650 | An encrypted text is shown as what it opens to; null and the empty text stay; whatever else does not open, or no key, fails the request |
| `AuditEffects.EntryShows` | backend/internal/audit/audit.go:558-642 | Every field of a listed entry, with the marker for a ciphertext that does not open |
| `AuditWriters.UndisturbedWriterLogs` | backend/internal/audit/audit.go:382-420 | A writer that finds the lock free and is not disturbed commits exactly the row Log writes and frees the lock |
| `AuditWriters.RollbackFrees` | backend/internal/audit/audit.go:386-392 | A rollback leaves the table, ends the writer and frees its lock |
| `AuditWriters.OnlyCommitsGrow` | backend/internal/audit/audit.go:404-420 | The table grows by commits only, each by the row its writer inserted |

## Left out

- HTTP, cookies, CSRF and origin checks, OIDC discovery and token exchange, the OAuth state
  and its consumption: the model starts with validated parameters and the IdP's answer.
- Bearer tokens: sessions are named by their ids, taking the digest as injective, and
  module tokens by the text of the token. New ids are fresh.
- Revoking refresh tokens at the IdP. LogoutHandler's lookup for it uses the raw token as
  key (`backend/internal/auth/handlers.go:1309`), where sessions are stored by digest.
- Failures of PostgreSQL and Valkey, best-effort branches, mail, notifications, GeoIP and
  the audit calls made by handlers.
- Instants below a second: the session clock counts whole seconds and keys vanish at their
  expiry, so the rounding of Valkey's TTL answers does not appear.
- Sessions.Valkey.UpdateSessionsRole: atomic with respect to other requests, as are
  RevalidateSession and every other session operation; only Log, the bootstrap gate and
  the CRUD engine's check and write are interleaved.
- WizardComplete: OIDC and the group prefix are taken to stay configured, so it means that
  an admin row exists.
- The delivery of an anomaly report (event, mail, audit entry); what it is reported against is modelled.
- Encryption of sessions at rest and the session fields that are only displayed, which
  are one opaque text.
- AuditSearch: lower-casing is applied to characters by an abstract function and joined
  user names are given by a lookup.
- Decoding JSON into a column value (`backend/internal/modules/crud.go:538-601`) is an
  abstract function that never yields null and yields text for text kinds.
- What PostgreSQL does to a value on its way through a column (the canonical form of a
  uuid, the precision of a float), constraints the module's own migration adds, column
  defaults other than those of the implicit columns, and malformed row ids, which fail in
  the query instead of matching nothing.
- CrudServer.Table.List: the order in which the database delivers the selected rows is a
  parameter, so that rows of the same instant may come in any order; page and page size
  come as parsed numbers.
- validateCrudTable is modelled by its outcome: the table has the declared columns.
- MigrationRuns.FromVersionZero: assumes that no original text opens as a ciphertext, and
  that nothing else writes between boots.
- Writes of the migration are atomic per row; a boot is cut off only between them.
- Schedulers, settings, news, search, quick links, AI, module installation, the frontend:
  easy claims only.
