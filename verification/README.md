# EndoriumFort: verified model

EndoriumFort is a privileged-access bastion. This project models the parts of it
whose correctness spans several operations, and proves what they promise. The
operations in the table below keep the code's loops, branches, constants and error
answers; where one leaves something of the code out, "Left out" says what. What the
code does not show here (a keyed MAC, JSON parsing, base64, the policy matcher, the
ticketing system) enters as a function-typed parameter, with the laws a theorem
needs stated in its `requires`.

| Part | Files |
|---|---|
| File share: share table, drive tree, quota | `Paths`, `DriveTree`, `ShareTable`, `FileSpace`, `FileServer` |
| File share: tickets and drive sessions, with the bastion that mints the tickets | `Tickets`, `DriveSessions` |
| Audit log: line format, hash chain, rotation, restart, purge, files on disk | `TextSearch`, `AuditLine`, `AuditChain`, `AuditLog`, `AuditDisk` |
| Audit log: cursor paging | `LogFiles`, `AuditTypes`, `AuditQuery`, `AuditWalk`, `AuditCriteria` |
| Audit log: period reports and their calendar | `Calendar`, `Buckets`, `Reporting`, `ReportMeaning`, `ReportChart` |
| License clock and revocation lists | `LicenseClock` |
| Sign-in rate limiter | `RateLimit` |
| Access policies and session opening | `AccessDecision`, `SessionGate` |
| Isolated-browser tile stream | `Tiles` |
| SQL placeholder translation | `Placeholders` |
| Chunked transfer decoding (RFC 9112, section 7.1) | `Dechunk` |
| Migration load order | `TableOrder` |
| Shared: options, concatenation, text order, ASCII, decimal text | `Options`, `Sequences`, `Lex`, `Ascii`, `Numerals` |

Code that changes state is a class or a method with loops, each proved against a
specification function; the theorems are lemmas about those functions and about
whole runs of them.

## Where the code says less than its documentation

Each of these is proved, with the exact condition where there is one.

- A ticket is said to be usable once (`docs/fileshare.md`). Verification truncates
  times to seconds and the replay guard does not, so a second exchange passes
  during the open second between 30 s and 31 s after expiry and, on a clock that does
  not go back, at no other time (`Tickets.SecondExchangeWindow`,
  `Tickets.RepeatExactly`). `Tickets.ExchangedTwice` is such a run; on a forward clock
  of whole seconds a ticket is used once (`Tickets.ExchangedOnce`). On any other clock
  it passes again exactly when it verifies after an accepted attempt was read more
  than 30 s past its expiry (`Tickets.RepeatOnAnyClock`).
- The numbering of bare `?` placeholders is said to match SQLite's. PostgreSQL reads
  the translation as SQLite reads the original exactly when, besides each placeholder
  being seen as one, every bare one of the code comes where the bare ones rewritten so
  far, those of comments included, are as many as the largest number so far
  (`Placeholders.ReadAsSqliteExactly`). "?2=?" and "/*?*/?" fail
  (`Placeholders.MixedNumbering`, `Placeholders.CommentCounts`); "?1/*?*/?" does not
  (`Placeholders.CommentMakesUp`).
- A requirement of `required` in a policy ranks with `any`, so it is not demanded
  of whoever opens a session unless another policy asks for more; and `webauthn`
  replaces `totp` (`AccessDecision.FactorsCoveredExactly`). Adding a policy can
  therefore let a request through (`SessionGate.MorePoliciesRefuseMore`, and
  `SessionGate.AddedPolicyOpens` for one).
- The loop over the days of a window stops after the last day except when that day
  is 9999-12-31: "10000-01-01" sorts before it, so later days are listed too, up to
  the year 99990 (`Buckets.DayLabels`).
- Archives are named by the second they are sealed at. They stay in order with only
  expired ones missing exactly when each rotation reads a later second than the one
  before (`AuditDisk.RunInOrderExactly`); two rotations in one second lose a file and
  break the link between the others (`AuditDisk.SameSecondLosesAFile`).
- A chunk size near 2^64 makes the position of the de-chunking loop wrap. The loop
  never ends exactly when it meets a position twice (`Dechunk.EndlessExactly`), which
  takes such a size (`Dechunk.EndsUnlessOverflow`); "-4" is one
  (`Dechunk.MinusFourNeverEnds`).
- Raw JSON payloads are stored as sent: the log verifies afterwards exactly when
  the entry holds no newline (`AuditLog.VerifiesIffNoNewline`).
- The sequence number of revocation lists is said to increase strictly
  (`license.cc:80`); a list with the stored number is accepted again
  (`LicenseClock.OldListsRefused`). A refused list leaves none in force: a revoked
  license stays so over a reload exactly when the list presented then names it and has
  the highest number so far (`LicenseClock.RevokedSurvivesExactly`,
  `LicenseClock.RefusedListRevives`).
- The expired state of a license survives reloads and restarts once the watermark
  is 3599 s past its end, and not one second sooner (`LicenseClock.NeverValidAgain`,
  `LicenseClock.OneSecondLessIsNotEnough`).

## Model

| member | source | states |
|---|---|---|
| Paths.UnderPathIsSegmentPrefix | fileshare/store.go:187-190 | on any texts, the string test "equal, or starts with base and a slash" is exactly "the segments of base are a prefix", so "a" never covers "ab" |
| Paths.MovedPath | fileshare/store.go:193-213 | replacing the text prefix of a path below an item replaces exactly its leading segments |
| Paths.SegsText | fileshare/files.go:59-68 | a cleaned relative path is the text of its segments, and canonical unless it is the drive itself |
| Paths.PathJoinSegs | fileshare/files.go:39-57 | joining a name to a cleaned directory appends one segment |
| Paths.PathDirSegs | fileshare/files.go:554-583 | the directory part of a cleaned path drops its last segment |
| Paths.CleanRootedNames | fileshare/files.go:59-68 | cleaning a rooted path leaves no empty, "." or ".." segment, whatever the input |
| Paths.CleanIsNames | fileshare/files.go:59-68 | the stack machine of path cleaning finds the names that reading the pieces from the last one back finds |
| DriveTree.RenamedItems | fileshare/files.go:554-583 | a rename relocates every item at or below the source with its content, keeps every other, and adds none |
| DriveTree.RenamedWellFormed | fileshare/files.go:554-583 | a rename to a free name of the same directory keeps every parent a directory |
| DriveTree.RenamedBack | fileshare/files.go:554-583 | renaming back gives the very tree there was |
| DriveTree.RenamedEnds | fileshare/files.go:554-583 | after a rename the new name exists and the old one does not |
| DriveTree.RenamedBytes | fileshare/files.go:399-426 | a rename conserves the sum of file sizes |
| DriveTree.BytesPut | fileshare/files.go:461-500 | writing a node replaces its old size by the new one in the sum |
| DriveTree.BytesExactly | fileshare/files.go:399-420 | an empty drive holds no bytes, a new file adds its size and a new folder none |
| DriveTree.BytesSub | fileshare/files.go:585-613 | removing items never raises the sum of sizes |
| ShareTable.Store.FindShare | fileshare/store.go:125-140 | the first share with the identifier, or none |
| ShareTable.Store.AddShare | fileshare/store.go:142-169 | refreshes the owner's existing grant under its old identifier, appends otherwise, refuses exactly at 500 shares of the owner; other resources untouched |
| ShareTable.Store.RemoveShare | fileshare/store.go:171-185 | removes the first share with that identifier and owner and nothing else, or answers that there is none |
| ShareTable.Store.PathMoved | fileshare/store.go:193-213 | the new list is the old one with exactly the owner's shares at or below the item relocated, in order |
| ShareTable.Store.PathDeleted | fileshare/store.go:215-233 | the new list is the old one without exactly the owner's shares at or below the item |
| ShareTable.KeptIsSublist | fileshare/store.go:215-233 | dropping shares keeps exactly the others, raises no owner's count and repeats no grant |
| ShareTable.OwnedByExactly | fileshare/store.go:142-169 | the count the cap is compared with is the number of the owner's entries |
| FileSpace.ShareFollowsItem | fileshare/files.go:554-583 | after a rename every share names the same item as before, relocated with it and nothing else changed |
| FileSpace.MoveConsistent | fileshare/store.go:193-213 | a rename keeps the share-table invariant |
| FileSpace.RemoveConsistent | fileshare/files.go:585-613 | a delete keeps the share-table invariant |
| FileSpace.GrantConsistent | fileshare/store.go:142-169 | a new or refreshed share keeps the share-table invariant |
| FileSpace.RevokeConsistent | fileshare/shares.go:129-144 | revoking keeps the share-table invariant |
| FileSpace.PutConsistent | fileshare/files.go:428-507 | writing a file or making a directory keeps the share-table invariant |
| FileSpace.ApplyConsistent | fileshare/store.go:142-233 | every allowed step keeps: each share has a canonical path to an existing item of its owner's tree of the same kind, grants are unique, file shares are read-only, no owner has over 500 |
| FileSpace.Execute | fileshare/files.go:428-613 | the invariant holds after every run of steps, whatever they are |
| FileSpace.PutExactly | fileshare/files.go:461-552 | a write or a new folder puts that one item and leaves every other item and all shares |
| FileSpace.MoveExactly | fileshare/files.go:554-583 | after a rename the new path holds what was at and below the old one, the old path nothing, and every other item is as it was |
| FileSpace.RemoveExactly | fileshare/files.go:585-613 | a removal takes the item with all below it and its owner's shares there, and nothing else |
| FileSpace.RenameBackRestores | fileshare/files.go:554-583 | renaming an item back restores trees and share table exactly |
| FileServer.CleanRel | fileshare/files.go:59-68 | refuses exactly NUL and backslash; an accepted path is the text of the names its pieces lead to below the root, and "." exactly when they lead to none |
| FileServer.RelOfNames | fileshare/files.go:59-68 | names with slashes between them are cleaned to themselves, the empty path to the root |
| FileServer.RelSkipsBlank | fileshare/files.go:59-68 | an empty piece or "." put in anywhere changes nothing |
| FileServer.RelTakesBack | fileshare/files.go:59-68 | a name followed by ".." put in anywhere changes nothing |
| FileServer.RelStaysBelow | fileshare/files.go:59-68 | a ".." in front is dropped: no path leads above the root of the view |
| FileServer.NamesRefused | fileshare/files.go:70-81 | a slash, a backslash or a control character anywhere, the temporary prefix, "", "." and "..", more than 255 bytes or only white space refuse a name |
| FileServer.NamesAccepted | fileshare/files.go:70-81 | a name that starts with a letter or digit and has none of these is accepted |
| FileServer.ViewExactly | fileshare/files.go:83-128 | a root opens the caller's own drive, or exactly what the first share of that identifier shows, if it was given to the caller, has not expired and what it shows is there |
| FileServer.WritableView | fileshare/files.go:83-128 | a writable view is the user's own drive or a live read-write folder share granted to them, and its base is a directory |
| FileServer.OwnerPathNames | fileshare/files.go:39-57 | the owner-side path of a view is canonical and names the item the view shows |
| FileServer.WalkBytes | fileshare/files.go:399-420 | the directory walk returns the sum of the sizes of all files |
| FileServer.Server.UsageOf | fileshare/files.go:399-420 | the answer, cached or measured, is the real sum; every cached entry stays exact |
| FileServer.Server.OpenView | fileshare/files.go:83-128 | opens exactly the user's drive or a folder or file shared with them and not expired |
| FileServer.Server.Upload | fileshare/files.go:428-507 | done exactly when view, names, size limit, quota and folder allow it; then the item of the path's names and the new name holds the bytes received, and nothing else changed |
| FileServer.Server.Mkdir | fileshare/files.go:530-552 | done exactly when allowed; makes one directory, below the names the path leads to |
| FileServer.Server.Rename | fileshare/files.go:554-583 | done exactly when allowed; the item of the path's names and the shares on it move together |
| FileServer.Server.Delete | fileshare/files.go:585-613 | done exactly when allowed; the item of the path's names, what is below it and its shares go |
| FileServer.ShareVerdict | fileshare/shares.go:66-121 | a share is stored exactly for a valid grantee, mode and expiry and an existing item of one's own, under the cap of 500 unless the grant is already there |
| FileServer.Server.CreateShare | fileshare/shares.go:54-127 | each request gets the first refusal that applies, or a share is stored with the caller, the item of the path's names, the trimmed grantee, the mode (read-only for a file), the time and the expiry in days that were asked for |
| FileServer.Server.DeleteShare | fileshare/shares.go:129-144 | done exactly when the caller owns a share of that identifier; the invariant holds after |
| FileServer.UsageStaysExact | fileshare/files.go:422-426 | forgetting a drive's usage when its tree changes keeps all cached usages exact, and is not needed when the sum is unchanged |
| FileServer.QuotaStaysKept | fileshare/files.go:461-500 | a drive may only stay or shrink once over its quota, and stays within it otherwise |
| Tickets.ReplayGuard.TryUse | fileshare/ticket.go:140-153 | the loop drops exactly the expired nonces, then accepts a nonce exactly when it is unknown |
| Tickets.ExpiryIsTruncated | fileshare/ticket.go:75-79 | a ticket passes the expiry test until just before 31 s after its expiry second, and until 30 s on whole-second clocks |
| Tickets.SignedExactly | fileshare/ticket.go:84-110 | a text decodes exactly when it is a body and its seal with a dot between, and to what the body says |
| Tickets.TicketPassesExactly | fileshare/ticket.go:66-81 | a session ticket passes exactly when it decodes, its claims are complete, it is dated at most 30 s ahead, and neither its expiry by 31 s nor the end of its session by 1 s has been reached |
| Tickets.PurgePassesExactly | fileshare/ticket.go:113-128 | the same for a purge order, which has no session |
| Tickets.SecondExchangeWindow | fileshare/ticket.go:66-81 | two exchanges of one signed body in any run on a forward clock lie so that the second is strictly between 30 s and 31 s after expiry |
| Tickets.ExchangedOnce | fileshare/ticket.go:140-153 | on a forward clock of whole seconds a signed body is exchanged at most once, for session tickets and purge orders alike |
| Tickets.RepeatExactly | fileshare/server.go:230-237 | on a forward clock the next presentation of an exchanged ticket is accepted exactly when it still verifies and the clock is more than 30 s past its expiry |
| Tickets.RepeatOnAnyClock | fileshare/ticket.go:140-153 | on any clock, one that goes back included, it is accepted exactly when it verifies and some accepted attempt since, itself included, was read more than 30 s past its expiry |
| Tickets.LastSecondVerifies | fileshare/ticket.go:66-81 | throughout that open second the ticket does verify while the bastion session lasts |
| Tickets.ExchangedTwice | fileshare/ticket.go:66-81 | a ticket expiring at second 60 is exchanged at second 10 and again at 90.5 |
| Tickets.SuchATicket | fileshare/ticket.go:84-110 | for any claims a codec and a ticket that decodes to them exist |
| Tickets.Remembered | fileshare/ticket.go:140-153 | on a forward clock an accepted nonce stays known until 30 s after its expiry, whatever other attempts come |
| Tickets.KnownExactly | fileshare/ticket.go:140-153 | the nonce of an accepted ticket is known until an attempt that verifies is read more than 30 s past its expiry, on any clock |
| Tickets.SameBodySameClaims | fileshare/ticket.go:84-110 | two tickets with the same signed body decode to the same claims, however the signature is written |
| DriveSessions.Drive.Open | fileshare/server.go:209-284 | a ticket becomes a session that lasts the TTL and never past the bastion session, replacing the browser's previous cookie of the same user and resource only |
| DriveSessions.Drive.Close | fileshare/server.go:286-296 | only a live session of that resource is closed |
| DriveSessions.Drive.Reap | fileshare/server.go:91-109 | removes exactly the expired sessions |
| DriveSessions.Drive.DropSessions | fileshare/purge.go:44-52 | removes exactly the sessions of the purged space |
| DriveSessions.Drive.Purge | fileshare/purge.go:54-100 | an accepted purge order is used once and cuts the space's sessions |
| DriveSessions.OpenedExactly | fileshare/server.go:238-275 | an accepted ticket opens one session, lasting the TTL or to the end of the bastion session, and of the others closes only the one this browser had for this user and resource |
| DriveSessions.KeptExactly | fileshare/server.go:91-109 | which sessions stay: those not over, those of other resources, and all but the live one closed |
| DriveSessions.MintExactly | backend/src/fileshare.cc:195-236 | a ticket is signed exactly for a permitted user of an active session not past its maximum duration, good for 60 s, ending with the session or after eight hours |
| DriveSessions.SignKeepsSound | backend/src/fileshare.cc:213-236 | minting a ticket, or ending a session that has timed out, keeps the bounds |
| DriveSessions.StepKeepsSound | fileshare/server.go:209-284 | every step of bastion and file service keeps each drive session within its bastion session's bounds |
| DriveSessions.ServedInBounds | backend/src/fileshare.cc:195-236 | in every run a served request belongs to a bastion session of that user and resource, is no later than creation plus maximum duration, and no later than the end plus 60 s plus 30 s (plus under 1 s on finer clocks) plus the TTL |
| DriveSessions.BoundIsReached | fileshare/server.go:245-248 | for every maximum duration and every TTL a run is served at the earlier of the two bounds: creation plus maximum duration, and the end plus 60 s plus the lag plus the TTL |
| AuditLine.ParseRendered | backend/src/app_context.cc:892-947 | a written line reads back as its canonical entry, previous hash and hash, even when the payload contains the marker texts |
| AuditLine.MarksOf | backend/src/app_context.cc:920-943 | the last occurrences of both markers are the ones the writer put |
| AuditChain.VerifyAuditChain | backend/src/app_context.cc:892-947 | the loop's verdict, counts and first broken line are the fold over the file's lines; a missing file is intact and empty |
| AuditChain.CheckSound | backend/src/app_context.cc:892-947 | an intact verdict means legacy lines first, then entries each sealed over its own text and the hash before |
| AuditChain.CheckComplete | backend/src/app_context.cc:892-947 | every such file is found intact, with its legacy count |
| AuditChain.VerifierExact | backend/src/app_context.cc:892-947 | the verdict is intact if and only if the lines form such a chain |
| AuditChain.FirstBrokenExactly | backend/src/app_context.cc:892-947 | the line reported as first broken is the one, of those not blank, at which the log stops being intact; 0 when it never does |
| AuditChain.BarSplits | backend/src/app_context.cc:460-462 | previous hash, bar and canonical text split uniquely when the hashes have no bar |
| AuditChain.SameEndsSameChain | backend/src/app_context.cc:460-474 | two linked chains of equal length with the same first previous hash and last hash are equal, or the MAC collides |
| AuditChain.TamperEvident | backend/src/app_context.cc:920-943 | two logs that both verify, with as many entries, the same start and the same last hash hold the same entries, or the MAC collides |
| AuditLog.AppendedLine | backend/src/app_context.cc:464-473 | an append adds one line that parses back to the entry |
| AuditLog.FileVerifies | backend/src/app_context.cc:439-482 | a file of appended entries verifies with the right count and last hash |
| AuditLog.LastHashOfFile | backend/src/app_context.cc:519-545 | the hash recovered at startup is the chain's head |
| AuditLog.StepJoined | backend/src/app_context.cc:439-545 | appending, rotating and restarting keep every file proper and joined to the one before |
| AuditLog.EveryFileVerifies | backend/src/app_context.cc:439-545 | in every run every file verifies and recovers each canonical entry |
| AuditLog.FilesStayLinked | backend/src/app_context.cc:484-545 | in every run each file written starts from the last hash of the one before, or from GENESIS exactly when a restart found no active file; which files are still on disk is AuditDisk.DiskFilesLinked |
| AuditLog.SealedAtLimit | backend/src/app_context.cc:484-496 | in every run the file being written is below the size limit and each sealed file reached it with its last entry, and none is sealed without a limit |
| AuditLog.VerifiesIffNoNewline | backend/src/routes.cc:2895-2898 | with an injective MAC a raw payload leaves the log verifiable if and only if it holds no newline |
| AuditLog.AppendIsStep | backend/src/app_context.cc:439-517 | bytes on disk, archives under their names and head after an append at any clock reading are exactly those of the abstract log after its step |
| AuditLog.RestartIsStep | backend/src/app_context.cc:519-545 | a restart resumes the chain where the abstract log stands, files untouched |
| AuditDisk.RunIsStored | backend/src/app_context.cc:439-545 | after any run of appends, rotations, purges and restarts the active file, every archive by name and the head are those of the abstract log |
| AuditDisk.InOrderExactly | backend/src/app_context.cc:484-517 | at every rotation of a run the archives in name order are the last files sealed, just the expired ones missing, if and only if each rotation reads a later second than the one before |
| AuditDisk.RunInOrderExactly | backend/src/app_context.cc:484-517 | the same for whole runs: at every point of the run, if and only if its rotations read increasing seconds |
| AuditDisk.DiskFilesLinked | backend/src/app_context.cc:484-545 | after any run whose rotations read increasing seconds the archives in name order and then the active file are the last ones written, just the expired ones missing; each verifies and links to the one before it unless restarted |
| AuditDisk.NameOrderUnique | backend/src/audit_query.cc:201-220 | a set of archives has one listing in name order |
| AuditDisk.SameSecondLosesAFile | backend/src/app_context.cc:494-496 | of three files the last two sealed in one second, one is overwritten and the two left do not link though nothing restarted |
| AuditLog.AuditLog.Append | backend/src/app_context.cc:439-482 | the new bytes, head and archives for any payload; the invariant and one abstract step for a newline-free one |
| AuditLog.AuditLog.MaybeRotate | backend/src/app_context.cc:484-517 | seals and purges exactly when the size limit is set and reached |
| AuditLog.AuditLog.InitChain | backend/src/app_context.cc:519-545 | the head becomes the last hash of the active file, else GENESIS; a well-kept log goes on from its own head |
| AuditLog.AuditLog.Verify | backend/src/app_context.cc:892-947 | a well-kept log is found intact with its line count |
| AuditLog.PurgeBefore | backend/src/app_context.cc:497-516 | the directory walk removes exactly the archives sealed before the cutoff |
| AuditLog.LastHashIn | backend/src/app_context.cc:533-544 | the startup loop returns the last hash any line carries |
| LogFiles.ReadLines | backend/src/audit_query.cc:38-60 | returns the newline-terminated lines of the capped prefix, without carriage returns |
| LogFiles.LinesReadBack | backend/src/audit_query.cc:38-60 | lines written with either line end are read back as they were, and a last piece without one is left out |
| LogFiles.OpenedSound | backend/src/audit_query.cc:255-257 | a file with a complete line read is named by that line, so naming it by its first line read or by its first line agree |
| LogFiles.LinesOnlyGrow | backend/src/audit_query.cc:38-60 | more bytes complete a half-written line and add others; no complete line changes, nor the first |
| LogFiles.AppendGrows | backend/src/routes.cc:2932-2943 | bytes appended to the active file, read up to a later size, are growth |
| LogFiles.RotationGrows | backend/src/audit_query.cc:201-220 | a rotation, which starts newer files above the others, is growth |
| LogFiles.BytesGrowExtends | backend/src/audit_query.cc:38-60 | growth of the bytes is growth of the lines the readers see |
| AuditQuery.ScanFile | backend/src/audit_query.cc:255-279 | one file adds its matches newest first until the page is full; facets see every line |
| AuditQuery.LocateCursor | backend/src/audit_query.cc:229-249 | finds the file of a cursor, or none |
| AuditQuery.QueryAuditFiles | backend/src/audit_query.cc:222-281 | an expired cursor is told; otherwise a page is the first `limit` matches left after the cursor, `next` is set exactly when more remain, and the facets are those of the whole log, or none |
| AuditQuery.AnswerIsPage | backend/src/audit_query.cc:252-281 | the items and `next` of an answer, with or without facets, are the page at its cursor of the query that has neither: facets change neither |
| AuditWalk.Resume | backend/src/audit_query.cc:229-261 | a cursor from an older state of the log, lines added or files rotated since, leaves exactly the matches after it |
| AuditWalk.NextPage | backend/src/audit_query.cc:222-281 | each page after the first continues the list of the first page's time without gap or repeat |
| AuditWalk.WalkIsFilter | backend/src/audit_query.cc:222-281 | after k pages of a growing log the items are exactly the first k times limit matches of the log at the first page, newest first |
| AuditWalk.FollowedIsWalk | backend/src/audit_query.cc:222-281 | answers got by following `next` put together are the walk over the query without cursor and facets |
| AuditWalk.WalkOverBytes | backend/src/audit_query.cc:222-281 | answers got by following `next`, each with or without facets, over files appended to and rotated between them: together they are the first matches of the first page's log in order, they are no more than that takes, the last one says whether more remain, and no cursor expires (distinct file identities) |
| AuditWalk.WalkEnds | backend/src/audit_query.cc:222-281 | the walk ends after at most one page more than there are matches, having listed all of them |
| AuditWalk.KeysDistinct | backend/src/audit_query.cc:222-281 | no two matches have the same key, so each is listed once |
| AuditCriteria.TogetherIsEach | backend/src/audit_query.cc:108-128 | the criteria of a query hold together exactly when each holds alone |
| AuditCriteria.NoCriteriaKeepAll | backend/src/audit_query.cc:108-128 | a query without criteria keeps every readable line |
| AuditCriteria.ActorSelects | backend/src/audit_query.cc:108-128 | an actor selects the lines of that actor |
| AuditCriteria.FamilySelects | backend/src/audit_query.cc:106-111 | a family selects the types that are it or start with it and a dot, a whole type itself |
| AuditCriteria.CategorySelects | backend/src/audit_query.cc:112-147 | "failure" selects the types one of twelve words stands in, "admin" those of ten families, two decisions and rotations; nothing else restricts |
| AuditCriteria.SessionSelects | backend/src/audit_query.cc:108-128 | a positive session number selects the lines that carry it |
| AuditCriteria.TextSelects | backend/src/audit_query.cc:126-126 | a text selects the lines it stands in, in any case |
| AuditCriteria.FromDaySelects | backend/src/audit_query.cc:114-114 | a first day keeps the events of that day and later |
| AuditCriteria.ToDaySelects | backend/src/audit_query.cc:115-115 | a last day keeps the events of that day and earlier |
| AuditCriteria.TimesSelect | backend/src/audit_query.cc:114-115 | times as bounds keep the events between them, ends included |
| AuditCriteria.FacetsExactly | backend/src/audit_query.cc:264-267 | the facets are the actors and families of the readable lines of the whole log, and no others |
| Calendar.NextPreviousInverse | backend/src/reporting.cc:46-72 | next and previous day undo each other on valid dates, in both directions |
| Calendar.NextIsNext | backend/src/reporting.cc:60-72 | no valid date lies between a day and the next |
| Calendar.FebruaryExactly | backend/src/reporting.cc:29-36 | February has 29 days every fourth year, but of the years ending a century only every fourth |
| Calendar.DateOrder | backend/src/reporting.cc:38-44 | for four-digit years text order is date order |
| Calendar.StampInWindow | backend/src/reporting.cc:101-129 | a timestamp compares with the window's bounds as its day does |
| Calendar.StampOrder | backend/src/reporting.cc:101-129 | text order of timestamps is the order of moments, and the text determines the moment |
| Calendar.WindowHoldsAnchor | backend/src/reporting.cc:101-129 | every anchor lies in its window |
| Calendar.WindowExactly | backend/src/reporting.cc:101-129 | the window of a day holds exactly the days of its day, month, quarter or year |
| Calendar.SameWindow | backend/src/reporting.cc:101-129 | all days of a window have that window |
| Calendar.QuarterNames | backend/src/reporting.cc:101-129 | quarters are named Q1 to Q4 by their months |
| Calendar.PreviousWindowAdjacent | backend/src/reporting.cc:352-361 | the previous window ends the day before the current one starts |
| Buckets.ParseAnchor | backend/src/reporting.cc:88-99 | an accepted anchor is a valid date from 1970 to 9999 |
| Buckets.AnchorRoundTrip | backend/src/reporting.cc:88-99 | the text of a date parses back to it |
| Buckets.ParseAnchorExactly | backend/src/reporting.cc:88-99 | a text reads as a day exactly when it is that date, its month for a first of the month, or its year for a January 1st, from 1970 on |
| Buckets.DayListIsWindow | backend/src/reporting.cc:144-164 | the days of a window are exactly the valid dates between its ends, in order |
| Buckets.TenThousandSortsFirst | backend/src/reporting.cc:156-163 | the day after 9999-12-31 does not sort after it |
| Buckets.FarYearStops | backend/src/reporting.cc:156-163 | the text comparison does stop by the year 99990 |
| Buckets.DayLabels | backend/src/reporting.cc:156-163 | the loop ends, lists each day of the window once and in order, and nothing else exactly when the window does not end on 9999-12-31 |
| Buckets.BucketLabels | backend/src/reporting.cc:144-164 | hours of a day, months of a year, days otherwise |
| Reporting.ScanFile | backend/src/reporting.cc:251-263 | a file within the line budget is folded whole and counted |
| Reporting.LinesOfWholeFile | backend/src/reporting.cc:251-263 | without a budget every line is read back as written, a last one without its line end too |
| Reporting.LinesWithinBudget | backend/src/reporting.cc:251-263 | a byte budget takes the lines as far as whole lines fit |
| Reporting.AfterWindow | backend/src/reporting.cc:389-394 | a file whose first event is after the window holds none of it when times do not decrease |
| Reporting.BeforeWindow | backend/src/reporting.cc:437-438 | the files older than one that starts before the window hold none of it |
| Reporting.ScanFiles | backend/src/reporting.cc:388-439 | skipping and stopping early give the fold over all files, given non-decreasing times and no truncation |
| Reporting.BuildReport | backend/src/reporting.cc:363-450 | windows, labels and every accumulated value equal the fold over all files; not truncated within 2,000,000 lines |
| ReportMeaning.FoldFilesIsFold | backend/src/reporting.cc:363-450 | folding file by file is folding all lines once |
| ReportMeaning.TotalsAreCounts | backend/src/reporting.cc:219-234 | each of the thirteen totals, current and previous, is the number of lines whose event passes its test |
| ReportMeaning.ActorTallies | backend/src/reporting.cc:419-419 | an actor's tally is the number of the window's events by that actor |
| ReportMeaning.TypeTallies | backend/src/reporting.cc:420-421 | a type's tally is the number of the window's events of that type |
| ReportMeaning.FamilyTallies | backend/src/reporting.cc:420-423 | a family's tally is the number of the window's events whose type is of that family |
| ReportMeaning.TargetTallies | backend/src/reporting.cc:424-425 | a target's tally is the number of the window's events on that target |
| ReportMeaning.NamesExactly | backend/src/reporting.cc:409-411 | a name is gathered exactly when it is not blank and some event of the period carries it |
| ReportMeaning.NamesGathered | backend/src/reporting.cc:441-444 | the keys of the tallies and the sets of the period before, whose sizes are the four unique counts, are the names so gathered |
| ReportMeaning.FirstAndLast | backend/src/reporting.cc:363-450 | first and last times are the oldest and newest in the window, blank when it is empty |
| ReportMeaning.MomentHasSlot | backend/src/reporting.cc:167-172 | every well-formed time of the window has a chart slot |
| ReportMeaning.SlotsAddUp | backend/src/reporting.cc:144-172 | slot events, sessions and failures sum to the totals for well-formed times |
| ReportChart.WindowsTake | backend/src/reporting.cc:404-406 | the window takes the events of its period and the one before those of the period before |
| ReportChart.SlotsExactly | backend/src/reporting.cc:427-433 | each chart slot counts the window's events whose moment falls in it by hour, month or date, and of these the sessions and the failures |
| LicenseClock.License.Reload | backend/src/license.cc:125-163 | the whole state after a reload: watermark, last write, denylist, stored values |
| LicenseClock.License.CurrentStatus | backend/src/license.cc:198-219 | the status and the state after asking, at any clock reading |
| LicenseClock.EvaluateExactly | backend/src/license.h:360-395 | the status is the first that holds of clock anomaly, not begun, over, revoked; a valid license tells its whole days left |
| LicenseClock.PersistedNeverDecreases | backend/src/license.cc:125-219 | in every run of reloads, restarts and readings the stored watermark never decreases and memory is at most 3599 s ahead of it |
| LicenseClock.WatermarkIsHighest | backend/src/license.cc:208-216 | between reloads the watermark is the highest reading seen |
| LicenseClock.ExpiredStays | backend/src/license.h:360-395 | once Expired, every later status until a reload is Expired, or a clock anomaly exactly when the clock is over 24 h behind the watermark |
| LicenseClock.NeverValidAgain | backend/src/license.h:360-395 | once the watermark is 3599 s past the end the license is never Valid again across reloads and restarts |
| LicenseClock.OneSecondLessIsNotEnough | backend/src/license.cc:125-131 | at 3598 s a restart on an earlier clock makes it Valid |
| LicenseClock.ValidAgainExactly | backend/src/license.cc:125-163 | some clock makes a reloaded license Valid if and only if the stored watermark is before its end and it begins before it ends |
| LicenseClock.StoredSeqIsHighest | backend/src/license.cc:81-113 | the stored sequence number is the highest of the lists presented |
| LicenseClock.OldListsRefused | backend/src/license.cc:81-113 | a list is in force after a reload exactly when no earlier one had a higher number |
| LicenseClock.RevokedSurvivesExactly | backend/src/license.cc:133-163 | after any history a Revoked license is Revoked after a reload if and only if, within its dates, the list presented names it and no earlier one had a higher number; otherwise, within its dates, it is Valid |
| LicenseClock.RefusedListRevives | backend/src/license.cc:81-113 | revoked by list 2, a license is Valid after a reload that presents list 1 or none |
| RateLimit.Limiter.Sweep | backend/src/app_context.cc:74-91 | drops exactly the idle entries |
| RateLimit.Limiter.Check | backend/src/app_context.cc:93-118 | the answer and the whole state after a check, sweep included |
| RateLimit.Limiter.RecordFailure | backend/src/app_context.cc:128-154 | the entry after a failure, block included |
| RateLimit.Limiter.Clear | backend/src/app_context.cc:156-160 | forgets the key and nothing else |
| RateLimit.Limiter.IsBlocked | backend/src/app_context.cc:120-126 | asking creates no entry and answers whether the block lasts |
| RateLimit.BlockedIsRefused | backend/src/app_context.cc:102-104 | a blocked key is refused |
| RateLimit.TrimmedIsSuffix | backend/src/app_context.cc:106-110 | popping from the front removes only attempts older than the window |
| RateLimit.AdmissionIsSpaced | backend/src/app_context.cc:112-117 | an admission keeps every window of admissions within the maximum |
| RateLimit.AtMostMaxPerWindow | backend/src/app_context.cc:93-118 | from any state and in any run on a steady clock, between clears of a key no closed interval of the window's length admits more than the maximum |
| RateLimit.AdmittedExactly | backend/src/app_context.cc:93-118 | in every run from an empty limiter a check is admitted exactly when its key is not blocked and fewer than the maximum of its checks were admitted within the window since it was last cleared |
| RateLimit.SweepChangesNoAnswer | backend/src/app_context.cc:74-91 | until a key's next recorded failure a sweeping limiter answers as one that never sweeps |
| RateLimit.BlockNeverEarlier | backend/src/app_context.cc:137-153 | a failure never moves the end of a block earlier |
| RateLimit.BlockedExactly | backend/src/app_context.cc:120-154 | in every run a key is blocked exactly when its entry has ten failures and the last is within its backoff |
| RateLimit.BarredExactly | backend/src/app_context.cc:120-154 | in every run a key is blocked exactly as its failures since its last clear say (ten for 30 s, twenty for 300 s, thirty for 1800 s), while no two of them are over an hour apart or nothing is swept |
| AccessDecision.Apply | backend/src/routes.cc:459-502 | what one applied policy changes in the decision |
| AccessDecision.BuildAccessDecision | backend/src/routes.cc:423-519 | the loop's result is the fold over the applied policies, each id once |
| AccessDecision.AppliedExactly | backend/src/routes.cc:454-458 | with ids a key, a policy is applied exactly when it is listed and concerns the request |
| AccessDecision.DecisionMeans | backend/src/routes.cc:428-482 | every demand of the decision comes from the resource or an applied policy in its window, and the converse; it is denied exactly when some applied policy is outside its window |
| AccessDecision.DecisionRecords | backend/src/routes.cc:459-473 | the ids recorded as matched are exactly those of the applied policies in their window, and the policy blamed for a denial is an applied one outside its window |
| AccessDecision.DurationIsShortest | backend/src/routes.cc:485-493 | the duration is the least of 3600 and the positive maxima in force, and the selected policy is one that gives it |
| AccessDecision.FactorIsStrongest | backend/src/utils.h:185-196 | the factor kept has the highest rank asked for |
| AccessDecision.FactorsCoveredExactly | backend/src/routes.cc:228-239 | passing the decision's factor check means meeting every policy's own requirement if and only if not both "webauthn" and "totp" are asked for, and "required" does not stand without either |
| AccessDecision.MeetsByRank | backend/src/routes.cc:228-239 | the factor check of a decision asks for a security key, a code or nothing, by rank |
| AccessDecision.RoutingIsFirst | backend/src/routes.cc:494-502 | the routing kept is that of the first policy in force that has one |
| AccessDecision.OrderIndependent | backend/src/routes.cc:452-503 | the same policies in another order make the same demands and duration |
| AccessDecision.RoutingDependsOnOrder | backend/src/routes.cc:494-502 | of two different routings the first wins, so their order shows |
| AccessDecision.MoreDemandMore | backend/src/routes.cc:452-503 | more policies, anywhere in the order, only add demands and shorten the session |
| SessionGate.Registry.CheckApproval | backend/src/routes.cc:2177-2231 | the approval check and the request it may expire |
| SessionGate.Registry.Open | backend/src/routes.cc:2047-2365 | opens exactly when no check fails, else names the first that does; the stored session is the one asked for and lasts the least of 3600 s and the applied maxima, every applied policy is honoured, and the stored grant is the caller's, for that resource and request, until the session ends or 300 s |
| SessionGate.UnmetExactly | backend/src/routes.cc:2147-2295 | the checks made one after another are exactly the demands, in any order |
| SessionGate.FirstFailed | backend/src/routes.cc:2047-2295 | the refusal given is that of the first check that fails, each check said on its own, and there is none when no check fails |
| SessionGate.ExpiredExactly | backend/src/routes.cc:2193-2206 | the only request a call changes is the one presented and needed: approved over an hour ago it expires |
| SessionGate.OpenedHonoursAll | backend/src/routes.cc:2147-2354 | a session that opens honours the resource and every applied policy: window, justification, ticket, purpose, an approval of this requester and resource at most 3600 s old when its time parses, duration |
| SessionGate.RankExactly | backend/src/utils.h:185-196 | a security key is demanded exactly when a policy in force asks for one, a code exactly when one asks for a code and none for a key |
| SessionGate.RelayExactly | backend/src/routes.cc:494-502 | a relay is demanded exactly when the first policy in force with a routing asks for it |
| SessionGate.MorePoliciesRefuseMore | backend/src/routes.cc:438-503 | where more policies let a request through, fewer refuse it exactly when they ask for a missing code and the others for a key, or their first routing is an unbound relay and the others' is not |
| SessionGate.AddedPolicyOpens | backend/src/utils.h:193-196 | a user with a security key and no code is refused under a code policy and let through once a key policy is added |
| Tiles.FrameStableExactly | backend/src/rbi.cc:600-608 | a frame taken is independent of what follows exactly when its payload was all there, which holds for every length below 2^32 - 5 |
| Tiles.TileReader.Relay | backend/src/rbi.cc:608-662 | what one frame sends and how it changes the blocked downloads |
| Tiles.TileReader.Feed | backend/src/rbi.cc:592-664 | one read drains every complete frame; a length wrapping to zero never ends |
| Tiles.DrainExtended | backend/src/rbi.cc:592-664 | draining what was left with what comes next is draining it all |
| Tiles.CutsDoNotMatter | backend/src/rbi.cc:592-664 | however the stream is cut into reads the browser gets what the frames of the whole stream give |
| Tiles.FramesOfEncoded | backend/src/rbi.cc:514-520 | the frames read from what the helper writes are the frames it wrote |
| Tiles.AnnouncedExactly | backend/src/rbi.cc:623-638 | a begin frame tells the number, signed size and name written into it; a name cut short reads as empty, a frame without size and name as nothing |
| Tiles.SuppressedExactly | backend/src/rbi.cc:614-651 | chunks and ends are suppressed exactly when a begin of their download was refused since its last end; all else is relayed, logs and refused begins apart |
| Tiles.HandledFrameByFrame | backend/src/rbi.cc:592-664 | the output is, frame by frame, what each sends after those before it |
| Placeholders.TranslatePlaceholders | backend/src/db_postgres.cc:30-71 | the index loop computes the translation of the whole statement |
| Placeholders.MeaningKeptExactly | backend/src/db_postgres.cc:30-71 | in either numbering, that in order of appearance or SQLite's, PostgreSQL reads the translation as what was meant if and only if each placeholder of the code is seen as one, stands apart from words and gets its own number, no '?' of a literal or quoted name is rewritten and no $digit stands in code outside words, comments and quoted names included |
| Placeholders.ReadAsSqliteExactly | backend/src/db_postgres.cc:26-71 | PostgreSQL reads the translation as SQLite reads the original if and only if the statement is clean in SQLite's numbering: at each bare placeholder the bare ones rewritten so far are as many as the largest number so far |
| Placeholders.TranslatedOnce | backend/src/db_postgres.cc:30-71 | translating again changes nothing |
| Placeholders.NumberedAsSqliteExactly | backend/src/db_postgres.cc:26-29 | numbering in order of appearance is SQLite's numbering if and only if no number before a bare placeholder exceeds the bare ones so far |
| Placeholders.ReadAsSqlite | backend/src/db_postgres.cc:26-71 | a statement translated as it was meant is read as SQLite reads the original if and only if its numbers are in that order |
| Placeholders.MixedNumbering | backend/src/db_postgres.cc:26-29 | "?2=?" is numbered 2 and 1 where SQLite gives 2 and 3, and PostgreSQL does not read it as SQLite does |
| Placeholders.CommentCounts | backend/src/db_postgres.cc:60-66 | a bare '?' in a comment takes a number, so the placeholder after it is written $2 where it is parameter 1 in both numberings, although the numbers are in order |
| Placeholders.CommentMakesUp | backend/src/db_postgres.cc:60-66 | "?1/*?*/?" is not in order and not translated as meant, and PostgreSQL reads its translation as SQLite reads the original |
| Dechunk.ReadLine | backend/src/http_proxy.cc:377-391 | reading a size line always advances and stays in the body |
| Dechunk.HexDigitExactly | backend/src/http_proxy.cc:393-399 | a hexadecimal digit is one of sixteen in either case and is worth its place |
| Dechunk.SizeWritten | backend/src/http_proxy.cc:393-399 | the hexadecimal text of a number, in either case, is read as that number |
| Dechunk.SizeRead | backend/src/http_proxy.cc:393-399 | a hexadecimal size in either case, with leading zeros, is read in full |
| Dechunk.DecodeBody | backend/src/http_proxy.cc:372-415 | what the loop comes to on every body: the decoded text, a refusal, or never ending, the position being computed modulo 2^64 |
| Dechunk.UnreadableIsKept | backend/src/http_proxy.cc:377-399 | a body is kept as received when a line that is read has no end or no size |
| Dechunk.YieldsOne | backend/src/http_proxy.cc:372-415 | every body has one outcome |
| Dechunk.EndlessExactly | backend/src/http_proxy.cc:376-415 | the loop never ends if and only if it meets a position twice |
| Dechunk.WrapsExactly | backend/src/http_proxy.cc:401-408 | the end of a chunk lies before its beginning exactly when its size overflows size_t; otherwise the position goes forward |
| Dechunk.EndsUnlessOverflow | backend/src/http_proxy.cc:376-415 | the loop ends on every body unless a size line it actually reads overflows |
| Dechunk.MinusFourNeverEnds | backend/src/http_proxy.cc:393-415 | "-4" is read as 2^64 - 4 and brings the position back to its start, for ever |
| Dechunk.MinusOneEnds | backend/src/http_proxy.cc:393-415 | an overflowing size need not: "-1" lands on its own line break and the loop ends |
| Dechunk.DechunkResponse | backend/src/http_proxy.cc:368-422 | a decoded body replaces the coded one with its length in place of the transfer coding, all other headers as they were; otherwise nothing changes |
| Dechunk.ChunkedExactly | backend/src/http_proxy.cc:369-371 | a response is decoded exactly when its transfer coding names "chunked" anywhere |
| Dechunk.DecodesEncoding | backend/src/http_proxy.cc:369-422 | every encoding of a body by section 7.1 of RFC 9112 decodes to it, extensions and trailers included |
| Dechunk.CutBetweenChunks | backend/src/http_proxy.cc:376-376 | a body cut between two chunks is taken as complete |
| Dechunk.CutInsideChunk | backend/src/http_proxy.cc:403-406 | a body cut inside a chunk's data is left as received |
| TableOrder.Least | scripts/migrate-sqlite-to-postgres.py:67-72 | the alphabetically first name of a set |
| TableOrder.Sorted | scripts/migrate-sqlite-to-postgres.py:67-72 | the names of a set in order, each once |
| TableOrder.Orderer.Visit | scripts/migrate-sqlite-to-postgres.py:63-70 | the walk ends on every graph and lists parents, in alphabetical order, before children unless the edge lies on a cycle |
| TableOrder.Orderer.Order | scripts/migrate-sqlite-to-postgres.py:61-73 | every table is listed |
| TableOrder.TopologicalIffAcyclic | scripts/migrate-sqlite-to-postgres.py:52-75 | such an order is topological if and only if the dependencies have no cycle |
| TableOrder.TableOrder | scripts/migrate-sqlite-to-postgres.py:52-75 | every table exactly once, each table a foreign key refers to first unless the key lies on a cycle, all of them first exactly when no keys form a cycle, and alphabetically when there are no keys |

## Left out

- Sockets, TLS, HTTP routing, cookies and headers, JSON reading and writing, SQL execution: plumbing without a hard invariant. A missing CSRF header is refused before any step modelled here.
- SHA-256, HMAC, base64 and the license signatures: function-typed parameters, with injectivity or "no quote or newline in the output" stated where a theorem needs it. That a session ticket which decodes was signed by the bastion is the assumption `Possible` states.
- Lock interleavings inside one handler, failing disk or database writes, reading a log file while it is being renamed: each handler is one atomic step that succeeds.
- Symbolic links, the creation of home directories, uploads that share the name of a temporary file in flight, and the removal of a purged space's files and shares.
- Machine integers other than the 32-bit frame length and the size_t chunk position: counts and times are unbounded. The check counter of the rate limiter wraps at a multiple of 256, so its sweeps fall at the same checks.
- AuditLog.AuditLog.MaybeRotate: the sealing second and the purge cutoff come from one clock reading, where the code reads the clock twice.
- The identity of a log file is a function of its first line, assumed distinct between files, and a cursor is a pair of that identity and a line number rather than its text.
- Sorting and cutting of report tallies, how a target is found in a payload (part of the parsing parameter), the CSV export, and the live-events buffer.
- Policy matching by identity, role, group, risk and tags, and the parsing of a time window: predicates given to the fold. The profile recorded with a decision and the explanatory factors are not kept.
- Tiles.TileReader.Feed: for a length that wraps, where the code would read past its buffer, the model takes only the bytes that are there; sending failures and the recording copy are not modelled.
- Placeholders.MeaningKeptExactly: statements are read as code, literals, quoted names and comments, words, parameters and single characters. Comments do not nest, as SQLite has it; dollar-quoted and escape-prefixed literals, names in brackets or backquotes and SQLite's named parameters are not told apart, and SQLite's limits on the number after a '?' are not modelled.
- Dechunk.DecodeBody: the method keeps the positions it has met, to answer `Endless` where the code would go on for ever. How much of the response is read before decoding is not part of this model.
- SessionGate.Registry.Open: audit events, metrics and the ways a database write can fail are not modelled; the expiry of a grant is not checked for overflow.
- The file service's own journal and its command line, feature tiers of a license, LDAP, SSO, the headless-browser process and everything behind Enterprise seams.
