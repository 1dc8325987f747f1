# A verified model of the account manager's services

The manager keeps mailboxes, background jobs, shared work, forwarding and imports in database rows that
many workers, clients and sweeps update concurrently. This project models those services in Dafny and
proves what their transactions keep, what whole runs of them can and cannot do, and which simple
specification each incremental algorithm meets.

Every table is a sequence, map or set of records in a class whose methods are the service calls, with
the branches, errors and constants of the code. Each method is proved twice over: column by column, what
every row is afterwards, and against a function on the tables. The protocols are then studied as runs of
those functions: sequences of transactions in any order, with clock ticks and crashes between them.

| files | subject |
|---|---|
| `JobModel`, `JobInvariant`, `JobRuns`, `JobQueue` | the job queue: leases, retries, recovery, cancel, pause, the worker pass |
| `ProjectLeases` | timed project leases guarded by bearer tokens |
| `ForwardingProtocol`, `ForwardingScan`, `ForwardingCoverage` | claim/send/record with crashes, the scan, and what its cursor leaves behind |
| `GroupForest`, `GroupService`, `ProxyResolution` | the group tree, moving and deleting subtrees, inherited proxies |
| `ImportLines`, `ImportBatches` | the import file, planning, commit and rollback |
| `RowOrder`, `SetSizes`, `AccountPages`, `BulkMutation`, `RetainedMail` | keyset paging, bulk changes and previews, the mail cache |
| `Schedules` | due slots, idempotency keys and schedule edits |

`dafny verify dfyconfig.toml` checks the whole project.

## Assumptions

- Transactions are serialised. A row another transaction has locked is skipped by the lease query; the
  runs therefore lease any claimable row and fire any due schedules, while the methods take the first.
- There is one clock, and it never goes back. Times are integers; in the queue and the lease models one
  unit is a second.
- Identifiers and tokens are fresh, digests are injective, and rows appended later have larger ids
  where the code orders by creation time and id.
- A worker process handles one item at a time and presents only the last lease it was given, as often
  and as late as it likes.
- Message ids are unique in a mailbox, and a listing holds messages of the mailbox.
- A collation is given by its sort keys, numbers; a creation time is a number too.
- What a provider, mail server, handler or savepoint answers, and where a process dies, are arbitrary
  parameters of the calls, and results are tied to them; email validation, UUID syntax, the whitespace
  class and the cron calendar are arbitrary functions, of which only what is stated is used (a validated
  address is not empty, a next slot is strictly later).

## Where the code promises less than it seems to

- Leasing never checks the maximum of attempts, and the only fence is the owner string, whose default
  every worker shares. `BoundedIffDistinctIds`: the bound holds in every run if and only if no two
  workers share an id. Counters, statuses, outcomes, cancel and pause do not depend on it.
- A delivered message can be sent again once a send outlasts the five-minute window of its claim.
  `FiveMinutesIsExact`: never again if and only if sends are bounded by that window.
- A forwarding scan reads one page of fifty per folder, and its window hides older mail. `CoverageIff`
  says, from what holds before the scan, exactly when a faultless scan leaves undelivered mail behind its
  cursor; `CoverageIffPageHolds` and `FirstScan` give the bound of fifty and the case of fifty-one.
- A message that comes dated at or before the cursor, in the same second or moved into the folder, is
  never offered. `ArrivalKeepsCoverageIff`: mail coming in leaves nothing undelivered behind the cursor
  if and only if what comes dated up to it is delivered already; `LateMailIsLost` is the failure, and
  `CursorSkipsOnlyLateMail`: nothing else is lost by scans that list all they pass and meet no other scan.
- A fresh `processing` row of another scan is skipped without holding the cursor back.
  `InFlightIsPassed` is the failure; `DeliversAllIffMeetsNobody`: a faultless scan delivers all it
  scanned if and only if it meets no such row.
- Pruning cached mail compares the stored text of the date, which for IMAP is the mail header.
  `NewerHeaderIsLost` deletes the newer of two messages; `KeepsNewestIffOrdersAgree`: the newest are
  kept under every limit if and only if text order and date order agree.
- The predicted and the actual effect of a bulk change differ when a tag is both added and removed.
  `PredictsExactlyIffDisjoint`: they agree on every database if and only if the lists are disjoint.
- The field separator of import lines may be split differently than it was joined when a field ends in
  a dash. `SplitJoinIff`: fields are recovered if and only if none runs into a separator.
- A schedule edit that read the clock before a slot and commits after the slot fired can make it due
  again. `EditKeepsRisingIff`: exactly when it read the clock before some slot already fired;
  `OneJobPerSlot` shows that even then the slot has only one job.

## Model

| member | source | states |
|---|---|---|
| `JobInvariant.LeaseKeeps` | src/smart_email_manager/jobs/queue.py:30-65 | leasing a claimable item keeps every counter and status coupling, and the lease it hands out matches the row |
| `JobInvariant.FinishKeeps` | src/smart_email_manager/jobs/queue.py:219-257 | recording an outcome under an accepted lease keeps the invariant: recounted counters, and the job ends exactly when its last unfinished item does |
| `JobInvariant.FinishCounts` | src/smart_email_manager/jobs/queue.py:219-257 | an accepted outcome raises exactly its own counter on exactly the job of the lease, by one |
| `JobInvariant.RetryKeeps` | src/smart_email_manager/jobs/queue.py:260-309 | so does rescheduling, including the branch that fails an exhausted item |
| `JobInvariant.RecoverKeeps` | src/smart_email_manager/jobs/queue.py:68-114 | so does recovering all expired leases and refreshing every affected job |
| `JobInvariant.SweepKeeps` | src/smart_email_manager/jobs/queue.py:312-332 | so does cancelling the waiting items of all cancelling jobs |
| `JobInvariant.CancelKeeps` | src/smart_email_manager/services/jobs.py:319-336 | so does a cancel request from any status |
| `JobInvariant.PauseKeeps` | src/smart_email_manager/services/jobs.py:338-365 | so does an accepted pause request |
| `JobInvariant.FinalizeKeeps` | src/smart_email_manager/services/jobs.py:368-404 | so does pausing the pausing jobs with nothing in flight; a paused job never has an item in flight |
| `JobInvariant.ResumeKeeps` | src/smart_email_manager/services/jobs.py:407-426 | so does an accepted resume |
| `JobInvariant.CreateKeeps` | src/smart_email_manager/services/jobs.py:22-78 | so does creating a job with any number of items; an empty one is born completed |
| `JobInvariant.EndingMeans` | src/smart_email_manager/jobs/queue.py:186-201 | what the final status of an uncancelled job says: every item has an outcome, the three counters add up to the total, and it is completed exactly when no item failed |
| `JobRuns.EveryReachableStateIsOk` | src/smart_email_manager/jobs/queue.py:168-216 | for every naming of the workers, shared ids included, and every interleaving of create, lease, finish, retry, recover, sweep, cancel, pause, finalize, resume and time: counters equal a recount, a job is terminal iff it has no unfinished item and then has the status its counts call for, cancellation is recorded iff cancelling or cancelled, queued and paused jobs have nothing in flight, running items alone have an owner and an expiry, and every held lease names its row, job and attempt |
| `JobRuns.EveryReachableStateIsFenced` | src/smart_email_manager/jobs/queue.py:228-232 | with distinct ids every reachable state also keeps attempts within their maximum, with one left wherever an item waits, and accepts a lease only if it is the latest of its item |
| `JobRuns.HeldLeaseSurvives` | src/smart_email_manager/jobs/queue.py:117-165 | whatever others do, and under any naming, a held lease keeps naming its row, its job and an attempt of the item |
| `JobRuns.OutcomeIsFinal` | src/smart_email_manager/jobs/queue.py:228-240 | under any naming an item with an outcome is never changed again by any run |
| `JobRuns.JobOutcomeIsFinal` | src/smart_email_manager/jobs/queue.py:186-201 | under any naming a job that has ended keeps its status, counters and times through any run |
| `JobRuns.RecordedStays` | src/smart_email_manager/jobs/queue.py:219-257 | an outcome recorded under an accepted lease at some step is still the status of the item at the end of any run |
| `JobRuns.AllSucceededCompletes` | src/smart_email_manager/jobs/queue.py:186-201 | over runs: a job all of whose items were recorded succeeded has ended completed, or cancelled if that was asked for |
| `JobRuns.WorkBoundsActivity` | src/smart_email_manager/jobs/queue.py:36-50 | with distinct ids the steps of any run that change an item of a job are at most its work measure, the sum of 2·(max−attempts) plus one if running: a job cannot run forever |
| `JobRuns.GrantsAreAttempts` | src/smart_email_manager/jobs/queue.py:47 | under any naming the attempt counters of a job grow by exactly the number of leases granted |
| `JobRuns.LeaseBudget` | src/smart_email_manager/jobs/queue.py:36-50 | with distinct ids a job is leased at most as often as the maxima of its items allow, although leasing never checks them |
| `JobRuns.OneHolder` | src/smart_email_manager/jobs/queue.py:228-232 | at any point of any run at most one worker holds a lease the queue would accept for an item |
| `JobRuns.StaleLeaseIsDead` | src/smart_email_manager/jobs/queue.py:228-232 | a lease that has lost its row stays refused by finish and retry through any run until the worker leases again |
| `JobRuns.RecoveredWorkerIsFenced` | src/smart_email_manager/jobs/queue.py:68-114 | a worker whose lease was recovered can neither finish nor reschedule the item |
| `JobRuns.CancelIsFinal` | src/smart_email_manager/services/jobs.py:319-336 | under any naming, after a cancel request no item of the job starts again in any run, and the job stays cancelling or cancelled |
| `JobRuns.PauseHolds` | src/smart_email_manager/services/jobs.py:338-426 | under any naming no item of the job starts between a pause request and the resume |
| `JobRuns.SweepFinishesCancel` | src/smart_email_manager/jobs/queue.py:312-332 | once nothing is in flight, one sweep leaves every item of a cancelling job terminal and the job cancelled |
| `JobRuns.OnePassCancels` | src/smart_email_manager/jobs/worker.py:26-29 | recovery followed by the sweep ends a cancelling job whose flights have all expired |
| `JobRuns.OnePassPauses` | src/smart_email_manager/jobs/worker.py:26-30 | recovery, sweep and finalize pause a pausing job whose flights have all expired, unless its last attempts have failed it |
| `JobRuns.NeverStuck` | src/smart_email_manager/jobs/worker.py:26-34 | an active job whose flights have expired and whose retries are due is, after the recovery of a pass, ended or has an item the pass may lease; with WorkBoundsActivity it cannot wait forever under fair passes |
| `JobRuns.SharedIdBreaksTheBound` | src/smart_email_manager/config.py:34 | with a shared worker id an explicit eleven-step run takes an item past its maximum |
| `JobRuns.BoundedIffDistinctIds` | src/smart_email_manager/jobs/queue.py:231-232 | attempts stay within the maximum in every run if and only if no two workers share an id |
| `JobQueue.NextIsWellDefined` | src/smart_email_manager/jobs/queue.py:36-45 | the candidate query finds a row exactly when one is claimable, and its order determines which |
| `JobQueue.BackoffSaturates` | src/smart_email_manager/jobs/queue.py:284 | the retry delay doubles from five seconds and is exactly 300 from the seventh attempt on |
| `JobQueue.Queue.CreateJob` | src/smart_email_manager/services/jobs.py:39-78 | appends one job and as many pending items on three attempts as asked, row by row; a job without items is created completed |
| `JobQueue.Queue.RefreshJobSummary` | src/smart_email_manager/jobs/queue.py:168-216 | the three counters become the numbers of items with each outcome; the job ends exactly when none of its items waits or runs, cancelled if that was asked, completed without a failure, partial if something else did not fail, failed otherwise |
| `JobQueue.Queue.RecoverExpiredLeases` | src/smart_email_manager/jobs/queue.py:68-114 | exactly the items held past their expiry lose their holder, failing if out of attempts and waiting again otherwise; exactly their jobs are recounted; the result is their number |
| `JobQueue.Queue.LeaseNextItem` | src/smart_email_manager/jobs/queue.py:117-165 | the leased item is claimable, no claimable item has a higher priority, at equal priority none is older, and at equal age none has a lower id; its row gets the worker, the expiry, one more attempt and a first start, its queued job starts, all else stays; none is leased exactly when none is claimable |
| `JobQueue.Queue.FinishItem` | src/smart_email_manager/jobs/queue.py:219-257 | accepted exactly when the row still names the holder; then the item has the given status, a finish time and no holder, its job is recounted in columns, and every other row is unchanged; a refusal changes nothing |
| `JobQueue.Queue.RetryItem` | src/smart_email_manager/jobs/queue.py:260-309 | likewise; the item is failed exactly when the lease is out of attempts, and otherwise waits for the asked delay, or the backoff when none or zero is asked |
| `JobQueue.Queue.CancelPendingItems` | src/smart_email_manager/jobs/queue.py:312-332 | exactly the waiting items of cancelling jobs are cancelled, those jobs are recounted, the result is the number of items |
| `JobQueue.Queue.RequestJobCancel` | src/smart_email_manager/services/jobs.py:319-336 | the whole new state of a cancel request, for every status and for a missing job |
| `JobQueue.Queue.RequestJobPause` | src/smart_email_manager/services/jobs.py:338-365 | likewise for a pause request, refused on a cancelling job |
| `JobQueue.Queue.FinalizePausingJobs` | src/smart_email_manager/services/jobs.py:368-404 | pauses exactly the fetched jobs with nothing in flight and counts them |
| `JobQueue.Queue.ResumeJob` | src/smart_email_manager/services/jobs.py:407-426 | resumes a paused job to running or queued, refuses any other |
| `JobQueue.EndAttempt` | src/smart_email_manager/jobs/worker.py:38-61 | with a lease still accepted the item gets the status the handler named and only that counter of the job rises, by one, or it is failed or rescheduled with its delay; otherwise nothing changes and the error escapes |
| `JobQueue.RunOnce` | src/smart_email_manager/jobs/worker.py:23-62 | one worker pass keeps the invariant and leases exactly the first item claimable after housekeeping, or none; whatever others commit while the handler runs, its outcome is applied iff the lease is still accepted then, and an error escapes iff it is not and the attempt called the queue |
| `ProjectLeases.Exclusive` | src/smart_email_manager/services/projects.py:309-330 | at any instant of any run a row accepts at most one token and a token opens at most one row |
| `ProjectLeases.ExpiryBoundary` | src/smart_email_manager/services/projects.py:250-261 | no instant lets the holder act and another claim; at the expiry instant, and only then, neither can |
| `ProjectLeases.TokenDeath` | src/smart_email_manager/services/projects.py:309-330 | a token that has stopped opening a row never opens it again in any run |
| `ProjectLeases.ClaimSupersedes` | src/smart_email_manager/services/projects.py:277-286 | a claim kills every earlier token of the row for good and its own token opens the row |
| `ProjectLeases.ResultIsFinal` | src/smart_email_manager/services/projects.py:355-381 | done, failed or released: the token that brought the result is dead |
| `ProjectLeases.ExpiryIsFinal` | src/smart_email_manager/services/projects.py:315-323 | an expired lease cannot be revived, even if nobody reclaimed it |
| `ProjectLeases.LeaseIsProtected` | src/smart_email_manager/services/projects.py:178-232 | until it expires no claim, operator action or foreign token changes a leased row |
| `ProjectLeases.AttemptsCountClaims` | src/smart_email_manager/services/projects.py:283 | the attempt counter is the number of claims granted |
| `ProjectLeases.CountersAddUp` | src/smart_email_manager/services/projects.py:54-80 | over any run the total of a project grows by exactly the rows added, and the other counters share out the rows not removed |
| `ProjectLeases.ClaimMovesCounters` | src/smart_email_manager/services/projects.py:277-286 | a granted claim moves one row from free to leased, or, taking over an expired lease, no counter at all |
| `ProjectLeases.ResultMovesCounters` | src/smart_email_manager/services/projects.py:355-381 | a result moves exactly one row from leased to done, failed or free, as its caller said, and changes no other counter |
| `ProjectLeases.Projects.ClaimProjectAccount` | src/smart_email_manager/services/projects.py:235-306 | claims the first available row, setting its status, holder, digest, expiry and one more attempt and nothing else; refused exactly when none is available or the project is missing or inactive; retires the first available row if its account is gone |
| `ProjectLeases.Projects.HeartbeatProjectLease` | src/smart_email_manager/services/projects.py:333-352 | extends the lease exactly when the token opens the row |
| `ProjectLeases.Projects.FinishProjectLease` | src/smart_email_manager/services/projects.py:355-381 | accepted exactly when the token opens the row; then the row has the status the caller gave, no token, holder or expiry, and a finish time exactly when done or failed; every other row is unchanged |
| `ProjectLeases.Projects.MutateRow` | src/smart_email_manager/services/projects.py:194-214 | each operator action applies exactly to its own statuses, never to a leased row, and leaves the row free or removed with lease and finish time cleared |
| `ProjectLeases.Projects.MutateProjectAccounts` | src/smart_email_manager/services/projects.py:178-232 | applies the action to exactly the requested rows of the project it fits and counts them |
| `ProjectLeases.Projects.SetProjectStatus` | src/smart_email_manager/services/projects.py:132-142 | sets the status of an existing project and nothing else |
| `ProjectLeases.Projects.AddProjectAccounts` | src/smart_email_manager/services/projects.py:145-175 | adds each missing account once, leaves existing rows alone, refuses unknown accounts as a whole |
| `ProjectLeases.Projects.CreateProject` | src/smart_email_manager/services/projects.py:83-122 | a new active project with one free row for each requested account |
| `ForwardingProtocol.NoOverlap` | src/smart_email_manager/services/forwarding.py:338-383 | if every send ends or dies within five minutes of its claim, no two sends of a pair overlap, in any interleaving with crashes |
| `ForwardingProtocol.DeliveredIsFinal` | src/smart_email_manager/services/forwarding.py:355-357 | under the same bound a delivered pair is never claimed again |
| `ForwardingProtocol.AttemptsCountClaims` | src/smart_email_manager/services/forwarding.py:361-374 | the attempt counter is the number of granted claims, whatever the timing |
| `ForwardingProtocol.FiveMinutesIsExact` | src/smart_email_manager/services/forwarding.py:358-360 | deduplication holds for every run if and only if sends are bounded by the five-minute window; a slower send lets a late failure reopen a delivered pair |
| `ForwardingProtocol.OthersRespect` | src/smart_email_manager/services/forwarding.py:338-383 | any steps of other scans keep delivered rows and the row this scan is sending |
| `ForwardingScan.SortIsFaithful` | src/smart_email_manager/services/forwarding.py:444 | sorting keeps every candidate and orders them oldest first |
| `ForwardingScan.CandidatesAreExact` | src/smart_email_manager/services/forwarding.py:427-444 | the candidates are exactly the listed messages past the cursor and inside the window, undated ones included |
| `ForwardingScan.TallyMeans` | src/smart_email_manager/services/forwarding.py:470-494 | each counter of a scan is the number of offers that ended that way |
| `ForwardingScan.Forwarding.ClaimDelivery` | src/smart_email_manager/services/forwarding.py:338-383 | grants exactly when the pair is neither delivered nor freshly in progress, and then claims it |
| `ForwardingScan.Forwarding.ForwardOne` | src/smart_email_manager/services/forwarding.py:462-494 | claim, send, record with a crash possible at each commit: the row follows the answer of the destination, success or failure, with one more attempt, or shows where the process died; it is passed over exactly when delivered or in progress for less than 300 seconds |
| `ForwardingScan.Forwarding.ForwardMessage` | src/smart_email_manager/services/forwarding.py:461-494 | counts each destination once; without a failure every destination has a success row or was being served by another scan |
| `ForwardingScan.Forwarding.OfferAll` | src/smart_email_manager/services/forwarding.py:452-497 | offers every pair once in order; without a failure the newest date seen is past everything scanned, and all of it is delivered but the pairs passed over |
| `ForwardingScan.Forwarding.RunForwardingAccount` | src/smart_email_manager/services/forwarding.py:386-509 | a message is scanned exactly when listed and, if dated, later than the stored cursor and at most 60 seconds a configured minute old; the counters are the numbers of pairs by how their offer ended; a failed or aborted scan never moves the cursor; a moved cursor is the newest date scanned, past the old one, and every scanned message has a success row for every destination except the pairs passed over in progress; it moves whenever it may; a scan is cut short only by a missing listing, an unfetched message or a crash |
| `ForwardingScan.Forwarding.ResetCursor` | src/smart_email_manager/services/forwarding.py:287-302 | sets the cursor of a configured account, refuses otherwise |
| `ForwardingCoverage.SkippedOrDelivered` | src/smart_email_manager/services/forwarding.py:386-509 | over every history of mail coming and going, resets and scans, failed, overlapping or dying: a message dated between the first cursor and the last has a success row for each destination, or some event skipped the pair: it came dated up to the cursor, a reset went past it, or a scan did without listing it, offering it and finding it free |
| `ForwardingCoverage.CursorSkipsOnlyLateMail` | src/smart_email_manager/services/forwarding.py:437-502 | with backward resets and scans that list what they pass and meet no foreign send, only mail that came dated at or before the cursor of that moment is left behind; mail may come with any date |
| `ForwardingCoverage.ArrivalKeepsCoverageIff` | src/smart_email_manager/services/forwarding.py:439 | mail coming in keeps everything up to the cursor delivered if and only if every new message dated up to the cursor already has its success rows |
| `ForwardingCoverage.LateMailIsLost` | src/smart_email_manager/services/forwarding.py:437-441 | an undelivered message that comes dated up to the cursor, even in the same second, is not offered by any scan until a reset goes back before its date |
| `ForwardingCoverage.DeliversAllIffMeetsNobody` | src/smart_email_manager/services/forwarding.py:358-360 | a faultless scan on rows nobody else writes delivers all it scanned if and only if each of its pairs is, when reached, not a fresh processing row |
| `ForwardingCoverage.MeetsNobodyMeans` | src/smart_email_manager/services/forwarding.py:452-497 | with no pair offered twice that condition is on each visit and the rows before the scan |
| `ForwardingCoverage.InFlightIsPassed` | src/smart_email_manager/services/forwarding.py:470-502 | from any rows with a fresh processing pair of a dated message: a faultless scan moves the cursor past it, the other scan dying or failing leaves it undelivered, and no later scan offers it |
| `ForwardingCoverage.CoverageIff` | src/smart_email_manager/services/forwarding.py:427-502 | a faultless scan keeps everything up to the cursor delivered if and only if every message dated past the old cursor up to the newest offered date and undelivered before is listed, not before the window, and not being sent by another scan when reached |
| `ForwardingCoverage.CoverageIffPageHolds` | src/smart_email_manager/services/forwarding.py:432-439 | for a newest-first listing of new messages without delivery rows that is: at most fifty of them |
| `ForwardingCoverage.FirstScan` | src/smart_email_manager/services/forwarding.py:436 | a first scan of n messages, nothing sent before and every send accepted, leaves nothing behind the cursor iff n is at most fifty; of fifty-one the oldest stays unsent and is never offered again |
| `GroupForest.Acyclic` | src/smart_email_manager/services/organization.py:155-161 | no group is below its own child: the parent relation of a forest has no cycle |
| `GroupForest.AncestorsAreUnique` | src/smart_email_manager/db/models.py:80-82 | a group has at most one ancestor on each level |
| `GroupForest.DescendantsAreTheSubtree` | src/smart_email_manager/services/organization.py:54-58 | the recursive listing holds exactly the groups whose ancestor chain meets the root, each once, the root first and parents before children |
| `GroupForest.DepthIsExact` | src/smart_email_manager/services/organization.py:127-129 | the recursive depth is the depth of the deepest group below the root |
| `GroupService.SubtreeCountIsExact` | src/smart_email_manager/services/organization.py:61-86 | the sum over the listing is the number of accounts below the group |
| `GroupService.CountIsOwnPlusChildren` | src/smart_email_manager/services/organization.py:61-86 | a group counts its own accounts plus what its children count |
| `GroupService.RootsCountEverything` | src/smart_email_manager/services/organization.py:61-86 | the roots together count every grouped account once |
| `GroupService.MoveIsShift` | src/smart_email_manager/services/organization.py:169-173 | shifting the levels of the listing and relinking its root is the whole move |
| `GroupService.MoveIsComputed` | src/smart_email_manager/services/organization.py:162-173 | for an accepted move the listing, the target level and the shift the service computes give exactly the move |
| `GroupService.MoveKeepsForest` | src/smart_email_manager/services/organization.py:132-173 | every accepted move leaves a forest: levels 1 to 3, each one more than its parent, system groups at the root |
| `GroupService.MovableMeans` | src/smart_email_manager/services/organization.py:132-168 | a move is accepted exactly when it makes no cycle, enters no temporary group, and puts nothing below level three |
| `GroupService.RefilingCounts` | src/smart_email_manager/services/organization.py:191-211 | the own count of the default group grows by the old count of the deleted subtree |
| `GroupService.MoveAncestry` | src/smart_email_manager/services/organization.py:132-173 | the exact ancestor relation after a move: inside the subtree unchanged, above it the new chain, elsewhere untouched |
| `GroupService.NoChildLeft` | src/smart_email_manager/services/organization.py:205-209 | when the reversed listing reaches a group, all its children are already gone |
| `GroupService.SurvivorsAreAForest` | src/smart_email_manager/services/organization.py:191-211 | what a deletion leaves is a forest |
| `GroupService.Service.ListGroups` | src/smart_email_manager/services/organization.py:61-86 | for every group the number of its own accounts and of all accounts below it |
| `GroupService.Service.CreateGroup` | src/smart_email_manager/services/organization.py:89-124 | succeeds exactly at the root or under an existing parent on level one or two that is not temporary, with a free name; then keeps the forest and adds one group |
| `GroupService.Service.CheckMove` | src/smart_email_manager/services/organization.py:132-168 | which error a move meets, each exactly characterised; accepted exactly when both groups exist, it makes no cycle, enters no temporary group, moves no system group under another, and nothing would lie below level three |
| `GroupService.Service.MoveGroup` | src/smart_email_manager/services/organization.py:132-188 | succeeds exactly on a movable group with a free name, each refusal exactly characterised; then every group below it has its level shifted, only the group itself a new parent, and all else is unchanged |
| `GroupService.Service.ShiftLevels` | src/smart_email_manager/services/organization.py:169-172 | the loop over all groups shifts exactly the chosen ones |
| `GroupService.Service.DeleteLeafFirst` | src/smart_email_manager/services/organization.py:205-209 | deletes exactly the listing, no delete ever meeting a remaining child |
| `GroupService.Service.DeleteGroup` | src/smart_email_manager/services/organization.py:191-211 | removes exactly the groups at or below it, keeps the others and the account keys; each account filed at or below it gets the default group and keeps its proxy, every other is unchanged; the default group counts more by exactly the old count of the subtree |
| `ProxyResolution.ChainIsAncestry` | src/smart_email_manager/services/proxies.py:351-369 | the chain the loop climbs is exactly the ancestry of the group, at most three long |
| `ProxyResolution.CorrectIsUnique` | src/smart_email_manager/services/proxies.py:334-387 | the specification picks one answer |
| `ProxyResolution.AnswerInGroups` | src/smart_email_manager/services/proxies.py:334-387 | in groups instead of the chain: the answer comes from the deepest ancestor whose profile exists and is enabled, and from none exactly when no ancestor has one |
| `ProxyResolution.ResolveAccountProxy` | src/smart_email_manager/services/proxies.py:334-387 | the loop ends and returns the account's own profile if it exists and is enabled, else that of the deepest such ancestor group, else none |
| `ImportLines.JoinSplit` | src/smart_email_manager/services/imports.py:55 | joining the split parts gives back any line |
| `ImportLines.SplitJoinIff` | src/smart_email_manager/services/imports.py:25 | splitting recovers joined fields if and only if no field runs into a separator |
| `ImportLines.CleanMeans` | src/smart_email_manager/services/imports.py:25 | a field does not run into a separator exactly when it has none inside and no dash at the end |
| `ImportLines.LineRoundTrip` | src/smart_email_manager/services/imports.py:54-87 | a well-formed account written with its client id and token in either order reads back as itself |
| `ImportLines.AcceptsMeans` | src/smart_email_manager/services/imports.py:54-87 | a line of four fields is valid exactly for an outlook account with a valid address, a client id in either place and a token in the other; the whole parsed row, and the whole row of the refusal |
| `ImportLines.RejectsMeans` | src/smart_email_manager/services/imports.py:59-87 | every line that is not four fields between four dashes is invalid and keeps only its first part |
| `ImportLines.FourFieldsMeans` | src/smart_email_manager/services/imports.py:55 | a line splits into four parts exactly when it is written out of four fields that do not run into a separator, and then into those |
| `ImportLines.StripMeans` | src/smart_email_manager/services/imports.py:55 | a stripped text is one piece of the original with only spaces around it and none at its ends |
| `ImportLines.NumbersIncrease` | src/smart_email_manager/services/imports.py:91 | exactly the lines that are not blank are kept, stripped, each under its own line number, in increasing order |
| `ImportLines.MarkRepeats` | src/smart_email_manager/services/imports.py:93-101 | a line becomes a conflict exactly when it is valid and an earlier valid line has its email; every other line is unchanged |
| `ImportLines.ParseImportContent` | src/smart_email_manager/services/imports.py:90-102 | each line that is not blank is read once, stripped, under its number from one on and in order, with repeats marked; valid lines have pairwise distinct emails |
| `ImportLines.FirstStaysValid` | src/smart_email_manager/services/imports.py:93-101 | no email is lost to deduplication: its first line stays valid |
| `ImportBatches.PlanIsFresh` | src/smart_email_manager/services/imports.py:144-153 | valid planned items have pairwise distinct addresses that no account or alias holds |
| `ImportBatches.PlanCountsAddUp` | src/smart_email_manager/services/imports.py:155-168 | valid, invalid and conflicting items add up to all |
| `ImportBatches.CountIsSize` | src/smart_email_manager/services/imports.py:155-168 | a counter of a batch is the number of its items in that status |
| `ImportBatches.Imports.PlanItems` | src/smart_email_manager/services/imports.py:144-153 | a planned item carries its line, is invalid exactly when the line is, valid exactly when the line is and no account or alias has its address, and a conflict otherwise |
| `ImportBatches.CommitStep` | src/smart_email_manager/services/imports.py:259-308 | settling one item keeps what the commit has established: later items are not disturbed by the accounts it creates |
| `ImportBatches.SettledCounts` | src/smart_email_manager/services/imports.py:310-312 | created, skipped and failed add up to the planned valid items |
| `ImportBatches.RollbackUndoesCommit` | src/smart_email_manager/services/imports.py:324-350 | deleting what the batch created and nobody touched restores the table the commit found |
| `ImportBatches.Imports.CreateImportBatch` | src/smart_email_manager/services/imports.py:121-198 | a new batch reports how many items are valid, invalid and in conflict and nothing settled, or the batch made earlier under the same key is returned |
| `ImportBatches.Imports.CommitItem` | src/smart_email_manager/services/imports.py:262-308 | skips an item whose address an account or alias has, and otherwise creates one account on version one under a new id, or fails and leaves the table alone, as storing it works out |
| `ImportBatches.Imports.CommitItems` | src/smart_email_manager/services/imports.py:259-308 | the loop settles every item by the table it started from and only adds accounts at addresses nobody held |
| `ImportBatches.Imports.CommitNext` | src/smart_email_manager/services/imports.py:259-308 | one turn of the loop settles item n, skipping what is not valid or has no address, and keeps the progress of the commit |
| `ImportBatches.Imports.CommitImportBatch` | src/smart_email_manager/services/imports.py:240-321 | every valid item is skipped, failed or created by the addresses taken before the commit and by whether storing works; the table gains exactly the created accounts; each counter is the number of such items; partial exactly when some but not all items created an account, failed when none did and one failed; harmless when repeated |
| `ImportBatches.Imports.RollbackItems` | src/smart_email_manager/services/imports.py:333-346 | the loop undoes exactly the items whose account exists on its first version, deletes those accounts and no others, and counts the rest |
| `ImportBatches.Imports.RollbackImportBatch` | src/smart_email_manager/services/imports.py:324-350 | exactly the accounts its items created that are still on version one leave the table, exactly their items are rolled back, and the batch ends rolled back exactly when no creation is left |
| `ImportBatches.Imports.CommitThenRollback` | src/smart_email_manager/services/imports.py:240-350 | a commit rolled back at once leaves the accounts as they were, whatever failed in between |
| `RowOrder.ListingIsExact` | src/smart_email_manager/services/accounts.py:140 | the descending listing holds every row once |
| `RowOrder.FirstNByRank` | src/smart_email_manager/services/accounts.py:140 | a row is among the first n exactly when fewer than n rows sort before it |
| `AccountPages.PageIsExact` | src/smart_email_manager/services/accounts.py:66-148 | a page is descending and within the limit; with no next cursor it left nothing behind, with one it left exactly what sorts past it |
| `AccountPages.PageInColumns` | src/smart_email_manager/services/accounts.py:137-148 | a page holds the smaller of the limit and the rows past the cursor, descending by creation time and then id; what it leaves is older than all it returns; the next cursor is its last row exactly when something is left |
| `AccountPages.WalkDescends` | src/smart_email_manager/services/accounts.py:137-148 | a walk over a table that changes between pages is strictly descending, so no row comes twice |
| `AccountPages.WalkIsSound` | src/smart_email_manager/services/accounts.py:137-148 | every row returned was in the table at some page the walk fetched |
| `AccountPages.WalkIsComplete` | src/smart_email_manager/services/accounts.py:137-148 | a finished walk misses no row that matched throughout, whatever was inserted or deleted meanwhile |
| `AccountPages.FewerRemain` | src/smart_email_manager/services/accounts.py:137-148 | each page with a successor uses up exactly limit rows, so a walk of a fixed table ends |
| `AccountPages.FixedWalkIsListing` | src/smart_email_manager/services/accounts.py:137-148 | on a fixed table the pages concatenate to the whole sorted filter result |
| `AccountPages.EveryAccountOnce` | src/smart_email_manager/services/accounts.py:75-148 | an account that exists and matches at every page a finished walk fetched is returned exactly once, whatever else changes between pages and whatever limit each page asks for |
| `BulkMutation.PredictionIsExact` | src/smart_email_manager/services/accounts.py:405-449 | with disjoint tag lists the predicted accounts are exactly those whose lifecycle, group, tags or forwarding flag differ afterwards |
| `BulkMutation.PredictsExactlyIffDisjoint` | src/smart_email_manager/services/accounts.py:327-337 | the prediction is exact on every database if and only if no tag is both added and removed |
| `BulkMutation.SecondRunIsIdle` | src/smart_email_manager/services/accounts.py:310-358 | with disjoint tag lists a second run changes nothing and predicts nothing |
| `BulkMutation.OthersUntouched` | src/smart_email_manager/services/accounts.py:322-329 | accounts not predicted keep their row, and accounts outside the selection keep everything |
| `BulkMutation.Bulk.BulkChangedAccountIds` | src/smart_email_manager/services/accounts.py:405-449 | the collecting passes return exactly the selected accounts with another lifecycle or group, a missing added tag, a present removed tag, or another forwarding flag |
| `BulkMutation.Bulk.BulkMutateAccounts` | src/smart_email_manager/services/accounts.py:310-379 | refused exactly on an unknown group or tag; otherwise every column of the three tables afterwards, with the version raised exactly on changed rows, and the reported counts |
| `BulkMutation.Bulk.CreateBulkPreview` | src/smart_email_manager/services/bulk.py:36-98 | which refusal a preview meets, what it freezes for 900 seconds, and the matched, eligible, skipped and dangerous counts it announces |
| `BulkMutation.Bulk.ExecuteBulkPreview` | src/smart_email_manager/services/bulk.py:101-142 | runs a preview once, strictly before it expires, on exactly the accounts it froze; each refusal is exactly characterised and changes nothing |
| `BulkMutation.Bulk.PreviewThenExecute` | src/smart_email_manager/services/bulk.py:74-142 | on a database nothing else touched the execution updates as many accounts as the preview announced, and a second execution is refused |
| `RetainedMail.PruneIsExact` | src/smart_email_manager/services/retention.py:244-264 | the two deletes leave exactly other accounts and, inside the age cutoff, the first rows by stored text and id, unchanged |
| `RetainedMail.KeepsNewestIffOrdersAgree` | src/smart_email_manager/services/retention.py:254-260 | pruning keeps the newest by date, under every limit, if and only if text order agrees with date order on the rows of the account inside the cutoff |
| `RetainedMail.NewerHeaderIsLost` | src/smart_email_manager/providers/imap.py:454 | of two mail-header dates five days apart, a limit of one deletes the newer message, because its weekday sorts lower |
| `RetainedMail.SurvivorsAreMax` | src/smart_email_manager/services/retention.py:253-262 | the account keeps all its rows inside the cutoff, or exactly max_messages of them |
| `RetainedMail.Cache.CacheMailPage` | src/smart_email_manager/services/retention.py:68-107 | every listed message has the one row with its account, folder, id and id mode, telling what the last such message said, with the body stored before; rows no message is about are unchanged |
| `RetainedMail.Cache.CacheMailDetail` | src/smart_email_manager/services/retention.py:110-155 | stores the body under its key and touches no other row |
| `RetainedMail.Cache.PruneRetainedMail` | src/smart_email_manager/services/retention.py:244-264 | rows of other accounts stay, and of this one those synced since the cutoff with fewer than max such rows ahead by larger text and then larger id; the result is the number of rows removed |
| `Schedules.OneJobPerSlot` | src/smart_email_manager/services/schedules.py:148-182 | in any run, with any edits and delays, two firings share a job exactly when they fired the same slot of the same schedule |
| `Schedules.SlotsRise` | src/smart_email_manager/services/schedules.py:92-182 | if edits read the clock no earlier than any slot the schedule has a job for, its fired slots strictly increase in any run and every firing has its own job |
| `Schedules.EditKeepsRisingIff` | src/smart_email_manager/services/schedules.py:98-112 | an edit keeps the slots rising, whatever the expression, if and only if it read the clock no earlier than any slot already fired; and it can make a fired slot come due again if and only if it did not and leaves the schedule enabled |
| `Schedules.MissedSlotsAreSkipped` | src/smart_email_manager/services/schedules.py:177-182 | if edits read the clock no earlier than the last run, each fired slot is past the moment of the firing before it, so slots missed in between are passed over |
| `Schedules.EditKeepsCaughtUpIff` | src/smart_email_manager/services/schedules.py:98-112 | an edit keeps a schedule past its last run, whatever its expression, if and only if it read the clock no earlier than that run |
| `Schedules.CurrentEditsAreTimely` | src/smart_email_manager/services/schedules.py:98-112 | edits that read the clock when they take effect meet both conditions in every run |
| `Schedules.LateEditRepeatsTheSlot` | src/smart_email_manager/services/schedules.py:98-112 | otherwise the same slot can come due again, and its key then returns the job it already has |
| `Schedules.RunTakesTheEarliest` | src/smart_email_manager/services/schedules.py:133-187 | a run leaves due exactly what it did not take, and nothing if at most limit schedules were due |
| `Schedules.FireAllMeans` | src/smart_email_manager/services/schedules.py:148-182 | what firing a batch leaves in the rows, the jobs and the log, column by column |
| `Schedules.Service.WriteSchedule` | src/smart_email_manager/services/schedules.py:92-124 | which refusal a request meets; otherwise the row has the new expression and flag and the next slot after the clock, an edit keeps the last run and job, a new row has none, and nothing else changes |
| `Schedules.Service.SelectDue` | src/smart_email_manager/services/schedules.py:140-146 | the first limit enabled schedules whose slot has come, by slot and then id; one is left out only when the batch is full of earlier ones |
| `Schedules.Service.RunDueSchedules` | src/smart_email_manager/services/schedules.py:133-187 | each schedule of the batch keeps its expression and flag, ran now, waits for the slot after now and names the job stored under its id and old slot, an existing one if there was one; the log gains the batch in order; nothing else changes |

## Left out

- Isolation below serialisable: cancel, pause and resume read the job without a lock, and leasing does not re-check the job after its query, so the races this opens are not modelled.
- Unique-constraint races: two first claims of one delivery, or two equal idempotency keys, inserted at the same moment.
- At-least-once sending: a scan that dies after the send and before the record repeats that send later; what is counted is claims and success rows.
- ForwardingScan.Forwarding.RunForwardingAccount: compares with the cursor the scan read; an overlapping scan may have moved it on, and is then set back. The histories of `ForwardingCoverage` include this.
- ForwardingCoverage.SkippedOrDelivered: has a fixed set of destinations; one enabled later gets only what comes after the cursor.
- Folders of a delivery: the key has none, so message ids are taken to be unique across folders.
- JobQueue.RunOnce: a handler that records its outcome and then still raises is not modelled; its retry is refused.
- Deleting accounts, jobs or destinations under a running protocol, with the cascades of the foreign keys; projects only model that an account no longer exists.
- Version bumps outside bulk changes: some edits, such as deleting the group of an account, do not raise `row_version`, so the rollback guard cannot see them.
- Existence checks without state: the group of an import batch, the account of a proxy lookup.
- The stored cursor text (JSON in URL-safe base64) and its error for malformed input.
- Sort order, names, colours and descriptions of groups; a taken name is a parameter. `order` is whatever order the query lists groups in.
- Which hundred pausing jobs a pass fetches: `fetched` is an arbitrary subset of them.
- The first call of a worker pass, firing the due schedules: it is `Schedules.Service.RunDueSchedules`, and `RunOnce` starts after it.
- Idempotency keys of jobs created by clients, which are taken not to begin like those of schedules; a stored schedule payload is taken to stay valid.
- Results, error codes and texts, events, audit rows, health snapshots, encryption and key rotation, verification-code extraction.
- The bodies of cached messages other than text: attachments and read flags follow the same upsert.
- Web routes, schemas, the command line, the console, the extension and migrations.
