# Verified model of the school attendance service

This Dafny project models the parts of the repository whose correctness depends on order, interleaving
or exact text: tenant and system database contexts, nested transactions, the tenant request pipeline,
sessions, the long-running loops, the offline cache, and the scripts with an exact specification. It
proves properties of that model for all inputs, all runs and all interleavings.

`dafny verify dfyconfig.toml` checks everything (use `--resource-limit 2000000`).

## Reading order

- `SchoolIds`, `Connections`: school identifiers, and one PostgreSQL connection with settings that are
  local to a transaction, the row security policy, staged writes and named savepoints.
- `NestedTransactions`: the code inside one context as a tree of writes, nested transactions, re-entered
  contexts and caught failures; its run against savepoints compared with "a failed transaction undoes
  itself".
- `Contexts`: tasks, the inherited context store and the connection pools as one interleaved machine.
- `Membership`, `TenantRoute`, `RequestRuns`: who may act in a school, the pipeline of one request, and many
  requests at once on the interleaved machine.
- `Sessions`: session rows under concurrent lookups, late or lost updates, and deletion.
- `SmsWorker`, `GracefulShutdown`, `Retention`, `ServiceWorker`: loops and event handlers. Each has the
  imperative form of the source. The classes of `SmsWorker`, `GracefulShutdown` and `ServiceWorker` keep
  their state one that some run of the step functions reaches, so the results about all runs hold of it.
- `JsText`, `Translate`, `StatusTable`, `ReaderTokens`, `ClaimScanner`, `Debounce`, `ScaleDataset`,
  `LoadTest`: text and number algorithms, the last with `Doubles` for rounding. `Wrappers` holds the option type.

## What is assumed of the surroundings

- Row security is the policy of `drizzle/0007_hardened_rls_and_staged_data.sql`, as audited by
  `scripts/run-postgres-rls-suite.ts`: the system role with `app.is_system`, or the row's school equals the
  current setting, which must also look like a version 1-5 UUID. That pattern is narrower than the
  application's `isUuid`, so a context for another kind of UUID opens and then reaches no row.
- The query builder's nested transaction issues `savepoint sp<depth + 1>`, `release` on success and
  `rollback to` on failure, where the depth is that of the object the call is made on. PostgreSQL keeps a
  savepoint after a rollback to it, resolves a name to its most recent savepoint, refuses every statement of
  an aborted transaction until such a rollback, and turns COMMIT of an aborted transaction into a rollback
  without an error. What a transaction sets for itself (settings, read-only) is undone by a rollback to an
  earlier savepoint. The query builder and the server are not part of this repository.
- The server reads a UUID in either case as the same uuid value and prints it in lower case; what it makes
  of other texts is arbitrary.
- Clocks do not run backwards, a sleep lasts at least its time, and random tokens are never repeated.

## Properties that do not hold as one might expect

- **Nested `db.transaction`.** The db proxy sends every nested call to the context's own transaction, so all
  of them use one savepoint name. A failing transaction that contains another failing one rolls back to the
  inner savepoint and keeps its earlier writes (`DbNestingLosesRollback`). A context re-entered inside a
  nested transaction is handed the context's own transaction again, so nesting there on its handle fails in
  the same way (`ReenteredHandleLosesRollback`). For any code, every failed nested transaction undoes itself
  exactly when the latest savepoint of its name left inside it was made before it had staged a row, and then
  the run means what it seems to (`RunRefinesMeaning`). Through the db proxy, with nested transactions that
  begin with a write, that is exactly when no failing one contains a failing one (`DbExactlyWhenClean`);
  calls on the callback's own handle qualify when no context re-entered below one nests again
  (`HandleNamesGrow`).
- **A resolved context is not always a published one.** A context that resolves, and a request that is
  answered, published the writes of its meaning, if it has any, exactly when no write was refused outside
  every nested transaction; otherwise it published none (`ResolvedPublishesExactly`,
  `ReplyPublishesExactly`, with the failing cases `SwallowedFailureResolvesEmpty` and
  `SwallowedFailureStillReplies`).
- **A task that outlives its context** still holds the connection and can read another school's rows
  (`LeakedTaskReadsOtherSchool`). In every run a tenant task reaches rows outside its school exactly when its
  context has ended, its connection now serves an open context of another school, and the statement reaches
  any row (`StaleStatementsCrossExactly`); statements issued while their context is open are isolated,
  whatever such tasks do. A commit is the outcome of its own statements when none of them reached its
  transaction.
- **An error forwarded after the handler** does not mean that nothing was written: after a commit an error is
  forwarded exactly when sending the reply throws, and the writes stay (`ReplyOnlyAfterCommit`).
- **A school id in upper case** is not found in the session's own list, which is compared by text, and is
  decided by the current membership row instead (`SpellingMattersExactly`).
- **A repeated signal** ends the process before its drain is over, because each signal's handler runs once
  (`RepeatedSignalKills`).
- **Re-rendering the status table** changes nothing exactly when the table has no `$&` (`RenderTwice`).
- **Parameter values with braces** can make `translate` depend on the order of its parameters
  (`HoleInValueDependsOnOrder`).
- **Worker backoff** can poll sooner after a failure than after a success exactly when the configured
  interval is above a minute (`BackoffNeverBelowBase`).
- **A scan at time zero** is taken for "none accepted yet" (`ZeroIsNoTime`).
- **The computed rank of a percentile** is the exact one for the percentages the script asks for, in any
  rounding to nearest (`ComputedRankIsExact`), but not for all: at 7 percent of 100 latencies it is one too
  high (`SeventhPercentileIsOffByOne`).
- **Expected notification jobs** are matched exactly when the schools' remainders stay below one more job
  (`JobsAgainstExpected`).

## Model

| member | source | states |
|---|---|---|
| SchoolIds.UuidLayouts | src/lib/ids.ts:1-6 | the application's and the policies' id patterns, position by position |
| Connections.ReplayKeepsPermitted | drizzle/0007_hardened_rls_and_staged_data.sql:43-54 | after any statements, every row staged in the transaction or kept by a savepoint passed the policy |
| Connections.OnlyWrittenRows | src/db/index.ts:169-173 | whatever statements are issued, every row staged or kept by a savepoint is the row of one of the inserts or updates |
| Connections.WritesStageTheirRows | src/db/index.ts:169-173 | a history of row writes stages exactly its rows before the first refused write, in order, without updates of hidden rows, and is aborted exactly when one is refused |
| NestedTransactions.RunRefinesMeaning | src/db/index.ts:140-152 | for every tree of writes, nested transactions, re-entries and caught failures: each failed nested transaction undoes itself if and only if the latest savepoint of its name was made before it staged a row, and then outcome, writes, aborted state and remaining savepoints of the run are those of the snapshot meaning |
| NestedTransactions.CleanIsSafe | src/db/index.ts:140-152 | that condition holds when no failing transaction contains a failing one of the same savepoint name |
| NestedTransactions.HandleNamesGrow | src/db/index.ts:140-181 | nesting only through the callback's own handle, with no nested transaction in a context re-entered below one, never has that clash |
| NestedTransactions.ReenteredHandleLosesRollback | src/db/index.ts:163-169 | without that restriction the first write of a failed transaction is published, because a re-entered callback is handed the context's own transaction |
| NestedTransactions.DbRunCompares | src/db/index.ts:143-146 | through the db proxy the run's outcome always equals the meaning's, it never stages less, and strictly more as soon as a failing nested transaction contains a failing one |
| NestedTransactions.DbExactlyWhenClean | src/db/index.ts:143-146 | through the db proxy, with nested transactions that begin with a write, a context stages what the snapshot meaning says if and only if no failing nested transaction contains a failing one |
| NestedTransactions.DbNestingLosesRollback | src/db/index.ts:143-146 | the failing case: the first write of a failed db.transaction is published when it held a caught failing one |
| NestedTransactions.ReenterIsInline | src/db/index.ts:163-181 | re-entering the active context at any depth equals writing its body in place on the context's own transaction, no savepoint, shared fate; any other nested context throws with no statement issued |
| NestedTransactions.ContextPublishes | src/db/index.ts:169-173 | for code that is safe in that sense, commit publishes exactly the writes under no failed nested transaction, rollback nothing |
| NestedTransactions.PublishesOnlyWrittenRows | src/db/index.ts:169-173 | whatever the code, a context publishes only rows the code writes |
| NestedTransactions.WritesPublishTheirRows | src/db/index.ts:169-173 | code of writes none of which is refused publishes exactly the rows it names, in order, without updates of hidden rows |
| NestedTransactions.AbortedExactlyWhenRefused | src/db/index.ts:140-173 | a transaction ends aborted if and only if a write was refused outside every nested transaction on the executed path |
| NestedTransactions.ResolvedPublishesExactly | src/db/index.ts:169-173 | a context that resolves publishes its meaning's writes, if any, if and only if no write was so refused, and nothing otherwise |
| NestedTransactions.LoudMeansCommitted | src/db/index.ts:169-173 | code that outside its nested transactions catches no statement failure never resolves aborted, whatever it swallows inside them |
| NestedTransactions.SwallowedFailureResolvesEmpty | src/db/index.ts:169-173 | the failing case: a context resolves with none of its accepted writes published |
| NestedTransactions.StatementsReplay | src/db/index.ts:140-152 | the statements a run sends, replayed on the connection, give the run |
| Contexts.TenantIsolation | src/db/index.ts:140-186 | over every interleaving: rows touched inside withTenantContext by a statement issued while it is open belong to its school, statements outside reach none, a context keeps one mode and school through all nesting, connections in the pool carry no setting, and the table is the initial rows plus the commits in order, each of its own school |
| Contexts.StaleStatementsCrossExactly | src/db/index.ts:143-173 | over every run, what a tenant task's query returns or write changes is outside its school if and only if its context has ended, its connection is checked out to an open context of another school, and it reaches any row |
| Contexts.ContextOpens | src/db/index.ts:161-186 | in every run a task outside any context, with an idle connection of the right pool, is after its call and settings inside an open system context, or the context of a UUID school, on that connection |
| Contexts.NewContextReaches | src/db/index.ts:169-186 | a query there reaches exactly the committed rows of the school, or in a system context on the system pool all of them |
| Contexts.QueryReachesExactly | drizzle/0007_hardened_rls_and_staged_data.sql:29-55 | a query in an open context reaches exactly the rows of the table and its own transaction that its mode may see |
| Contexts.WriteReachesExactly | drizzle/0007_hardened_rls_and_staged_data.sql:29-55 | a write in an open context stages exactly its row when the context is not aborted or read-only and its mode may see the row, and nothing otherwise |
| Contexts.NestedCallsExactly | src/db/index.ts:161-181 | a call inside a context runs in it exactly for the same mode and school, and is otherwise refused with the error of its case |
| Contexts.FinishPublishes | src/db/index.ts:169-186 | a rolled back context publishes nothing, a committed one only rows its statements write |
| Contexts.FinishChangesOnly | src/db/index.ts:169-186 | a finished context's connection is idle with nothing set, its task outside any context, and nothing else changes |
| Contexts.ReadOnlyTakes | src/http/tenantRoute.ts:79 | the read-only statement makes its own transaction read-only and changes nothing else |
| Contexts.RollbackRestores | src/db/index.ts:143-146 | a rollback to a savepoint restores what the transaction had set when it was made |
| Contexts.CommitsAreAtomic | src/db/index.ts:161-186 | over every interleaving each commit whose transaction no task of an ended context reached publishes what its own statements alone produce on a fresh transaction, and nothing if it was made read-only |
| Contexts.CommitPublishesMeaning | src/db/index.ts:140-186 | such a commit whose statements are those of some safe code publishes that code's snapshot meaning, whatever ran in between |
| Contexts.ReachKeeps | src/db/index.ts:161-186 | every step of every run keeps the ownership, settings, store and history invariants |
| Contexts.LiveRoute | src/db/index.ts:147-150 | a statement of a task inside an open context goes to that context's connection, set for that context or for nothing; outside, to an application connection with nothing set |
| Contexts.LeakedTaskReadsOtherSchool | src/db/index.ts:169-173 | a run in which a task that outlived its context of school A reads a row of school B |
| Membership.AuthenticateExactly | src/auth/session.ts:90-139 | a lookup that found its row returns a context exactly for an active user with a platform role, a super administrator membership, or an active membership where the session needs one |
| Membership.SuperRole | src/auth/session.ts:116-150 | the session's user is a super administrator exactly by the own platform role or, having none, by an active SUPER_ADMIN membership in any active school |
| Membership.SessionHolds | src/auth/session.ts:100-155 | what a session holds: the user, the platform role, and exactly the active memberships in active schools |
| Membership.GrantedExactlyWhenEntitled | src/auth/session.ts:179-217 | membership is granted exactly to super administrators, to active members at login with an allowed role where the text is the school's own, and otherwise by a non-suspended database row of the uuid the text denotes with an allowed role, the school's own status unchecked |
| Membership.GrantedRole | src/auth/session.ts:185-216 | the role granted is a super administrator's, the one held at login, or the current row's; without being a super administrator it is one of the roles asked for |
| Membership.RolesAsked | src/auth/session.ts:194-196 | a route without roles admits every listed member, one with roles only those |
| Membership.RefusalReason | src/auth/session.ts:190-214 | which error a refused user gets |
| Membership.SpellingMattersExactly | src/auth/session.ts:189-204 | for a UUID not in lower case: both spellings are answered alike if and only if the session's list does not matter or agrees with the current row |
| TenantRoute.Exchange.Check | src/http/tenantRoute.ts:45-76 | the checks in order, the request fields they set, and the one error forwarded when one fails |
| TenantRoute.Exchange.Transact | src/http/tenantRoute.ts:78-81 | the handler runs once in the school's context, its table effect is that context's, and only a writing route whose handler returned adds rows, all of that school |
| TenantRoute.HandlerContext | src/http/tenantRoute.ts:78-81 | a handler acts as the application in its school, read-only where the route does not write, and may re-enter its own school's context and no other |
| TenantRoute.Exchange.Handle | src/http/tenantRoute.ts:43-105 | the whole request: events in order, final table, request fields, headers sent before, by its handler or by its own reply, and the status, content and headers of that reply |
| TenantRoute.AdmittedOnlyEntitled | src/http/tenantRoute.ts:45-76 | a request is admitted only for the active, entitled user in the resolved well-formed school after validation passed, with that user's role there, one the route asks for |
| TenantRoute.HandlerRunsOnlyEntitled | src/http/tenantRoute.ts:45-81 | a handler runs only for such a user and school |
| TenantRoute.ReplyOnlyAfterCommit | src/http/tenantRoute.ts:78-103 | at most one reply, last, right after the commit, with the handler's status or 200, its body or data, and its headers; a request that does not commit forwards an error and leaves the tables as they were; one that commits forwards an error if and only if sending its reply throws, and its writes stay |
| TenantRoute.ReadOnlyRouteChangesNothing | src/http/tenantRoute.ts:79 | a writes-false route never changes the tables, whatever its handler does and catches |
| TenantRoute.RequestWritesOneSchool | src/http/tenantRoute.ts:68-81 | rows a request adds belong to the school it was admitted to, on a writing route, after its handler ran and committed |
| TenantRoute.ReplyPublishesExactly | src/http/tenantRoute.ts:78-103 | a request whose safe handler committed has its meaning's writes in the tables, if any, if and only if none was refused outside every nested transaction, and none of them otherwise |
| TenantRoute.SwallowedFailureStillReplies | src/http/tenantRoute.ts:78-103 | the failing case: an answered request with none of its accepted writes published |
| RequestRuns.NewRowsAreAuthorised | src/http/tenantRoute.ts:43-105 | over every interleaving of requests, their tasks and contexts opened by any other code, a new row was published by a system context or one of its own school; if a request opened it, its user is entitled to that school and, unless a task of an ended context reached the transaction, its route may write |
| RequestRuns.ReadOnlyRoutesCommitNothing | src/http/tenantRoute.ts:78-81 | over every such interleaving the context of a writes-false route commits nothing unless a task of an ended context reached its transaction |
| RequestRuns.InterleavedAsAlone | src/http/tenantRoute.ts:78-81 | a request committed among others, its transaction reached by no task of an ended context, publishes what the same request served alone adds to the tables |
| RequestRuns.RunKeeps | src/http/tenantRoute.ts:45-81 | every step of every run keeps each context a request opened tied to that admitted request and its school, read-only at its commit exactly when the route does not write |
| RequestRuns.RequestOpensItsContext | src/http/tenantRoute.ts:78 | an admitted request with an idle connection opens the context of its school, and that context is the request's |
| RequestRuns.ReadOnlyIsIssued | src/http/tenantRoute.ts:79 | in it the read-only statement is issued and takes effect exactly for a route that does not write |
| RequestRuns.ReadOnlyComesFirst | src/http/tenantRoute.ts:79-80 | before that nothing the handler tries has an effect |
| Sessions.AuthSessions.CreateSession | src/auth/session.ts:41-61 | inserts the row expiring after 24 hours, live from the start |
| Sessions.AuthSessions.FindSession | src/auth/session.ts:67-81 | returns the row exactly when it exists, is before its absolute limit and less than the idle window after its last access |
| Sessions.AuthSessions.Bump | src/auth/session.ts:83-88 | brings no row back, changes no other row and no limit, and keeps the session findable for a whole idle window |
| Sessions.AuthSessions.InvalidateSession | src/auth/session.ts:159-165 | afterwards no lookup finds the row at any time, and every other lookup is as before |
| Sessions.EverySessionIsChained | src/auth/session.ts:33-88 | in every run, bumps lost, late or racing, a passing lookup is under 24 hours after creation and passing lookups reach back to the creation with gaps under 2 hours |
| Sessions.LookupTakesTheClock | src/auth/session.ts:66-88 | a lookup is decided with the clock of its beginning, however late it is answered, and succeeds exactly when the row is then before its limit and not idle |
| Sessions.NothingPassesAfterADay | src/auth/session.ts:66-81 | a lookup that begins a day or more after the creation never passes, in any run |
| Sessions.CreationTakesTheClock | src/auth/session.ts:45-58 | a session expires a day after the clock of its creation |
| Sessions.BumpSlides | src/auth/session.ts:83-88 | an update that arrives slides that row's idle window to its lookup's clock and changes nothing else; a lost one changes no row |
| Sessions.RowsChangeOnly | src/auth/session.ts:41-165 | only a creation, an update and a deletion change rows, each its own |
| Sessions.DeletionIsPermanent | src/auth/session.ts:159-165 | once deletion commits no later lookup of the token passes, with lookups and bumps in flight |
| Retention.PickBatch | src/jobs/retention.ts:18-23 | a limited delete takes some expired rows, all of them if they fit |
| Retention.Purge | src/jobs/retention.ts:15-28 | the batch loop ends; whatever rows each batch takes, together they are the school's rows expired at the last cutoff, and the count is theirs |
| Retention.ApplyPolicy | src/jobs/retention.ts:14-71 | one policy: both tables, both counts, and an audit entry exactly for each non-zero count |
| Retention.RunRetention | src/jobs/retention.ts:6-75 | every selected policy is applied once and reported, audit entries match, and each table loses exactly what the policies purge |
| Retention.SelectedPolicies | src/jobs/retention.ts:7-11 | without a target every policy is selected, with one exactly that school's |
| Retention.SchoolKeepsUnexpired | src/jobs/retention.ts:14-71 | a school with a policy keeps exactly its rows not expired at its cutoff; a school without one keeps all |
| SmsWorker.Process.OnQueueTimer | sms-worker.ts:27-29 | a pending timer always begins the next batch: none is in flight and shutdown has not begun |
| SmsWorker.Process.BatchEnded | sms-worker.ts:30-50 | after a batch exactly one timer is pending, with the backoff of the failures since the last success, or none after shutdown began |
| SmsWorker.Process.SweepEnded | sms-worker.ts:62-64 | after a reconciler sweep the next one may start, and the queue is left alone |
| SmsWorker.Process.Shutdown | sms-worker.ts:83-97 | whatever happens during its sleeps the shutdown exits after a bounded number of checks, with nothing in flight or its five seconds over, starts nothing and leaves no timer; when it has begun before it does nothing |
| SmsWorker.LoopIsAlive | sms-worker.ts:27-50 | in every run at most one batch is in flight, until shutdown exactly one of batch and timer exists, and the timer's delay is the backoff of the failures since the last success |
| SmsWorker.NothingStartsAfterShutdown | sms-worker.ts:28-48 | once shutdown began no batch starts and no timer is pending |
| SmsWorker.ExitWaits | sms-worker.ts:91-97 | the process exits only with nothing in flight or at a check past the deadline |
| SmsWorker.BackoffGrowsInARun | sms-worker.ts:40-41 | delays do not shrink during a failure run and stay within a minute |
| SmsWorker.BackoffDoubles | sms-worker.ts:41 | the delays in full: the interval, then 2, 4, 8 and 16 times it, at most a minute |
| SmsWorker.BackoffNeverBelowBase | sms-worker.ts:7-41 | delays are never below the configured interval if and only if that is at most a minute |
| GracefulShutdown.CountsAndOrders | src/http/shutdown.ts:12-67 | in every run, signals repeated or not, the counter is the number of tracked open requests and the shutdown acts happen once each and in order |
| GracefulShutdown.ResourcesWait | src/http/shutdown.ts:44-55 | resources start closing only with no open request or past the deadline, and connections are forced only in the second case |
| GracefulShutdown.WaitsForOpenRequests | src/http/shutdown.ts:46 | the wait goes on exactly while a request is open and the deadline has not come |
| GracefulShutdown.ToldWhileDraining | src/http/shutdown.ts:17-24 | exactly requests arriving after draining began are told to reconnect |
| GracefulShutdown.RepeatedSignalKills | src/http/shutdown.ts:65-66 | a living process is ended before its shutdown is done if and only if a signal arrives whose kind arrived before |
| GracefulShutdown.Process.InflightTracker | src/http/shutdown.ts:17-24 | counts the request, the counter stays the number of open ones, and it is told to reconnect exactly when draining started |
| GracefulShutdown.Process.Shutdown | src/http/shutdown.ts:29-63 | whatever arrives during its sleeps, the body ends within the drain bound or with the process ended by a repeated signal, forces connections only after the full drain time, and does nothing the second time |
| ServiceWorker.Worker.OnActivate | public/sw.js:17-26 | schedules deletion of every cache but the current one and touches nothing else |
| ServiceWorker.Worker.OnFetch | public/sw.js:28-48 | ignores other methods and the API, serves a stored entry that is good for its key with a refresh, or leaves a miss to the network; the storage is unchanged |
| ServiceWorker.Worker.OnFetchReply | public/sw.js:48-53 | passes the network's answer on and prepares to store only a status 200 that is good for its key |
| ServiceWorker.Worker.OnFetchFails | public/sw.js:54-57 | a failed fetch of a page gets the cached start page if there is one, anything else a 503 |
| ServiceWorker.Worker.OnRefreshReply | public/sw.js:38-43 | a background answer is prepared for storing exactly when its status is 200 |
| ServiceWorker.CacheIsSound | public/sw.js:8-60 | from well-formed earlier caches, after any interleaving every stored entry and every cached answer is a successful network answer for its own same-origin, non-API key |
| ServiceWorker.WriteStores | public/sw.js:41-51 | a pending write stores its answer in the current cache under its own key and changes nothing else |
| ServiceWorker.InstallStoresAssets | public/sw.js:8-15 | installing with good answers stores the three assets in the current cache, otherwise nothing; the cache is opened either way |
| ServiceWorker.DeletionDrops | public/sw.js:21 | a due deletion removes that cache with its entries and nothing else |
| ServiceWorker.ApiUrls | public/sw.js:30 | which URLs are the API's |
| ServiceWorker.ActivationLeavesCurrent | public/sw.js:17-26 | when an activation's deletions are done only the current cache can be left, whatever ran meanwhile |
| JsText.LiteralExactly | src/i18n/index.ts:23 | a replacement text stands for itself in every use exactly when it has no directive |
| JsText.DirectivesStandFor | scripts/render-status-table.ts:31-34 | what each directive of a replacement text stands for |
| Translate.TranslateText | src/i18n/index.ts:18-27 | the loop's result is the fold of its replacements over the fallback text and, for templates without nested braces and parameters in whose values no later hole can begin, the one-pass substitution |
| Translate.BaseTextFallsBack | src/i18n/index.ts:19-20 | the language's entry, else the English one, else the key; an empty entry counts as missing |
| Translate.SequentialIsSimultaneous | src/i18n/index.ts:22-24 | replacing such parameters one after another equals filling all holes at once |
| Translate.ParsePrints | src/i18n/index.ts:22-24 | every text without nested braces is such a template |
| Translate.OrderIsIrrelevant | src/i18n/index.ts:22-24 | any two orders that both have that property give the same text |
| Translate.UnknownHolesStay | src/i18n/index.ts:22-24 | placeholders no parameter names are left as they are |
| Translate.HoleInValueDependsOnOrder | src/i18n/index.ts:22-24 | with a placeholder in a value the order does matter |
| StatusTable.FindIsLeftmostLongest | scripts/render-status-table.ts:31-32 | first start marker to last end marker is the regular expression's leftmost, longest match |
| StatusTable.MissingExactly | scripts/render-status-table.ts:26-34 | the script gives up exactly when a marker is missing; without a start before an end it writes the text back |
| StatusTable.RenderIsLocal | scripts/render-status-table.ts:31-34 | text before the first start and after the last end marker is kept, the expanded table stands between |
| StatusTable.FoundAgain | scripts/render-status-table.ts:31-34 | no marker straddles the seams: the new text's match is where the old one was, whatever the table |
| StatusTable.RenderTwice | scripts/render-status-table.ts:31-34 | a second rewrite with the same table changes nothing if and only if the table has no match directive |
| StatusTable.LiteralTable | scripts/render-status-table.ts:31-34 | a table without directives is inserted as it is and re-rendering is idle |
| ReaderTokens.DecodeEncode | src/auth/readerTokens.ts:22-23 | decoding undoes base64url encoding (section 5 of RFC 4648) for any number of bytes |
| ReaderTokens.TokensAreFaithful | src/auth/readerTokens.ts:4-23 | 32 bytes always make the prefix and 43 alphabet characters, different bytes different tokens |
| ReaderTokens.ParsesExactly | src/auth/readerTokens.ts:27-33 | a header yields a token exactly when it is outer white space, Bearer in any case, white space and that well-formed token (section 2.1 of RFC 6750) |
| ReaderTokens.SchemeInAnyCase | src/auth/readerTokens.ts:29 | the scheme is the word bearer, each letter in either case |
| ReaderTokens.TokenRoundTrip | src/auth/readerTokens.ts:22-33 | the token made from 32 bytes is read back from every such header and identifies the bytes |
| ClaimScanner.Scan | scripts/verify-product-claims.ts:51-68 | reports every flagged line and rule exactly once, in reading order |
| ClaimScanner.MarkerThatCounts | scripts/verify-product-claims.ts:55-56 | the line's own marker counts, and only without one that of the line before |
| ClaimScanner.ReportedExactly | scripts/verify-product-claims.ts:52-66 | a line is flagged exactly when not allowed and the claim is on it, or on neither line alone but on both together |
| ClaimScanner.NoClaimEscapes | scripts/verify-product-claims.ts:52-66 | a matching window whose first line allows nothing is reported at one of its lines if and only if the claim is on the first line, or not wholly on the second, or not allowed there |
| ClaimScanner.NextLineMarkerHidesWindow | scripts/verify-product-claims.ts:55-60 | a marker on the second line alone can hide the window at both |
| Debounce.CountScans | scripts/rfid-resilience-model-test.ts:99-111 | accepted counts the greedy choice, accepted and blocked make up all scans |
| Debounce.AcceptedIsSpaced | scripts/rfid-resilience-model-test.ts:102-111 | accepted scans are scans, in order, pairwise at least 30 seconds apart |
| Debounce.BlockedAreClose | scripts/rfid-resilience-model-test.ts:102-111 | every blocked scan is within 30 seconds after an accepted one |
| Debounce.GreedyIsOptimal | scripts/rfid-resilience-model-test.ts:102-111 | no selection of scans with that spacing is longer |
| Debounce.ZeroIsNoTime | scripts/rfid-resilience-model-test.ts:102-105 | with time zero allowed the spacing holds if and only if the scan after a first zero is far enough |
| ScaleDataset.GenerateStudents | scripts/generateScaleDataset.ts:203-292 | batches of consecutive students, each full but the last, none above the limit, for any batch size |
| ScaleDataset.InsertedOnce | scripts/generateScaleDataset.ts:203-292 | every table receives students 1 to n once each and in order, jobs every fiftieth |
| ScaleDataset.RowsByNumber | scripts/generateScaleDataset.ts:213-230 | which section and roll each inserted student has |
| ScaleDataset.BatchesAreParallel | scripts/generateScaleDataset.ts:275-280 | the five parallel inserts of a flush carry the same students |
| ScaleDataset.RollsAreGapFree | scripts/generateScaleDataset.ts:213-230 | among the inserted rows a section's rolls are exactly 1 to the number of its rows |
| ScaleDataset.RollsAreUnique | src/db/schema.ts:248-253 | no two inserted rows share a section and a roll |
| ScaleDataset.SectionsAreBalanced | scripts/generateScaleDataset.ts:213 | the numbers of inserted rows of any two sections differ by at most one |
| ScaleDataset.JobsAgainstExpected | scripts/generateScaleDataset.ts:79 | all schools make at most the expected jobs, and exactly as many if and only if their remainders stay below fifty |
| LoadTest.Scenario.Run | scripts/runFullScaleLoadTest.ts:443-473 | every request issued is counted once and leaves one latency |
| LoadTest.ExpectedCounts | scripts/runFullScaleLoadTest.ts:460-464 | exactly the expected completions count as successes |
| LoadTest.SortKeepsCounts | scripts/runFullScaleLoadTest.ts:476 | sorting orders the sample and keeps how many lie on either side of any value |
| LoadTest.PercentileIsNearestRank | scripts/runFullScaleLoadTest.ts:478-495 | each percentile the script reports (50, 95, 99), of up to 2^40 latencies and with every operation rounded, is a sample, and the only value that covers the percentage while the samples below it do not |
| LoadTest.ComputedRankIsExact | scripts/runFullScaleLoadTest.ts:480 | for those percentages the rank computed in rounded arithmetic is the exact one |
| LoadTest.SeventhPercentileIsOffByOne | scripts/runFullScaleLoadTest.ts:480 | for others it need not be: 7 percent of 100 latencies gives rank 8 |
| LoadTest.PercentilesAreMonotone | scripts/runFullScaleLoadTest.ts:478-495 | larger percentages, called or not, never give smaller latencies, with every operation rounded |

## Left out

- HTTP, PostgreSQL, Redis, files, timers and the network themselves: only their effects named above appear, as parameters or steps.
- Pool creation and the connection budget in `src/db/index.ts`: single-branch set-up code; the budget also leaves out the separate authentication pool.
- Row contents, joins and the policies of tables that are not plain school-tagged tables; a write is a row version with a school and an identity. Tables of migration 0026 use a policy without the role test and are not covered by the isolation result.
- RequestRuns.NewRowsAreAuthorised: who may use the contexts that other routes, services and workers open themselves is not modelled; such a row is only shown to be of its context's school.
- Parallel sibling `db.transaction` calls inside one context: nested transactions are run one after the other, as a tree.
- Contexts.CommitsAreAtomic: only for commits whose transaction no task of an ended context reached, because such a task can add statements to a transaction that is not its own.
- NestedTransactions.DbExactlyWhenClean: for nested transactions that begin with a write, where a final state can be judged by failures alone; RunRefinesMeaning has the exact condition for all code.
- TenantRoute.Exchange.Handle: default headers of the web framework, and requests that arrive inside an already open context, are not modelled; what resolveSchoolId, schema validation and the token lookup return is arbitrary.
- Translate.TranslateText: parameter names with regular expression syntax are not modelled; numbers arrive as printed.
- StatusTable.RenderIsLocal: the table text is a parameter; building its rows is plain joining.
- ClaimScanner.Scan: one file at a time; the regular expressions and the marker syntax are parameters, file selection and snippets are left out.
- ReaderTokens.TokenRoundTrip: the pepper and the keyed hash of the token are not modelled.
- LoadTest.PercentileIsNearestRank: the exponent limits of the number format are left out, and sorting is a function on values, not in place.
- Retention.Purge: a day is 24 hours and no rows arrive while it runs.
- ServiceWorker.CacheIsSound: an older version of the worker still writing its own cache, redirects and the Vary header are not modelled.
- The remaining scenarios of the resilience script, user interface, dictionaries, role tables and environment parsing: finite facts or plain presentation.
