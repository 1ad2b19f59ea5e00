# drawbar: a verified model of its protocols and state machines

drawbar runs Gitea and Forgejo workflow jobs as Kubernetes Jobs. Its difficult parts are small
protocols that must hold under every interleaving, retry and lost reply. This project models them in
Dafny and proves what they promise. `dafny verify dfyconfig.toml` checks everything.

| modules | what they model |
|---|---|
| `FetchProtocol` | the poller's version cursor, idempotency key and backoff, against a forge with a FIFO queue and a lossy network |
| `PollLoop` | `Poller.Run`, its handler goroutines and `Shutdown`, one step per shared action |
| `Masking`, `LogStream` | secret masking, workflow commands, and the loop that feeds the pod's log to the reporter |
| `Reporting`, `LogShipping` | the reporter as an object, and its buffer, flushes and `Close` under every interleaving |
| `Rewrite`, `RewriteTemplates`, `RewriteUnclosed`, `FormatEval` | the compiler from `${{ }}` templates to a `format()` call, what it does with unclosed expressions, and the meaning of the call |
| `CacheStorage`, `CacheTable`, `CacheServer` | the artifact cache: chunk files, index lookups, request handlers and garbage collection |
| `Entrypoint`, `StatePipeline`, `JobLog` | the step machine, its state file, the tail, the watcher, and the whole path to the reporter's results and log ranges |
| `Composite`, `ActionCache` | recursive expansion of composite actions, and the clones that actions are loaded from |
| `EnvFile`, `TarArchive` | the env-file parser and the archive printer and extractor |

Objects that the source updates in place are classes whose methods are proved equal to a function of
the old state; goroutines are steps of a transition system, and the main results hold of every run of
it. Strings are byte sequences (`seq<char>`). Network outcomes, clocks, exit codes, condition results
and random keys are parameters or events of a run.

Where the code and its comments disagree, the model follows the code: `Storage.Write` is said to
append but truncates the chunk file, so the last write to an offset wins (`pkg/cache/storage.go:38-44`).

Some promises hold only under a condition. Each of these is given as an if-and-only-if over all
inputs or all runs, with the failing input or run built for every case outside the condition:

- ephemeral mode takes one task, exactly when a fetch under a cancelled context errs (`EphemeralExactly`);
- `Shutdown` drains, exactly when it is not called during a fetch that may still succeed or before
  `wg.Add` (`ShutdownDrainsExactly`);
- backoff never shortens the wait, exactly when the interval is at most a minute (`BackoffNeverShortens`);
- a secret never shows in masked text, exactly when it has no star at either end and no `***` inside
  (`MaskHidesExactly`);
- `Close` ships every row, exactly when the forge takes whole requests (`CloseShipsExactly`);
- a step's log range is exact, exactly when its rows are contiguous (`RangeExactIffContiguous`), and
  that is so in all runs exactly when steps start in order (`RangesExactly`);
- a template keeps its meaning, exactly when each expression reads as one argument, and is not blank
  (`MeaningPreservedExactly`);
- an unclosed expression comes back unchanged, unless it is empty or ends in a quote, when it is
  dropped (`UnclosedIsDroppedExactly`);
- the server stores the uploaded content, exactly when its ranges follow each other from end to end or
  the declared size refuses them (`StoredContentExactly`);
- composite expansion errs, exactly when something does not load or a chain of references comes back to
  a key (`ExpansionIsFlattening`);
- a reference gets the action under its own URL, exactly when its directory was cloned from that URL
  (`OwnActionExactly`);
- a task that left the forge's queue can reach the runner, exactly when it is not stranded
  (`StrandedExactly`);
- a heredoc gives its body back, exactly when it does not start with a blank line (`BlankStartIsLost`).

A forge that ignores the request key loses the task of every lost reply (`LostReplyLosesTask`), and
even one that replays by key can strand the task of a late request (`LateRequestStrands`); both still
deliver in order and at most once (`DeliveredInOrder`, `DeliveredAtMostOnce`).

## Model

| member | source | states |
|---|---|---|
| FetchProtocol.WorkerState.FetchTask | pkg/server/poller.go:130-186 | each outcome of the call changes cursor, key and counters as specified, and only a response with a non-zero task id yields a task |
| FetchProtocol.EmptyCounterMeans | pkg/server/poller.go:154-181 | after any rounds, consecutiveEmpty is the number of empty rounds since the last task |
| FetchProtocol.ErrorCounterMeans | pkg/server/poller.go:154-168 | after any rounds, consecutiveErrors is the number of failed calls since the last response |
| FetchProtocol.CursorMeans | pkg/server/poller.go:173-184 | after any rounds, the cursor is the largest version among the responses since the last task, and zero if there was none |
| FetchProtocol.KeyMeans | pkg/server/poller.go:154-171 | after any rounds, the key is the one drawn at the last response: errors retain it |
| FetchProtocol.BackoffNeverShortens | pkg/server/poller.go:195-211 | the wait is monotone in the counters if and only if the interval is within the one-minute cap |
| FetchProtocol.BackoffDoubles | pkg/server/poller.go:195-211 | the wait is the interval at first, doubles per round up to the one-minute cap, five times, and then stays |
| FetchProtocol.CursorStep | pkg/server/poller.go:137-185 | every step of runner, forge and network keeps: the cursor is at most the forge's version, equal only when the queue is empty |
| FetchProtocol.CursorNeverLatches | pkg/server/poller.go:170-185 | in every reachable state, with either kind of forge and any losses, a cursor equal to the version means an empty queue |
| FetchProtocol.CursorCatchesUp | pkg/server/poller.go:173-176 | in every reachable state, an empty reply served at the forge's current version brings the cursor up to it |
| FetchProtocol.DeliveryStep | pkg/server/poller.go:130-186 | every step of runner, forge and network, with any losses and delays and either kind of forge, keeps account of every task |
| FetchProtocol.DeliveredExactlyOnceInOrder | pkg/server/poller.go:130-186 | while nothing is stranded, the enqueued tasks are, in order, the delivered ones, at most one that the next served request gets, and the queue |
| FetchProtocol.ReplayDeliversAll | pkg/server/poller.go:130-186 | against a forge that replays by key, with any losses and no late request, nothing is stranded: each task is delivered once and in order, at most one being recorded under the key the next request carries |
| FetchProtocol.DeliveredInOrder | pkg/server/poller.go:130-186 | in every run the queue is a suffix of what was enqueued; of the rest, the delivered tasks with the one about to be are a subsequence, and everything else is stranded |
| FetchProtocol.DeliveredAtMostOnce | pkg/server/poller.go:130-186 | in every run, with either kind of forge and any losses and delays, no task is delivered twice |
| FetchProtocol.ServedRequestGetsHead | pkg/server/poller.go:137-185 | in every reachable state a served request gets the head of the queue and nothing exactly when it is empty, after the task that a replaying forge has under its key |
| FetchProtocol.ServedRequestGetsOldest | pkg/server/poller.go:137-185 | while nothing is stranded, that is the oldest undelivered task, and nothing exactly when all are delivered |
| FetchProtocol.StrandedExactly | pkg/server/poller.go:130-186 | in every reachable state, a task that left the queue has been or can still be delivered if and only if no step stranded it: a lost reply or late request without replay, a late request under a replaced key, or an empty reply that replaces the key of a late one |
| FetchProtocol.StrandedNeverDelivered | pkg/server/poller.go:130-186 | no continuation delivers a stranded task |
| FetchProtocol.LateRequestStrands | pkg/server/poller.go:130-186 | a request served after the runner gave up on it and replaced its key strands a task even at a forge that replays |
| FetchProtocol.LostReplyLosesTask | GITEA_FETCHTASK_BUG.md:5-5 | against a forge without replay, the task of every lost reply, however many were lost before, is never delivered, whatever follows |
| PollLoop.CapacityRespected | pkg/server/poller.go:88-124 | in every interleaving the semaphore holds exactly the handlers' and the loop's slots, within capacity; wait group >= inFlight >= running bodies, and these are within capacity |
| PollLoop.EveryTaskHandledOnce | pkg/server/poller.go:97-117 | every received task has one handler, in order, whose body starts once |
| PollLoop.EphemeralDispatchesOnce | pkg/server/poller.go:88-124 | in ephemeral mode, if a fetch under a cancelled context errs, at most one task is received and dispatched |
| PollLoop.EphemeralNeedsCancellableFetch | pkg/server/poller.go:119-122 | otherwise, for every capacity, a run receives any two given tasks |
| PollLoop.EphemeralExactly | pkg/server/poller.go:88-124 | at most one task in every run if and only if a cancelled fetch errs or there is no capacity |
| PollLoop.ShutdownDrains | pkg/server/poller.go:271-306 | Shutdown called after Run comes back only with every received task handled once and gone and all counters zero; with nil it interrupted no body on its own account |
| PollLoop.ShutdownCancels | pkg/server/poller.go:271-304 | in every run Shutdown stops polling; past its deadline the handlers' context is cancelled, by its return it is released, and before that only the owner of Run's context cancels it |
| PollLoop.StopsOnlyWhenTold | pkg/server/poller.go:88-107 | in every run, Run returns only after its context was cancelled, Shutdown was called, or ephemeral mode dispatched a task |
| PollLoop.ShutdownDrainsExactly | pkg/server/poller.go:88-306 | in every reachable state: Shutdown called there comes back only with everything received handled, if and only if the loop is not in a fetch begun before the call and holds no task before wg.Add; with a client that ignores cancellation, if and only if Run has returned or there is no capacity |
| PollLoop.EarlyShutdownMissesHandler | pkg/server/poller.go:97-116 | called in any reachable state at those two positions, with any other handlers running, Shutdown can return nil and a body start after it |
| PollLoop.StubbornFetchMissesHandler | pkg/server/poller.go:88-124 | with a client that ignores cancellation, from every position, a task can be picked up after Shutdown came back |
| Masking.MaskHides | pkg/reporter/reporter.go:49-76 | no masked text contains a registered secret with no star at either end and no *** inside |
| Masking.StarredSecretReappears | pkg/reporter/reporter.go:71-76 | every other long secret occurs in the masked form of some text, registered alone |
| Masking.MaskKeeps | pkg/reporter/reporter.go:71-76 | text that contains no secret is unchanged |
| Masking.MaskFirst | pkg/reporter/reporter.go:71-76 | masking goes from left to right: at the first place where secrets match, the one registered first becomes three stars |
| Masking.MaskIdempotent | pkg/reporter/reporter.go:71-76 | with such secrets, masking masked text changes nothing |
| Masking.MaskIdempotentExactly | pkg/reporter/reporter.go:71-76 | with one secret, masking is idempotent if and only if the secret is such |
| Masking.MaskHidesExactly | pkg/reporter/reporter.go:49-76 | a long secret never occurs in masked text, whatever else is registered, if and only if it has no star at either end and no *** inside |
| Masking.LongOnlyExactly | pkg/reporter/reporter.go:49-63 | the masker registers exactly the values longer than three bytes |
| Masking.LongOnlyInOrder | pkg/reporter/reporter.go:49-63 | registration keeps the order of the values |
| Masking.ParseCommandComplete | pkg/reporter/commands.go:9-46 | every line in the language of the command expression parses, with that name and the shortest value of any match |
| Masking.ParseCommandSound | pkg/reporter/commands.go:9-46 | a line that parses is in the language, with the returned name and value |
| Masking.StoppedLine | pkg/reporter/commands.go:31-38 | while commands are stopped, a line comes out unchanged, unless it is the token's, which starts them again and is dropped |
| Masking.AddMaskLine | pkg/reporter/commands.go:48-51 | a line that the expression matches with add-mask, in any case, is dropped and registers its value if that is longer than three bytes |
| Masking.DebugLine | pkg/reporter/commands.go:53-57 | a debug line comes out exactly when debugging is enabled, and changes nothing |
| Masking.StopLine | pkg/reporter/commands.go:59-63 | a stop-commands line is dropped, and stops commands exactly when its value is not empty |
| Masking.OtherLine | pkg/reporter/commands.go:40-70 | every other command and every other line comes out unchanged and changes nothing |
| Masking.StopCommandsBlock | pkg/reporter/commands.go:30-63 | anywhere in a log, the lines between stop-commands and its token come out unchanged, and the rest behaves as if they were absent |
| Masking.MasksOnlyGrow | pkg/reporter/commands.go:30-71 | over any log, registered masks stay registered and long |
| Masking.StoredRowsHideSecrets | pkg/reporter/reporter.go:118-129 | over any log with commands, no row stored after such a secret was registered contains it |
| Masking.AddMaskHides | pkg/reporter/commands.go:48-51 | anywhere in a log where commands are enabled, an add-mask line stores nothing, its long value is registered from then on, and if hideable is in no row stored after it |
| LogStream.CommandProcessor.ProcessLine | pkg/reporter/commands.go:30-71 | the stop token, the masks and the emitted line follow the specification; nothing else of the reporter changes |
| LogStream.StreamLogs | pkg/k8s/watcher.go:254-281 | the loop feeds every line of the stream, and an unterminated last one, to the reporter, through the command processor if there is one |
| LogStream.LogLinesExactly | pkg/k8s/watcher.go:261-264 | a log of lines, with newlines or carriage returns and newlines, and a last line without, is read as exactly those lines |
| LogStream.FedRowsAreStored | pkg/k8s/watcher.go:254-281 | the reporter's buffer grows by exactly the lines, or with a processor the emitted ones, each masked with what was registered by then; results, current step and offset stay |
| LogStream.StreamedRowsHideSecrets | pkg/k8s/watcher.go:254-281 | with or without a command processor, no row added by the stream contains such a secret registered before it |
| Reporting.Reporter.AddLog | pkg/reporter/reporter.go:118-139 | the masked row is appended and counted to the current step, whose index is set at its first row |
| Reporting.Reporter.FlushLogs | pkg/reporter/reporter.go:187-222 | the whole outcome of a flush for a lost request, a lost reply and a served request, and of having nothing to send |
| Reporting.Reporter.Close | pkg/reporter/reporter.go:366-430 | returns nil exactly when one of ten attempts got both calls through before an interruption; keeps the full log; on nil a forge that takes whole requests has all of it |
| Reporting.CloseSucceedsExactly | pkg/reporter/reporter.go:391-430 | Close returns nil exactly when one of ten attempts gets through and no wait before it was interrupted |
| Reporting.AcceptKeepsSync | pkg/reporter/reporter.go:187-208 | serving a request, whole or in part, keeps buffer and forge log overlapping consistently and the full log unchanged |
| Reporting.TrimKeepsSync | pkg/reporter/reporter.go:210-219 | applying the ack keeps them consistent and the full log unchanged |
| Reporting.TerminalPayloadIsComplete | pkg/reporter/reporter.go:224-255 | interim payloads never carry a job result; a terminal one carries the job's and a result for every step, whatever happens in between |
| LogShipping.ShipStep | pkg/reporter/reporter.go:118-222 | every step of rows, overlapping flushes, losses and Close keeps the shipping invariant |
| LogShipping.NothingLostOrReordered | pkg/reporter/reporter.go:118-222 | in every run the forge's log is a prefix of the rows added and the buffer exactly the suffix from logOffset |
| LogShipping.CloseShipsEverything | pkg/reporter/reporter.go:366-430 | in every run, once Close has returned nil a forge that takes whole requests has every row added before the call |
| LogShipping.CloseShipsExactly | pkg/reporter/reporter.go:366-430 | for every number of steps, that holds in all runs if and only if the forge takes whole requests |
| LogShipping.RangeExactIffContiguous | pkg/reporter/reporter.go:118-157 | in every run, with steps started in any order, a step's range is exactly the rows added while it was current if and only if those rows are contiguous |
| LogShipping.StepRangesExact | pkg/reporter/reporter.go:118-157 | with steps started in order, every step's range is exact; ranges are disjoint, ordered and cover everything after the first start |
| LogShipping.RangesExactly | pkg/reporter/reporter.go:118-157 | ranges are exact in all runs if and only if steps start in order or there is at most one |
| LogShipping.RowsBelongToLastStart | pkg/reporter/reporter.go:131-157 | in every run a row belongs to the step that started last, in range, before it |
| LogShipping.ForgeNeverSeesSecrets | pkg/reporter/reporter.go:118-129 | in every run no row at the forge contains a hideable secret registered when it was added |
| LogShipping.PartialAckLosesRows | pkg/reporter/reporter.go:391-426 | for every forge that may take part of a request, a run in which Close returns nil and a row is missing |
| LogShipping.OutOfOrderStartsMisattribute | pkg/reporter/reporter.go:131-157 | otherwise, for any two or more steps, a run in which going back to a step makes its range wrong |
| Rewrite.RewriteSubExpression | pkg/expressions/rewrite.go:13-73 | the scanner loop terminates on every input and computes the specified text |
| RewriteTemplates.RewriteOfTemplate | pkg/expressions/rewrite.go:13-73 | for every well-formed template the result is the format call of its escaped literals, numbered placeholders and trimmed expressions |
| RewriteTemplates.OnlyPureIsUnchanged | pkg/expressions/rewrite.go:68-70 | without forceFormat, a template comes back unchanged if it is one expression and nothing else, and otherwise is rewritten as with it |
| Text.TrimExactly | pkg/expressions/rewrite.go:47-47 | trimming an expression takes white space off both ends and nothing else |
| RewriteUnclosed.UnclosedIsDroppedExactly | pkg/expressions/rewrite.go:25-73 | for every well-formed template followed by an expression that is never closed, with and without forceFormat: exactly when the expression is dropped, and that the input comes back otherwise |
| RewriteUnclosed.TrailingOpenIsDropped | pkg/expressions/rewrite.go:25-60 | after a template with an expression: dropped, leaving what the template alone gives, if it is empty or ends in a quote, and otherwise the input unchanged |
| RewriteUnclosed.EveryTextIsRead | pkg/expressions/rewrite.go:25-66 | every text is a well-formed template, or one followed by an expression that is never closed |
| RewriteUnclosed.RewriteExactly | pkg/expressions/rewrite.go:13-77 | the result on every input, with and without forceFormat: the input itself in exactly the stated cases, and otherwise the format call of the template it reads as |
| FormatEval.FormatEscaped | pkg/expressions/rewrite.go:75-77 | escaped text evaluates to itself, whatever braces it holds |
| FormatEval.ReadFormatCall | pkg/expressions/rewrite.go:72-72 | the call's text reads back as its format string and arguments |
| FormatEval.RewritePreservesMeaning | pkg/expressions/rewrite.go:13-77 | reading back and evaluating the call gives the literals joined with the expressions' values |
| FormatEval.MeaningPreservedExactly | pkg/expressions/rewrite.go:13-77 | a well-formed template keeps its meaning under every valuation if and only if each expression reads as one argument: not blank, balanced, no bare comma |
| CacheStorage.ChunkNameOrder | pkg/cache/storage.go:113-130 | the byte order of chunk names is the numeric order of offsets, and names are distinct |
| CacheStorage.PathsNeverShared | pkg/cache/storage.go:105-115 | different ids have different blobs and chunk directories; no blob lies below tmp |
| CacheStorage.Storage.Commit | pkg/cache/storage.go:54-92 | no chunks: error; wrong size: error and no blob; otherwise the assembled blob and its length; the chunk directory is gone in each case |
| CacheStorage.CommitTouchesOnlyItsId | pkg/cache/storage.go:54-92 | however Commit ends, the chunks of its id are gone and nothing of another id has changed; it succeeds exactly when there are chunks and their total length is the size, if that is known |
| CacheStorage.TilesAssemble | pkg/cache/storage.go:54-92 | chunks that tile a content, in any order and with repeats, assemble to exactly that content |
| CacheStorage.GatheredExactly | pkg/cache/storage.go:54-92 | ranges gather to the content, whatever it is, if and only if each starts where those before it end and they are as long as it |
| CacheStorage.CommitStoresSlices | pkg/cache/storage.go:39-92 | when the last upload at each offset is a range of a content, in any order, Commit stores those ranges in offset order, unless the size check refuses |
| CacheStorage.CommitRestoresContent | pkg/cache/storage.go:39-92 | after such uploads Commit succeeds and the blob is the content |
| CacheTable.LikeIsPrefix | pkg/cache/db.go:27-84 | on lower-case strings the escaped LIKE pattern matches exactly the strings with that literal prefix |
| CacheTable.FindCache | pkg/cache/db.go:62-93 | the loop returns what the query cascade allows |
| CacheTable.FindRefinesPlainLookup | pkg/cache/db.go:60-93 | the results of FindCache are exactly those of the plain rule: first key that prefixes a complete entry of the version, exact matches first, newest wins; none exactly when no key does |
| CacheTable.FindReturnsComplete | pkg/cache/db.go:62-93 | a hit is a complete entry of the version |
| CacheTable.OwnKeyIsFound | pkg/cache/db.go:62-75 | a lookup that starts with the key of a complete entry finds a complete entry with exactly that key, at least as new |
| CacheTable.DuplicateRemovalInvisible | pkg/cache/db.go:152-171 | for every table, keys and version, removing duplicates leaves the set of possible results unchanged |
| CacheServer.RangeStartInBounds | pkg/cache/handler.go:374-387 | a parsed start is never negative and fits 63 bits |
| CacheServer.ContentRangeRoundTrip | pkg/cache/handler.go:374-387 | a range written as in section 14.4 of RFC 9110 parses to its bounds |
| CacheServer.ContentRangeExactly | pkg/cache/handler.go:374-387 | a header is accepted, with these bounds, exactly when it is two numbers around the first dash, with an optional unit before and anything from a slash on |
| CacheServer.Handler.Reserve | pkg/cache/handler.go:183-211 | adds an incomplete entry under a new id, key lower-cased, size zero taken as unknown |
| CacheServer.Handler.Upload | pkg/cache/handler.go:214-246 | writes the chunk and touches the entry, with status 200 exactly for an open reservation and a well-formed range; otherwise changes nothing |
| CacheServer.Handler.Commit | pkg/cache/handler.go:249-281 | completes an open reservation when the store commits; status 200 exactly then |
| CacheServer.Handler.Find | pkg/cache/handler.go:149-180 | answers with a lookup result whose blob exists; deletes the row of one whose blob does not |
| CacheServer.Handler.GcCache | pkg/cache/handler.go:314-355 | nothing while a collection is under way or within an hour of the last one; otherwise the four passes in order, each on the table the one before left |
| CacheServer.CollectedExactly | pkg/cache/handler.go:307-355 | a collection leaves, unchanged, exactly the entries within their time limits that no newer complete one of the same key and version supersedes |
| CacheServer.CollectionIsRun | pkg/cache/handler.go:314-355 | a collection is a run of single removals, between which any requests may fall |
| CacheServer.RecentlyUsedSurvives | pkg/cache/handler.go:307-355 | an entry used in the last five minutes and created in the last thirty days survives every collection |
| CacheServer.UseProtects | pkg/cache/handler.go:243-292 | an accepted upload and a download set the entry's use time to the clock and nothing else of it, so that for five minutes no collection removes it unless it is over thirty days old |
| CacheServer.FindHitsExist | pkg/cache/handler.go:149-180 | under the invariant, find hits only complete, version-matching entries with a blob of the recorded size, and deletes nothing |
| CacheServer.FindDropsMissing | pkg/cache/handler.go:170-173 | in any state find deletes the row of a hit whose blob is missing, and changes nothing else |
| CacheServer.Step | pkg/cache/handler.go:149-355 | every request and every removal by the collector keeps the invariant of index and store, and every completed entry |
| CacheServer.CompletedEntriesNeverChange | pkg/cache/handler.go:149-355 | between any two moments of any run of requests and removals, a complete entry keeps bytes, size, key and version until it is gone for good; ids are not reused |
| CacheServer.SessionStoresSlices | pkg/cache/handler.go:183-281 | reserve, any requests and removals among which the last upload to the entry at each offset is a range of a content, commit: the entry is complete with the ranges in offset order, or refused by the declared size |
| CacheServer.SessionKeepsKey | pkg/cache/handler.go:183-281 | the entry of a session keeps the key, in lower case, the version and the creation time it was reserved with |
| CacheServer.UploadedContentIsStored | pkg/cache/handler.go:183-281 | when the ranges follow each other from end to end, and the size declared is right or unknown, the entry is complete with exactly the content |
| CacheServer.StoredIsFound | pkg/cache/handler.go:149-281 | after such a session, find with the key in any case and the version answers with a complete entry that has exactly that key, at least as new, whose blob is there |
| CacheServer.StoredContentExactly | pkg/cache/handler.go:183-281 | for every declared size and list of ranges: no such session stores anything but the content, if and only if the size refuses the ranges or they follow each other from end to end |
| CacheServer.SizeCheckMissesOverlap | pkg/cache/storage.go:85-90 | for all other ranges, requests to an empty server that complete an entry with something else |
| CacheServer.UploadSlices | pkg/cache/handler_test.go:27-66 | a client's calls to the handlers: accepted exactly when the declared size is the total length or unknown, and then the blob is the ranges in offset order |
| Entrypoint.RunEntrypoint | cmd/entrypoint/main.go:101-282 | the run is the specified one up to its end, its break, the exit on a cache mirror error, or the step whose files could not be created; the verdict is true exactly when it got through without a failure |
| Entrypoint.OutcomeUnique | cmd/entrypoint/main.go:101-282 | the answers determine the way a run ends: verdict, state file and evaluator |
| Entrypoint.EventsInOrder | cmd/entrypoint/main.go:117-254 | the state file is one group per step, in order: a skip, or a start and its end |
| Entrypoint.EventsExactly | cmd/entrypoint/main.go:117-254 | an event is in the file if and only if the step ran, ended with that code, or was skipped |
| Entrypoint.StepRunsExactly | cmd/entrypoint/main.go:128-254 | of every step handled the file has a start and the end with its exit code exactly when its condition came out true, or there is no context to evaluate it in, or it has none and no started step broke the run before it; otherwise, also when its condition cannot be evaluated, a skip |
| Entrypoint.RunExactly | cmd/entrypoint/main.go:101-282 | a run that gets through handles every step if some step has a condition, and otherwise ends behind the first that broke it; its verdict is that none did |
| Entrypoint.StartsIncrease | cmd/entrypoint/main.go:117-254 | event numbers never go back and starts are strictly increasing |
| Entrypoint.FailureExactly | cmd/entrypoint/main.go:256-282 | the run fails if and only if a started step failed without continue-on-error |
| Entrypoint.JobStatusIsFailureFlag | cmd/entrypoint/main.go:233-262 | after every step the job status that conditions see is the failure flag |
| Entrypoint.ConclusionsExplainFailure | pkg/expressions/eval.go:96-131 | with distinct ids, the run has failed if and only if some recorded conclusion is a failure |
| Entrypoint.OutcomesExactly | pkg/expressions/eval.go:96-125 | with distinct ids, there is a result for exactly the started steps: the outcome is the exit status, and continue-on-error changes only the conclusion |
| Entrypoint.BreakOnlyDropsSkips | cmd/entrypoint/main.go:256-270 | carrying on instead of breaking only adds skips: same executed steps, verdict and evaluator |
| StatePipeline.RunTail | cmd/entrypoint/tail.go:69-130 | however the file grows between reads, the output at the end is the complete lines after the skipped ones; cancelled, it is that of what was read; after a failed write, a prefix |
| StatePipeline.StreamStateFile | pkg/k8s/watcher.go:212-249 | routes the event of every whole line, skipping blank and malformed ones, and counts the lines |
| StatePipeline.BadLineSkipped | pkg/k8s/watcher.go:224-237 | a line that is blank or does not decode is passed over, and nothing else |
| StatePipeline.RoutedEventsArePrefix | pkg/k8s/watcher.go:212-249 | wherever reading was cut off, the routed events are a prefix of the written ones, and all of them at end of file |
| StatePipeline.FaithfulCodecExists | cmd/entrypoint/main.go:376-385 | there is an encoding of events that decodes back and puts no newline in a line |
| StatePipeline.ResultsFollowEvents | pkg/k8s/watcher.go:285-301 | only routed events set step results, whatever log traffic interleaves |
| StatePipeline.ReportedResultsMatchRun | pkg/k8s/watcher.go:212-301 | from state file to reporter: with everything read, step results are the run's exit codes and skips, and Close changes only steps with neither |
| StatePipeline.CutOffNeverMisreports | pkg/k8s/watcher.go:149-178 | with the stream cut off anywhere, every step has the run's result or none |
| StatePipeline.ShippedResultsMatchFile | pkg/reporter/reporter.go:234-250 | for every run and cut-off, step i of every payload has the step's own routed result; without one, nothing in an interim payload, and skipped or cancelled in the terminal one, which alone has the job's result |
| StatePipeline.RoutedStartsAreOrdered | cmd/entrypoint/main.go:117-166 | with the stream cut off anywhere, the reporter's steps start in order |
| JobLog.JobLogRangesExact | pkg/reporter/reporter.go:118-219 | for every manifest, outcome, cut-off and interleaving, the recorded ranges are exactly the rows of their steps, in step order |
| Composite.ExpandAction | pkg/actions/loader.go:183-220 | terminates, and restores the visited set on success |
| Composite.ExpandSteps | pkg/actions/loader.go:282-335 | terminates on every finite graph, cyclic or not, and restores the visited set on success |
| Composite.ExpandCtx.ToStepSpecs | pkg/actions/loader.go:183-220 | result, visited set and nested list are those of the specification |
| Composite.ExpandCtx.CompositeStepSpecs | pkg/actions/loader.go:282-335 | the loop's result, visited set and nested list are those of the specification |
| Composite.SuccessFlattens | pkg/actions/loader.go:282-335 | whatever expansion returns is the plain in-order flattening, and its nesting is bounded by the unvisited keys |
| Composite.SuccessMeets | pkg/actions/loader.go:312-331 | on success the list of nested actions grows by exactly the references that the flattening meets, inner ones before the one that uses them |
| Composite.LeavesAreMet | pkg/actions/loader.go:312-331 | the action of every leaf step of the flattening is among them |
| Composite.ErrorIsCycle | pkg/actions/loader.go:309-332 | when loads and leaves succeed, it errs if and only if a chain of references comes back to a key |
| Composite.ExpansionIsFlattening | pkg/actions/loader.go:282-335 | on every graph, expansion succeeds if and only if following uses ends, which is when everything reached loads and no chain comes back to a key; it then returns the flattening and lists the references met |
| ActionCache.Cache.LoadAction | pkg/actions/loader.go:56-119 | the action and the clones afterwards: from the clone in the reference's directory, made from its URL if there is none |
| ActionCache.KeyDetermines | pkg/actions/resolve.go:129-136 | two parsed references have one key if and only if they agree in org, repo, path and ref |
| ActionCache.CloneUrlExactly | pkg/actions/resolve.go:102-109 | the clone URL is under the reference's own URL, or the default one if it has none, without trailing slashes |
| ActionCache.MagicNeedsNoClone | pkg/actions/loader.go:50-59 | the magic cache action loads without a clone, whatever is cloned |
| ActionCache.SameKeySameAction | pkg/actions/loader.go:56-119 | once a key has been loaded, every later load under it, whatever its URL and whatever came between, returns the same action |
| ActionCache.FirstCloneWins | pkg/actions/loader.go:60-90 | the clone made first serves every later reference to its directory |
| ActionCache.OwnActionExactly | pkg/actions/loader.go:60-90 | a reference whose directory was cloned for another gets the action under its own URL, whatever the forges hold, if and only if both clone one URL at one ref |
| EnvFile.ReadHeredoc | cmd/entrypoint/envfile.go:36-53 | consumes exactly up to the delimiter and returns the value, or reports that there is none |
| EnvFile.ParseEnvFile | cmd/entrypoint/envfile.go:12-67 | the parser's loops compute the specified map and error |
| EnvFile.HeredocClosedIff | cmd/entrypoint/envfile.go:40-53 | a heredoc is closed if and only if its delimiter is a later line |
| EnvFile.SimpleKeyExactly | cmd/entrypoint/envfile.go:32-35 | KEY=VALUE is not taken for a heredoc if and only if the key has no << from its second byte on |
| EnvFile.HeaderKeyExactly | cmd/entrypoint/envfile.go:32-37 | a heredoc line is read with its key if and only if the key has no << and does not end in < |
| EnvFile.BlankStartIsLost | cmd/entrypoint/envfile.go:46-49 | a body comes back as it was if and only if it has at most one line or does not start with a blank one |
| EnvFile.EnvFileRoundTrip | cmd/entrypoint/envfile.go:22-66 | printing any assignments, heredocs and lines that carry nothing, and parsing the file, gives the map with the last write winning |
| EnvFile.EveryFileIsRead | cmd/entrypoint/envfile.go:22-66 | every file of clean lines that parses is a list of assignments, closed heredocs and lines that carry nothing |
| EnvFile.CrLfIsLf | cmd/entrypoint/envfile.go:22-29 | carriage returns before newlines change nothing |
| EnvFile.FinalNewlineOptional | cmd/entrypoint/envfile.go:22-29 | a last line without a newline counts as one with |
| EnvFile.TooLongAlwaysErrs | cmd/entrypoint/envfile.go:13-66 | a line of a mebibyte or more always makes the file an error; a missing file is empty |
| EnvFile.UnclosedAlwaysErrs | cmd/entrypoint/envfile.go:40-53 | an unclosed heredoc after any entries makes the file an error |
| TarArchive.TarWriter.Visit | pkg/cache/tar.go:28-90 | one path of the walk: nothing below an excluded top level, otherwise the header and what lies below |
| TarArchive.TarWriter.Walk | pkg/cache/tar.go:17-91 | the walk writes the tree's entries in order, without the excluded top-level entries |
| TarArchive.UntarInto | cmd/entrypoint/setup.go:175-240 | the loop extracts entry by entry, following symlinks on the way to an entry as the system does, and stops at the first error |
| TarArchive.NothingEscapes | cmd/entrypoint/setup.go:175-240 | no list of entries, hostile or not, makes extraction act outside of a target that is empty or holds checked links only |
| TarArchive.LeadingOutEscapes | cmd/entrypoint/setup.go:225-233 | where a path in the target leads out, an entry below it would act outside: the check on link targets is needed |
| TarArchive.ExtractOver | cmd/entrypoint/setup.go:205-237 | where an entry's path is taken, a file takes the place of a file, and everything else is an error |
| TarArchive.MissingParentsMade | cmd/entrypoint/setup.go:205-223 | an entry whose parent directories are not listed gets them made |
| TarArchive.NameRoundTrip | cmd/entrypoint/setup.go:189-203 | the name written for a path is accepted and cleans to that path |
| TarArchive.ArchiveRoundTrip | pkg/cache/tar.go:17-91 | extracting an archive rebuilds the tree without its excluded top-level entries, all bytes and link targets included, if and only if every kept link target is relative and free of "..", and fails otherwise |

## Left out

- FormatEval.RewritePreservesMeaning: takes the value of an expression as a function of its text, because the expression interpreter is a library; format() is modelled by its documented meaning.
- CacheTable.LikeIsPrefix: LIKE by its documented meaning with ASCII case folding; SQLite's pattern length limit is not modelled.
- Composite.ExpandSteps: actions are loaded by key, which `ActionCache.SameKeySameAction` justifies; with no expansion context at all, nested uses are skipped, and that mode and the assembly of a leaf's environment (`buildActionEnv`, node and docker spec builders) are symbolic.
- ActionCache.OwnActionExactly: the directory name is any function of org, repo and ref, so the hash in it is not modelled; failed or concurrent clones are not.
- TarArchive.UntarInto: file modes and special files are not kept; path resolution gives up after 40 links, as Linux does.
- Several runners on one forge; replies that arrive after the runner gave up on them are dropped, as the client does.
- Heartbeats, the health endpoint and wall-clock timeouts; the backoff wait is modelled, its timer is not.
- Integer widths of versions, log indices and placeholder numbers (chunk offsets are bounded to 63 bits); Unicode case folding and white space.
- Timestamps, the read-back probe, digests, the daemon's ticker and server-side cancellation in the reporter; acks of a forge that claims more than it has.
- Database and disk errors in the cache, the HTTP and JSON layer, splitting of the keys parameter, and finer interleavings: each handler and each removal of an entry is atomic.
- Executing a step, its environment, outputs and path files, and what the cache mirror does; names and times in state events. The JSON encoding is any encoding that decodes back and has no newline in it.
- Downloading and promoting action archives, reading the tar byte format, reference parsing, `parsePaths` and `parseTailArgs`.
- Kubernetes job building, pod waiting, log transport, registration, configuration, snapshots and the controller's orchestration.
