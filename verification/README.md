# Verified model of the golden journeys, digests, evidence checks and versioned commands

This project models the parts of the repository whose correctness rests on an argument across many steps, and
proves what they are for. `dafny verify dfyconfig.toml` covers all of it.

- **The golden-journey harness** (`Journey.dfy`, `Scopes.dfy`, `Redactor.dfy`, `LogTail.dfy`, `ProcessTable.dfy`,
  `Provider.dfy`). A journey is a state machine whose events interleave freely: checkpoints, signals, the deadline,
  supervised exits, cleanup, source verification, the reason, the artifacts and the receipt. Scopes are explicit stacks of
  finalizers over processes, the disposable cluster and the backend's replaceable sub-scope; a crash, a watcher or
  an interruption may fall between any two steps. The redactor, the log tail, the loopback receiver and the
  process-table loop keep the source's classes and loops.
- **Canonical JSON and the homepage manifests** (`Utf16.dfy`, `JsonString.dfy`, `CanonicalJson.dfy`,
  `CanonicalJsonProofs.dfy`, `Manifests.dfy`). Texts are sequences of UTF-16 code units. The printer sorts keys by
  code unit and quotes strings as section 7 of RFC 8259 describes; a parser for its output completes the round trip.
- **Versioned, idempotent commands** (`HttpReceipts.dfy`, `CorrectionLedger.dfy`, `AdmissionOutcomes.dfy`). The
  receipts of HTTP commands, the interview-correction chain with its storage rules and staged transaction, and the
  decide and announce commands with evidence, guards and mail. If-Match is the precondition of section 13.1.1 of
  RFC 9110. The storage runs these transactions as SERIALIZABLE, so a run is any sequence of whole attempts by any
  actors; the staged transaction with its rollback is proved to refine the atomic step.
- **Evidence checks** (`Counting.dfy`, `Decimal.dfy`, `ReturningEffects.dfy`, `TeamEvidence.dfy`, `Mailbox.dfy`,
  `AssignmentProjection.dfy`). Checks that compare lengths, filters, joined texts, set sizes and map sizes, and what
  their acceptance means, row by row.
- **Lint overrides** (`LintOverrides.dfy`).

`Options.dfy` holds the optional value that all of them share.

## Where the code does less than its description

- A supervised exit before release does not always fail supervision: it does exactly when its watcher reports it
  before the release marks the exit as expected (`Scopes.SupervisionExactly`, `Scopes.LateWatcherMissesCrash`).
- The observer pool is not always closed before its cluster stops: it is exactly when its end did not time out
  (`Scopes.PoolClosedExactly`, `Scopes.TimedOutPoolStaysOpen`). Nothing is left of a journey exactly when every
  ending succeeded (`Scopes.ClosedJourney`), which is what the cleanup verification afterwards looks at.
- An oversize body is answered 413 exactly when some leading chunks total one byte over the limit
  (`Provider.SizeAnswers`); other oversize bodies pass, shortened.
- After a decision that closed before the interview was completed, as the migration records it for every application
  decided before it, the correction gate looks at the interview of today and the storage at the one decided on. They
  part exactly there (`CorrectionLedger.GateMeetsFence`): corrections that the gate lets through are answered 503
  for good (`CorrectionLedger.EarlyDecisionRefuses`, `CorrectionLedger.EarlyDecisionBlocks`).
- An exact replay returns the stored response for a day; afterwards the same request is answered `response-expired`
  (`CorrectionLedger.ReplayIsExact`, `AdmissionOutcomes.ReplayIsExact`).

## What some hypotheses are for

These inputs do not reach the code; the results show that the hypotheses excluding them are needed.

- The record of a journey is a prefix of its distinct required steps at every moment exactly when no checkpoint call
  completes after another one completed since it passed the order check (`Journey.PrefixExactly`). Drivers await
  each call before the next, and such calls complete in turn (`Journey.SequentialInTurn`); calls that overlapped
  could pass with a wrong record (`Journey.OverlapDefeatsOrder`).
- A form key that was used twice with one team would leave room for an HTTP receipt of no submission
  (`TeamEvidence.ReceiptsExactly`); every rendered form has its own.
- The row checks by filter and length say "no stray row" exactly for keys listed once (`Counting.StraysExactly`).
  Returning registrations are listed by primary key, so theirs always are (`ReturningEffects.NoStraysExactly`). Live
  team applications are compared with rows under a primary key, so only a deleted application listed twice could
  hide strays (`TeamEvidence.NoStraysExactly`, `TeamEvidence.RepeatedSubmissionHidesStrays`).
- Redaction is proved for secrets that are not empty and share no unit with the marker, as the hexadecimal ones the
  harness makes. Without marker units it leaves nothing exactly when no secret is empty
  (`Redaction.LeakFreeExactly`); with them a secret can be reassembled (`Redaction.MarkedSecretReassembled`).

## Model

| member | source | states |
|---|---|---|
| Utf16.LessExactly | apps/homepage/vite-digests.ts:41-43 | One text is before another exactly when it is a proper prefix or its unit at the first difference is smaller. |
| Utf16.SortCanonical | apps/homepage/vite-digests.ts:41-43 | Sorting by code unit gives one order only: lists with the same distinct keys and elements sort to the same list. |
| JsonString.EscapeExactly | apps/homepage/vite-digests.ts:45-58 | The printed text of each unit in literal units: itself but for control units, quote, backslash and surrogates; backslash and a letter for the seven units that have one; else `\u` and the four lower-case digits of its number. |
| JsonString.QuoteNext | apps/homepage/vite-digests.ts:45-58 | A surrogate pair is printed as it is, any other unit on its own, in order. |
| JsonString.QuoteUnescaped | apps/homepage/vite-digests.ts:45-58 | A string without control units, quotes, backslashes and lone surrogates is printed as it is between quotes. |
| JsonString.BodyReads | apps/homepage/vite-digests.ts:45-58 | A reader that undoes escapes reads back every string of code units, lone surrogates included, and stops right after the closing quote. |
| CanonicalJsonProofs.ScalarsPrint | apps/homepage/vite-digests.ts:45-51 | The literal texts of null, true, false and numbers (NaN and the infinities as null, -0 as 0), a string as its escaped units between quotes, and none for undefined. |
| CanonicalJsonProofs.ArrayPrints | apps/homepage/vite-digests.ts:53 | An array prints as its printed items in order, separated by commas, between brackets. |
| CanonicalJsonProofs.ObjectPrints | apps/homepage/vite-digests.ts:54-57 | An object prints as its entries, each a quoted key, a colon and the printed value, separated by commas, between braces. |
| CanonicalJsonProofs.DefinedExactly | apps/homepage/vite-digests.ts:45-58 | The fields that are kept are exactly the defined ones, in their order. |
| CanonicalJsonProofs.EntriesExactly | apps/homepage/vite-digests.ts:45-58 | The printed entries are exactly the defined fields, sorted by key. |
| CanonicalJsonProofs.ThrowsExactly | apps/homepage/vite-digests.ts:45-58 | Printing fails exactly when an undefined value is the value itself or an array item at some depth. |
| CanonicalJsonProofs.ParsePrinted | apps/homepage/vite-digests.ts:45-58 | Reading printed text followed by any text that does not continue a number gives the value with undefined fields dropped and keys sorted, and that text unread. |
| CanonicalJsonProofs.ItemsParse | apps/homepage/vite-digests.ts:45-58 | The same for the comma-separated items of an array up to its bracket. |
| CanonicalJsonProofs.FieldsParse | apps/homepage/vite-digests.ts:45-58 | The same for the fields of an object up to its brace. |
| CanonicalJsonProofs.PrintNormal | apps/homepage/vite-digests.ts:45-58 | Printing depends only on the normal form. |
| CanonicalJsonProofs.NormalCharacterizesSame | apps/homepage/vite-digests.ts:45-58 | The normal form identifies exactly the values that property access cannot tell apart at any depth. |
| CanonicalJsonProofs.PrintsAlikeExactly | apps/homepage/vite-digests.ts:45-58 | Two values print alike exactly when they are equal up to key order and undefined fields, at every nesting depth. |
| JsonString.WellFormedExactly | apps/homepage/vite-digests.ts:60-64 | A text is well formed exactly when each high surrogate is followed by a low one and each low one follows a high one. |
| CanonicalJsonProofs.PrintWellFormed | apps/homepage/vite-digests.ts:60-64 | Printed text has no lone surrogate, so its encoding loses nothing. |
| CanonicalJsonProofs.DigestsAgreeExactly | apps/homepage/vite-digests.ts:60-64 | With a hash that separates well-formed texts, digests agree exactly when the contents are the same up to key order and undefined fields. |
| Manifests.ListAllExactly | apps/homepage/vite-digests.ts:70-81 | The recursive listing holds every file of the tree once, and fails exactly on an entry that is neither file nor directory. |
| Manifests.ListFilesExactly | apps/homepage/vite-digests.ts:70-81 | The sorted listing is strictly ascending and holds exactly the files of the tree. |
| Manifests.ListedExactly | apps/homepage/vite-digests.ts:70-81 | In literal units: the listing is strictly sorted and holds exactly the paths that begin with the directory and "/" and go on with the names of directories and a file of the tree, joined by "/". |
| Manifests.ListingOrderIrrelevant | apps/homepage/vite-digests.ts:70-81 | A tree read in another order at any of its levels lists the same files in the same order, or fails as before. |
| Manifests.RootsDisjoint | apps/homepage/vite-digests.ts:83-101 | Two source roots of which neither continues the other share no file. |
| Manifests.RouteManifestExactly | apps/homepage/vite-digests.ts:83-105 | The route source manifest fails exactly on a special entry below one of its two roots; otherwise it is strictly sorted by path and describes exactly the files whose relative path is `src/api/` or `src/routes/` and a path of that tree, each once, with the size and digest that reading it gives. |
| Manifests.RouteManifestOrderIrrelevant | apps/homepage/vite-digests.ts:95-101 | The route source manifest does not depend on the order in which any directory is read. |
| Manifests.AssetManifestExactly | apps/homepage/vite-digests.ts:107-119 | The approved asset manifest describes exactly the files whose relative path is `public/images/` and a path of the tree, each once; sorted by absolute path, it is strictly sorted by relative path too. |
| Manifests.AssetManifestOrderIrrelevant | apps/homepage/vite-digests.ts:107-119 | The approved asset manifest does not depend on the order in which any directory is read. |
| Manifests.AssetCollector.Visit | apps/homepage/vite-digests.ts:121-145 | The recursive visitor adds exactly the `/images/` string leaves of a value to the set, repeating none. |
| Manifests.CollectAssetPaths | apps/homepage/vite-digests.ts:121-145 | The result is sorted, without duplicates, and holds exactly the string leaves that start with `/images/`. |
| LogTails.LogTail.Append | tools/e2e/golden-harness.ts:118-128 | The kept text stays the last 131072 characters of all chunks appended so far. |
| LogTails.LogTail.Read | tools/e2e/golden-harness.ts:118-128 | Reading gives the last 131072 characters of the concatenation of all chunks. |
| LogTails.TailExactly | tools/e2e/golden-harness.ts:92 | A text within the limit is kept whole; of a longer one exactly the last units are kept. |
| LogTails.TailAbsorbs | tools/e2e/golden-harness.ts:92 | Truncating before appending and truncating afterwards agree with truncating once. |
| LogTails.TruncateEachStep | tools/e2e/golden-harness.ts:118-128 | For any chunks, truncating at every step equals truncating once at the end. |
| Redaction.ContainsAt | tools/e2e/golden-harness.ts:95-116 | The containment test is true exactly when the part stands at some position of the text. |
| Redaction.ReplaceNothing | tools/e2e/golden-harness.ts:95-116 | A text without the secret comes back unchanged. |
| Redaction.ReplaceFirst | tools/e2e/golden-harness.ts:95-116 | What is before the leftmost occurrence stays, the occurrence becomes `[REDACTED]`, and what follows it is treated alike. |
| Redaction.ReplaceEmpty | tools/e2e/golden-harness.ts:95-116 | An empty secret puts the marker before every unit and at the end. |
| Redaction.MaskExactly | tools/e2e/golden-harness.ts:95-116 | Around its first match the header rule keeps the name, hides the value behind the marker and goes on behind it. |
| Redaction.ReplacedInTurn | tools/e2e/golden-harness.ts:95-116 | Secrets are replaced in registration order, each in what the earlier ones left. |
| Redaction.ReplaceAllClears | tools/e2e/golden-harness.ts:95-116 | Replacing one secret by the marker removes it and creates no other unmarked secret that was not there. |
| Redaction.MaskCreatesNothing | tools/e2e/golden-harness.ts:95-116 | Masking header values creates no occurrence of an unmarked secret. |
| Redaction.Redactor.Register | tools/e2e/golden-harness.ts:95-116 | Registering keeps the secrets a set in insertion order. |
| Redaction.Redactor.Apply | tools/e2e/golden-harness.ts:95-116 | The loop over the secrets and then the header rule give the redacted text, and no usable secret stands at any position of it. |
| Redaction.Redactor.LeaksInto | tools/e2e/golden-harness.ts:95-116 | The leak test is true exactly when some registered secret stands at some position. |
| Redaction.HexIsUnmarked | tools/e2e/golden-harness.ts:1089-1096 | The secrets the harness makes, texts of the units "0" to "9" and "a" to "f", share no unit with the marker. |
| Redaction.ReplacedClears | tools/e2e/golden-harness.ts:95-116 | After all replacements, in any registration order, no registered secret occurs. |
| Redaction.NothingLeaks | tools/e2e/golden-harness.ts:95-116 | Whatever the order and the header matches, no registered secret occurs in a redacted text. |
| Redaction.LeakFreeExactly | tools/e2e/golden-harness.ts:95-116 | For secrets without marker characters, redaction of every text is leak-free exactly when no secret is empty. |
| Redaction.EncodedContains | tools/e2e/golden-harness.ts:1248-1284 | An ASCII text that occurs among the bytes of a UTF-8 file, read one unit per byte, occurs in the text that was written. |
| Redaction.RedactedFileLeaksExactly | tools/e2e/golden-harness.ts:1248-1284 | Of hexadecimal secrets the leak test finds one in a file written redacted exactly when one of them is empty. |
| Redaction.MarkedSecretReassembled | tools/e2e/golden-harness.ts:95-116 | A secret that shares characters with the marker can be put together again by the replacement itself; hexadecimal secrets share none. |
| ProcessTable.ReachableIsLeastClosed | tools/e2e/golden-harness.ts:806-822 | The pids reachable by parent links are inside every set that holds the runner and is closed under "child of". |
| ProcessTable.Descendants | tools/e2e/golden-harness.ts:806-822 | On every table, with cycles and in any row order, the loop ends and owns exactly the reachable pids; the result is those minus the runner, zombies and its own `ps`. |
| ProcessTable.FilterExactly | tools/e2e/golden-harness.ts:816-822 | A row is kept exactly when it is there and passes the four tests. |
| ProcessTable.FilterJoins | tools/e2e/golden-harness.ts:816-822 | Rows are reported in the order of the table. |
| Provider.PeakIsLargest | tools/e2e/golden-harness.ts:635-639 | The running maximum is the largest number of open responses at any moment, and is reached. |
| Provider.KeptIsLongestPrefix | tools/e2e/golden-harness.ts:640-645 | Dropping chunks as they overshoot keeps exactly the longest prefix of chunks within the limit. |
| Provider.LongestPrefixUnique | tools/e2e/golden-harness.ts:640-645 | There is only one longest fitting prefix of chunks. |
| Provider.WithinLimitArrivesWhole | tools/e2e/golden-harness.ts:640-645 | A body within the limit arrives whole, however it is split. |
| Provider.SizeRejectionExactly | tools/e2e/golden-harness.ts:573-617 | The kept bytes exceed the limit exactly when some leading chunks total one byte more than it. |
| Provider.SizeAnswers | tools/e2e/golden-harness.ts:573-617 | 413 is answered exactly to well-addressed requests with such chunks; a body within the limit is recorded whole and answered 400, 204 or 503. |
| Provider.OversizeBodyCanPass | tools/e2e/golden-harness.ts:640-645 | An oversize body whose chunks jump over the limit is not seen as oversize. |
| Provider.AnsweredExactly | tools/e2e/golden-harness.ts:573-617 | Each status and each rejection text has one cause: the first test a request fails, else its body, else the mode; a body is recorded exactly when it was read, as its longest fitting prefix of chunks, with number, mode and key. |
| Provider.Receiver.OpenRequest | tools/e2e/golden-harness.ts:630-639 | A request opens with an empty buffer and joins the open responses; the counters are the number of open responses and its largest value so far. |
| Provider.Receiver.ReceiveData | tools/e2e/golden-harness.ts:640-644 | A chunk is kept exactly while the running total is at most one byte over the limit, and changes only the buffer of its own request, however requests interleave. |
| Provider.Receiver.EndRequest | tools/e2e/golden-harness.ts:573-617 | The one end of a body appends one attempt, numbered without gaps, with the mode in force and exactly the kept bytes. |
| Provider.Receiver.CloseResponse | tools/e2e/golden-harness.ts:637-639 | An open response closes once, leaves the set of open responses and changes nothing else. |
| Provider.Receiver.ChangeMode | tools/e2e/golden-harness.ts:667-670 | A mode change affects later answers only. |
| Journey.EveryRunTold | tools/e2e/golden-harness.ts:1157-1326 | In every run the world is what the events tell: the first signal and the first supervised exit are kept, every registered secret is, the outcome is that of the event that ended the body, and cleanup, source check, reason and files are those of their events. |
| Journey.GoesOnExactly | tools/e2e/golden-harness.ts:1105-1326 | A run goes on with exactly these events: before the body ended, checkpoints, secrets and endings; then cleanup, source check, reason and report, each once and in this order; signals and exits until the report. |
| Journey.BeginsExactly | tools/e2e/golden-harness.ts:1105-1117 | A checkpoint call of a step becomes pending exactly when it is the next required one; any other call changes nothing. |
| Journey.AwaitedPasses | tools/e2e/golden-harness.ts:1105-1326 | For every list of steps, the run that begins and completes each in order, succeeds and is disturbed by nothing ends in a passed receipt with exit code 0 that names them all. |
| Journey.EveryRunConsistent | tools/e2e/golden-harness.ts:1157-1215 | On every interleaving the retained signal is the first received one, the reason and primary failure are derived from what had happened, and the receipt from them. |
| Journey.RecordIsPrefix | tools/e2e/golden-harness.ts:1105-1125 | At every moment of every run in which calls complete in turn, overlapping or abandoned ones included, the recorded steps are a prefix of the required ones. |
| Journey.PrefixExactly | tools/e2e/golden-harness.ts:1105-1125 | For distinct required steps that is exact: the record is a prefix at every moment if and only if no accepted call completes after another one completed since it passed the order check. |
| Journey.SequentialInTurn | tools/e2e/golden-harness.ts:1105-1125 | Calls that each begin when none is observing complete in turn. |
| Journey.PassedExactly | tools/e2e/golden-harness.ts:1200-1326 | In every run: a receipt says passed exactly when its exit code is 0, and exactly when the body passed, no signal was retained when the reason was computed, cleanup had no error, the source was unchanged and no file holds a registered secret; then it names as many steps as are required. |
| Journey.PassedInOrderExactly | tools/e2e/golden-harness.ts:1105-1125 | A passed receipt names the required steps in their order when calls complete in turn, and for distinct steps only then. |
| Journey.OwnFilesLeakExactly | tools/e2e/golden-harness.ts:1248-1295 | In every run `evidence.json` and `failure.log` show a registered secret exactly when one of the secrets is empty; otherwise only another file can fail the run for a leak. |
| Journey.ExitCodeExactly | tools/e2e/golden-harness.ts:1002-1003 | The exit code and termination signal name the first signal unless the deadline interrupted first. |
| Journey.SignalBeforeReason | tools/e2e/golden-harness.ts:1202-1206 | A journey interrupted by a signal had received it when the reason was computed. |
| Journey.LateSignalPasses | tools/e2e/golden-harness.ts:1202-1206 | A signal, either of the two, after the reason was computed leaves a passed receipt. |
| Journey.OverlapDefeatsOrder | tools/e2e/golden-harness.ts:1105-1125 | That hypothesis is needed: for any two required steps, two overlapping calls of the first both pass the order check, and the run passes with a record that names it twice. |
| Scopes.EveryRun | tools/e2e/golden-harness.ts:199-298 | On every interleaving finalizers are conserved and new ones are new, each process is what its finalizers that stand, ran or failed say, children are held by the journey scope, and backends follow one another. |
| Scopes.EveryRunTold | tools/e2e/golden-harness.ts:199-298 | In every run each process, scope and boot is what the events did: alive exactly while it neither crashed nor was ended by a finalizer that ran, watched and with a pool exactly from the event that began it to the finalizer that ended it, expected to exit exactly when its mark or its cluster stop ran. |
| Scopes.GoesOnExactly | tools/e2e/golden-harness.ts:199-298 | A run goes on with exactly these events: a live process may crash at any moment and its watcher report it once; finalizers of a closing scope run newest first, a child only after it closed, and may fail on what is still there; backends boot one after the other, each once the last one closed, until a boot fails. |
| Scopes.EachMadeOnce | tools/e2e/golden-harness.ts:199-298 | Each process stems from exactly one acquisition, and is in the scope, of the kind and as supervised as that said. |
| Scopes.SpawnRuns | tools/e2e/golden-harness.ts:233-298 | In every run a process can be spawned into the open journey scope or into the booting backend scope; its scope then holds its three finalizers on top. |
| Scopes.SpawnedCrashReported | tools/e2e/golden-harness.ts:250-286 | It can crash at once and be reported; supervision then fails for it exactly when it is supervised, in whichever scope. |
| Scopes.ClusterRuns | tools/e2e/golden-harness.ts:690-755 | In every run a cluster can be started, watched and given its pool, and its crash fails supervision. |
| Scopes.BootRuns | tools/e2e/golden-team-application.ts:184-208 | Whenever no backend is current one can be booted: in a scope of its own, alive and supervised. |
| Scopes.RestartRuns | tools/e2e/golden-team-application.ts:377-382 | In every run a current backend can be closed and another one booted in its place, in a new scope. |
| Scopes.JourneyCanEnd | tools/e2e/golden-team-application.ts:180-208 | Whatever happened before, the journey can begin its release at once and be brought to its end. |
| Scopes.ReleasedInReverse | tools/e2e/golden-harness.ts:233-298 | At every moment the finalizers that ran are the newest ones, newest first; a closed scope ran all of them in reverse order. |
| Scopes.ProcessesInReverse | tools/e2e/golden-harness.ts:199-298 | Of two processes of one scope the later one is ended first. |
| Scopes.PushedStays | tools/e2e/golden-harness.ts:199-298 | Whatever a run has put into a scope stays there in its place, however the run goes on. |
| Scopes.ChildrenFirst | tools/e2e/golden-team-application.ts:177-208 | A process of the journey scope acquired before a backend scope was forked is ended only after that scope closed and its backend was ended: no backend outlives the cluster. |
| Scopes.ReleaseOrder | tools/e2e/golden-harness.ts:226-298 | Of what ran in a scope, the exit of a process is marked before its group is signalled and its log drained last; pool, watcher, cluster run in this order; later processes and later children come first. |
| Scopes.ReleasedOnce | tools/e2e/golden-harness.ts:199-298 | A process is ended by its scope at most once, and by a closed scope exactly once; it is alive exactly while it neither crashed nor was ended successfully, and its exit had been marked, or its watcher stopped, before. |
| Scopes.StandsOrRan | tools/e2e/golden-harness.ts:233-298 | Every finalizer that was added either still stands or ran exactly once. |
| Scopes.PoolClosedExactly | tools/e2e/golden-harness.ts:700-755 | The end of the pool runs before its cluster stops, and the pool is closed by then exactly when that end did not time out. |
| Scopes.TimedOutPoolStaysOpen | tools/e2e/golden-harness.ts:746-752 | A pool whose end timed out is still open when its cluster has stopped. |
| Scopes.FailedExactly | tools/e2e/golden-harness.ts:867-932 | An ending is recorded as failed exactly when some step of the run found that what it releases was still there. |
| Scopes.ClosedJourney | tools/e2e/golden-harness.ts:1165-1171 | Once the journey scope closed, every sub-scope closed and every finalizer ran; no owned process and no pool is left exactly when every ending that had something to end succeeded. |
| Scopes.SomeReleaseEnabled | tools/e2e/golden-team-application.ts:180-208 | While the journey scope is closing, some release step can be taken. |
| Scopes.ReleaseCompletes | tools/e2e/golden-team-application.ts:180-208 | From any moment of a release, release steps alone bring the journey scope to its end. |
| Scopes.SupervisionExactly | tools/e2e/golden-harness.ts:263-286 | Supervision fails exactly when some step of the run reports the exit of a process that an earlier acquisition made as supervised, in whichever scope, before the release marked it, or of a cluster. |
| Scopes.FirstIsBlamed | tools/e2e/golden-harness.ts:263-286 | The first unexpected exit is the one that is blamed. |
| Scopes.UnexpectedIsCrash | tools/e2e/golden-harness.ts:250-286 | Every exit reported as unexpected was a crash at an earlier step; none that the release caused is ever reported so. |
| Scopes.BlamedCrashed | tools/e2e/golden-harness.ts:263-286 | The process that supervision blames crashed at some step of the run. |
| Scopes.LateWatcherMissesCrash | tools/e2e/golden-harness.ts:250-286 | A crash before release goes unreported when the release marks the exit before the watcher runs. |
| Scopes.PromptWatcherFindsCrash | tools/e2e/golden-harness.ts:263-286 | The same crash fails supervision when the watcher runs first. |
| Scopes.NeverCoexist | tools/e2e/golden-team-application.ts:177-208 | In every run, failed boots included, a backend alive beside a later one outlasted its own release: its scope closed and its ending failed. While endings succeed, a restarted backend never coexists with the one it replaces. |
| CorrectionLedger.StorageKeepsChain | packages/database/migrations/0039-interview-assessment-corrections.sql:106-175 | Whatever statements any client sends, corrections form one chain from the conduct, receipts name corrections, audit entries name receipts, and no row is changed or removed. |
| CorrectionLedger.InsertExactly | packages/database/migrations/0083-application-decision-correction-fence.sql:138-151 | A correction row gets in exactly when its corrector is an assigned interviewer other than the applicant, the interview is not cancelled or, once decided, was completed and not cancelled then and a window that somebody else opened is current, it continues the largest revision under a new command, and the interview carries its resulting revision. |
| CorrectionLedger.StatementsExactly | packages/database/migrations/0039-interview-assessment-corrections.sql:56-175 | Of the other statements: any revision and any surroundings get in, the next revision exactly on the expected one, a receipt exactly of a correction and an audit entry exactly of a receipt, each under a new command; no row is rewritten or deleted. |
| CorrectionLedger.StagesCommit | packages/database/src/recruitment/conduct-postgres.ts:1180-1222 | On a consistent ledger whose fence allows the corrector, the triggers and keys let all staged writes through, and together they are the commit. |
| CorrectionLedger.GateExactly | packages/domain/src/recruitment/conduct.ts:439-505 | Exactly those pass the gate whom the endpoint refuses nothing, who interview or co-interview and are not the applicant, of an interview not cancelled, before its semester ends, while the decision is open or in a current window that somebody else opened; each refusal has its own cause. |
| CorrectionLedger.CommitsExactly | packages/database/src/recruitment/conduct-postgres.ts:1028-1230 | An attempt commits exactly under that condition, readable, alone and unknown under its key, naming the current tag and revision, with fitting answers, no failing write and no early decision. |
| CorrectionLedger.StatusesExactly | apps/backend/src/recruitment/http-commands.ts:534-608 | Each status an attempt is answered with has one cause, in the fields of the attempt and of the interview. |
| CorrectionLedger.EndpointRefuses | apps/backend/src/recruitment/http-commands.ts:555-565 | What the endpoint refuses of a readable attempt is answered as it is, with its status, and changes nothing. |
| CorrectionLedger.SurroundExactly | packages/database/migrations/0083-application-decision-correction-fence.sql:110-171 | Between two attempts interviewers, applicant, cancellation, decision, window and end of semester may become anything, and no row changes. |
| CorrectionLedger.SweepExactly | apps/backend/src/http-api/receipt-transaction.ts:338-364 | The sweep redacts exactly the responses that are a day old. |
| CorrectionLedger.GateMeetsFence | packages/domain/src/recruitment/conduct.ts:439-505 | Whom the correction gate lets through, the decision fence of the storage lets through exactly when the decision did not close on an interview that was uncompleted or cancelled then. |
| CorrectionLedger.EarlyDecisionBlocks | packages/database/migrations/0083-application-decision-correction-fence.sql:26-37 | After such an early decision no attempt of any run commits a correction any more. |
| CorrectionLedger.EarlyDecisionRefuses | packages/database/migrations/0083-application-decision-correction-fence.sql:138-151 | A command that would commit passes the same gate after an early decision and is answered 503. |
| CorrectionLedger.NewCommand | packages/database/src/recruitment/conduct-postgres.ts:1147-1162 | A command without an HTTP receipt has no correction, receipt or audit row, so the domain receipt lookup never finds one. |
| CorrectionLedger.EveryRun | tools/acceptance/interview-correction-integrity.ts:282-454 | In every reachable ledger each predecessor is the previous effective revision, the aggregate is the last resulting one, and corrections, receipts, audit entries and HTTP receipts match one to one. |
| CorrectionLedger.EveryFreshRun | tools/acceptance/interview-correction-integrity.ts:282-454 | So in every run that starts from a conduct without corrections. |
| CorrectionLedger.ConsistentLinked | tools/acceptance/recommendation-check.ts:1923-2014 | In a consistent ledger the foreign keys hold and the effective revision is the aggregate's. |
| CorrectionLedger.HistoryOnlyGrows | tools/acceptance/recommendation-check.ts:1914-1923 | The original assessment and all earlier rows stay, in their order, however a run goes on. |
| CorrectionLedger.RefusedLeavesAll | tools/acceptance/interview-correction-boundaries.ts:388-422 | Every other attempt leaves all rows and receipts as they were, but for its own expired response. |
| CorrectionLedger.OneCommitPerBase | tools/acceptance/recommendation-check.ts:2110-2135 | Of all commands on one base revision at most one commits. |
| CorrectionLedger.RaceHasOneWinner | tools/acceptance/recommendation-check.ts:2110-2135 | Of two commands that would each commit, whichever comes second is refused with 412 and writes nothing. |
| CorrectionLedger.CommittedRecords | packages/database/src/recruitment/conduct-postgres.ts:1173-1230 | A commit makes its own content the effective assessment, one revision after the one it named, by a corrector the decision fence allows, and answers with the tag the next command must name. |
| CorrectionLedger.RowWasCommitted | tools/acceptance/recommendation-check.ts:1923-2014 | Every correction row of a run was committed by an attempt of it, with that attempt's content, sender and time, and the decision fence of that moment allowed the sender. |
| CorrectionLedger.FailedStageLeavesAll | tools/acceptance/interview-correction-boundaries.ts:866-958 | Whichever write stage fails in whatever run, the answer is 503, the run goes on as if the command had not been sent, and the same command sent next commits what it would have committed. |
| CorrectionLedger.ReplayIsExact | tools/acceptance/recommendation-check.ts:2061-2109 | However many corrections commit since, the same request gets the first stored response for a day, another payload under the key is refused, and missing authority comes before both. |
| CorrectionLedger.ReplayedWasCommitted | apps/backend/src/http-api/receipt-transaction.ts:288-302 | Whatever is replayed was committed before, by the same person under the same key for the same request, and is replayed only to a participant for whom a correction is open now. |
| CorrectionLedger.Store.Write | tools/acceptance/interview-correction-boundaries.ts:866-958 | One write stage: a rejected statement writes nothing, a failing one has written before it fails. |
| CorrectionLedger.Store.WriteRow | packages/database/src/recruitment/conduct-postgres.ts:1180-1205 | The revision and the correction row are written, or only the revision when it fails or the decision fence refuses the row. |
| CorrectionLedger.Store.WriteReceipts | packages/database/src/recruitment/conduct-postgres.ts:1206-1223 | Of receipt, audit entry and HTTP receipt those up to the failing one are written. |
| CorrectionLedger.Store.WriteStages | packages/database/src/recruitment/conduct-postgres.ts:1180-1222 | The write stages succeed exactly when none fails and the decision fence allows the corrector; either way the rows hold exactly what was written until then. |
| CorrectionLedger.Store.Correct | apps/backend/src/http-api/receipt-transaction.ts:265-316 | The transaction with its checks in order, its stages and its rollback does exactly what the atomic step does; an attempt whose stages failed or were refused half-way leaves the rows it found. |
| AdmissionOutcomes.BasisExactly | packages/database/migrations/0083-application-decision-correction-fence.sql:40-51 | What an application rests on: what was frozen, else the recommendation of a completed, uncancelled interview, else the registration as returning. |
| AdmissionOutcomes.OutcomeExactly | packages/database/migrations/0083-application-decision-correction-fence.sql:40-74 | The outcome everybody reads: announced, else with a frozen basis the last recorded one, else Admitted for Ja and Rejected for Nei, else the last recorded one. |
| AdmissionOutcomes.RevisionExactly | packages/database/migrations/0083-application-decision-correction-fence.sql:110-130 | A revision gets in exactly when nothing is announced, it is the next one, and it is what the interview recommends, undecided, with nothing recorded, or a decision where one is open; the first freezes its basis. |
| AdmissionOutcomes.AnnouncementExactly | packages/database/migrations/0081-admission-outcome-policy.sql:42-59 | An announcement gets in exactly when it is the first and names the last revision and its outcome, not against the interview. |
| AdmissionOutcomes.DecideProblems | packages/database/src/admissions/outcome.ts:308-332 | Each refusal of a decision names its own cause: announced, derived, without evidence, or against a placement. |
| AdmissionOutcomes.AnnounceProblems | packages/database/src/admissions/outcome.ts:334-388 | Each refusal of an announcement names its own cause: announced, without evidence, undecided, or against a placement. |
| AdmissionOutcomes.DecideExactly | packages/database/src/admissions/outcome.ts:308-332 | A decision is made exactly on an unannounced Kanskje or Returning, unless it rejects a placed applicant; with nothing frozen that is an interview recommending Kanskje, or a returning registration without Ja or Nei; it adds one revision or, for the current outcome, none; a refusal is 422 exactly for a basis that takes no decision, else 409; the storage guards never refuse it. |
| AdmissionOutcomes.AnnounceExactly | packages/database/src/admissions/outcome.ts:334-388 | An announcement is made exactly when there is an outcome that no placement contradicts; it names that outcome and the last revision, with nothing frozen Admitted exactly for a recommendation Ja and Rejected exactly for Nei; only a derived outcome adds a revision; a refusal is 422 exactly without any evidence, else 409; the guards never refuse it. |
| AdmissionOutcomes.EveryRun | packages/database/migrations/0081-admission-outcome-policy.sql:30-77 | In every run revisions are contiguous, frozen bases, deciders and announcements fit together, and envelopes match announcements one to one. |
| AdmissionOutcomes.CommitsExactly | apps/backend/src/admission/outcome-http.ts:322-494 | An attempt commits exactly when it is readable, allowed, alone and unknown under its key, names the current entry in its representation, may make its change and nothing fails. |
| AdmissionOutcomes.StatusesExactly | apps/backend/src/admission/outcome-http.ts:322-494 | Each status an attempt is answered with has one cause, in the fields of the attempt and of the application. |
| AdmissionOutcomes.FailureLeavesAll | tools/acceptance/admission-outcome-check.ts:1042-1065 | A command that would commit and meets a failing mail or receipt is answered 503 and records nothing. |
| AdmissionOutcomes.MeanwhileExactly | packages/database/migrations/0083-application-decision-correction-fence.sql:40-74 | Between two attempts profile, evidence and placement of an application may become anything, and nothing else changes. |
| AdmissionOutcomes.RefusedLeavesAll | tools/acceptance/admission-outcome-check.ts:1042-1065 | An attempt that does not commit changes no record and queues no mail. |
| AdmissionOutcomes.RecordOnlyGrows | tools/acceptance/admission-outcome-check.ts:1275-1288 | History only grows and keeps its first frozen basis; once announced, neither history nor announcement changes. |
| AdmissionOutcomes.OneEnvelopePerAnnouncement | tools/acceptance/admission-outcome-check.ts:1066-1100 | An announced application has exactly one envelope and any other none. |
| AdmissionOutcomes.CommitQueues | packages/database/src/admissions/outcome.ts:356-388 | An announcement queues one envelope in the words of its outcome and placement, a decision none, no other application changes, and the answered tag is the current one. |
| AdmissionOutcomes.DerivedNeverDecided | tools/acceptance/admission-outcome-check.ts:814-825 | A revision a run adds is a decision exactly on Kanskje or Returning; on Ja and Nei it is the one derived, announced outcome. |
| AdmissionOutcomes.CommitMovesRevision | packages/database/src/admissions/outcome.ts:65-113 | A command that recorded something moved the revision its entity tag was derived from. |
| AdmissionOutcomes.OneChangePerVersion | tools/acceptance/admission-outcome-check.ts:961-977 | Of all commands on one version of an application at most one records anything. |
| AdmissionOutcomes.ReplayIsExact | tools/acceptance/admission-outcome-check.ts:755-782 | An exact replay gets the first answer for a day, another command under the key is refused, nothing is recorded. |
| AdmissionOutcomes.ReceiptWasCommitted | tools/acceptance/admission-outcome-check.ts:1286-1304 | Only executed commands keep a receipt. |
| AdmissionOutcomes.Board.DecideNow | packages/database/src/admissions/outcome.ts:308-332 | The decision in its own order of tests and one guarded write does exactly what the specification says. |
| AdmissionOutcomes.Board.AnnounceNow | packages/database/src/admissions/outcome.ts:334-388 | The announcement's guarded writes and its mail do exactly what the specification says, or name the same problem. |
| AdmissionOutcomes.Board.Handle | apps/backend/src/admission/outcome-http.ts:322-494 | One attempt with its checks, writes and rollback does exactly what the atomic step does. |
| Mailboxes.Mailbox.Receive | tools/acceptance/admission-outcome-check.ts:100-150 | A request is answered 401 exactly without the token, 400 exactly with it when it is not strict or not keyed by its delivery id, else 200; each id keeps its first message and counts its requests; a refusal records nothing. |
| Mailboxes.RecordedIs | tools/acceptance/admission-outcome-check.ts:130-140 | An id is recorded exactly when a message came under it, with as many attempts as messages. |
| Mailboxes.MatchesExactly | tools/acceptance/admission-outcome-check.ts:1310-1333 | With distinct delivery ids, the mailbox check passes exactly when the accepted requests were the queued envelopes, each sent once. |
| Counting.CoverExactly | tools/acceptance/recommendation-check.ts:907-928 | Distinct keys account for every element exactly when each element is one of them. |
| Counting.ExactlyExpected | tools/acceptance/recommendation-check.ts:907-928 | For distinct keys, the right length and the right rows under each key mean all expected rows and no other, and conversely. |
| Counting.StraysExactly | tools/acceptance/recommendation-check.ts:907-928 | When the length is right and every key finds its number of rows, no row is a stray exactly when no key is listed twice. |
| ReturningEffects.CompleteExactly | tools/acceptance/recommendation-check.ts:912-926 | The sorted, joined texts accept exactly the three effects of a registration, in any row order. |
| ReturningEffects.AcceptsExactly | tools/acceptance/recommendation-check.ts:907-928 | With distinct registrations the check accepts exactly when the rows are the three effects of every registration and nothing else. |
| ReturningEffects.RowsExactly | tools/acceptance/recommendation-check.ts:901-928 | In literals: the check accepts exactly three rows for each registration, its activation, subscription and audit row with ordinals 0, 1 and 2 among them. |
| ReturningEffects.EveryRowBelongs | tools/acceptance/recommendation-check.ts:907-928 | Every accepted row belongs to one registration, is one of its effects, and occurs once. |
| ReturningEffects.NoStraysExactly | tools/acceptance/recommendation-check.ts:901-928 | For every list of registrations: acceptance rules out strays, whatever the rows, exactly when none is listed twice. |
| TeamEvidence.VerifyEnvelope | tools/e2e/golden-team-application-evidence.ts:473-507 | The comparisons accept exactly the receipt to the applicant, answered to the team, and the notification the other way round with all seven lines, each with its literal subject. |
| TeamEvidence.VerifyRow | tools/e2e/golden-team-application-evidence.ts:737-760 | Of a deleted application a row is accepted exactly when it is cancelled for that reason and keeps no mail, of the first submission or after the recovery of the fallback when it is delivered and keeps none, else when it is still to be delivered, was tried and keeps its mail. |
| TeamEvidence.VerifyOutbox | tools/e2e/golden-team-application-evidence.ts:705-761 | Accepted are exactly outboxes of twice as many rows as submissions in which each submission finds its receipt and its notification under the command of its first submit receipt. |
| TeamEvidence.VerifyStored | tools/e2e/golden-team-application-evidence.ts:563-593 | Accepted are exactly the live submissions in their order, each found under the instant its visitor was told. |
| TeamEvidence.VerifyCommands | tools/e2e/golden-team-application-evidence.ts:595-619 | Accepted is exactly one command receipt for each submission and deletion, in their order, and for each revision, and no other. |
| TeamEvidence.VerifyReceipts | tools/e2e/golden-team-application-evidence.ts:621-673 | Accepted are exactly HTTP receipts that replay the confirmation of each form key, hold each delete key, and are as many of each operation as committed. |
| TeamEvidence.VerifyAudit | tools/e2e/golden-team-application-evidence.ts:690-703 | Accepted is exactly an audit none of whose rows holds the name, address, telephone number or words of an applicant. |
| TeamEvidence.VerifyDeleted | tools/e2e/golden-team-application-evidence.ts:810-820 | Accepted are exactly facts that hold none of the words of a deleted application, which must have been submitted. |
| TeamEvidence.StableExactly | tools/e2e/golden-team-application-evidence.ts:822-847 | Two snapshots compare alike exactly when nothing changed but memberships, their lifecycle and the progress of deliveries. |
| TeamEvidence.CommandFirst | tools/e2e/golden-team-application-evidence.ts:715-717 | The command looked up is that of the first submit receipt of the application. |
| TeamEvidence.FirstFound | tools/e2e/golden-team-application-evidence.ts:787-789 | The submission looked up is the first one of the application. |
| TeamEvidence.Observer.Group | tools/e2e/golden-team-application-evidence.ts:763-777 | The loop accepts exactly when every attempt fits, and groups exactly the attempts of each delivery in order. |
| TeamEvidence.Observer.VerifyProvider | tools/e2e/golden-team-application-evidence.ts:763-800 | The loops over attempts, deliveries and rows decide exactly the stated conditions on attempts and rows. |
| TeamEvidence.Observer.Verify | tools/e2e/golden-team-application-evidence.ts:511-847 | A checkpoint is accepted exactly when, field by field, tables, stored applications, command and HTTP receipts, audit, outbox, provider, replay, the absence of deleted words and the read-only comparison are as stated in terms of the browser record. |
| TeamEvidence.Observer.Observe | tools/e2e/golden-team-application-evidence.ts:853-862 | An accepted checkpoint becomes the prior one; a refused one does not. |
| TeamEvidence.EveryRowBelongs | tools/e2e/golden-team-application-evidence.ts:705-761 | With no deleted application submitted twice every outbox row is one of the two notifications of a submission and fits its checks. |
| TeamEvidence.LiveDistinct | tools/e2e/golden-team-application-evidence.ts:563-596 | The comparison with the stored applications makes the live submissions differ, since those are stored under a primary key. |
| TeamEvidence.StoredExactly | tools/e2e/golden-team-application-evidence.ts:563-592 | Under their primary key the comparison of the stored applications holds exactly when they are the live submissions, field by field and in order, each with the instant its visitor was told. |
| TeamEvidence.ReceiptsExactly | tools/e2e/golden-team-application-evidence.ts:621-674 | The submit receipts over HTTP are those of the form keys and no others, so no rejected submission left one, exactly when no form key was used twice with a team. |
| TeamEvidence.NoStraysExactly | tools/e2e/golden-team-application-evidence.ts:705-761 | An accepted outbox has no row of another application exactly when no deleted application was submitted twice. |
| TeamEvidence.RepeatedSubmissionHidesStrays | tools/e2e/golden-team-application-evidence.ts:595-735 | A deleted application listed twice, with both its submit receipts, leaves room for two strays. |
| TeamEvidence.AcknowledgedExactly | tools/e2e/golden-team-application-evidence.ts:784-786 | A delivery has an accepted attempt exactly when some attempt of it was answered 204. |
| TeamEvidence.DeliveriesMean | tools/e2e/golden-team-application-evidence.ts:763-800 | Every delivered notification was acknowledged, no pending, failed or cancelled one was, attempts of one delivery carry one body, and every attempt names a committed notification. |
| TeamEvidence.BlockKeepsFacts | tools/e2e/golden-team-application-evidence.ts:820-847 | Across any unbroken block of read-only steps nothing changes but memberships, their lifecycle and the progress of deliveries. |
| TeamEvidence.BlockSettlesNothing | tools/e2e/golden-team-application-evidence.ts:742-847 | In such a block no notification settles either, since the compared facts include its mail. |
| TeamEvidence.ReplayQueuesNothing | tools/e2e/golden-team-application-evidence.ts:802-809 | The deliveries seen at a replay are those seen when the submissions were made. |
| AssignmentProjection.CoversExactly | tools/e2e/legacy-current-assignment-snapshot.ts:87-102 | The five size and membership tests pass exactly when rows and entries are in one-to-one correspondence. |
| AssignmentProjection.SelectedExactly | tools/e2e/legacy-current-assignment-snapshot.ts:87-90 | The selection is the rows of the reviewed semester, all of them, in source order. |
| AssignmentProjection.BuildsExactly | tools/e2e/legacy-current-assignment-snapshot.ts:87-185 | The projection is built exactly when the inputs match, the correspondence holds, every digest matches and every active combined row is confirmed; no entry is ever missing. |
| AssignmentProjection.ThrowsExactly | tools/e2e/legacy-current-assignment-snapshot.ts:61-157 | Each error has one cause, in the order of the tests; a changed or unconfirmed row ends the projection with the error of the first such row in source order. |
| AssignmentProjection.RowExactly | tools/e2e/legacy-current-assignment-snapshot.ts:159-179 | Each field of a projected row, from its source row and reviewed entry: prefixed ids, the five weekdays, the three blocks. |
| AssignmentProjection.WorkdaysExactly | tools/e2e/legacy-current-assignment-snapshot.ts:175-178 | One digit from 1 to 8 becomes that number; any other text stays as it is. |
| AssignmentProjection.OccurrencesFollowRows | tools/e2e/legacy-current-assignment-snapshot.ts:148-185 | Occurrences keep the source order and count, each with its own entry, row and digest. |
| AssignmentProjection.MappingsExactly | tools/e2e/legacy-current-assignment-snapshot.ts:187-216 | The mappings are an order-preserving subsequence of the occurrences: exactly the resolvable ones. |
| AssignmentProjection.MapsExactly | tools/e2e/legacy-current-assignment-snapshot.ts:112-216 | The built mappings are exactly those of the occurrences whose four references are found, in their order, each under the last pair of its list, a person only for a user of an accepted occurrence. |
| AssignmentProjection.MappedOnce | tools/e2e/legacy-current-assignment-snapshot.ts:187-216 | No source assignment is mapped twice. |
| AssignmentProjection.MappedPersonAccepted | tools/e2e/legacy-current-assignment-snapshot.ts:112-146 | Every mapped person comes from an accepted person occurrence, and all four ids from the given references. |
| AssignmentProjection.PairsFound | tools/e2e/legacy-current-assignment-snapshot.ts:126-146 | A lookup finds something exactly when the key was paired, and what it finds was paired with it. |
| AssignmentProjection.LastPairFound | tools/e2e/legacy-current-assignment-snapshot.ts:124-146 | A lookup finds what the key was paired with last. |
| AssignmentProjection.SizeSaysDistinct | tools/e2e/legacy-current-assignment-snapshot.ts:92-100 | A set is as large as its list exactly when the list repeats nothing. |
| Decimal.ShowInjective | tools/e2e/legacy-current-assignment-snapshot.ts:92 | Different numbers give different source ids. |
| Decimal.ShowExactly | tools/e2e/legacy-current-assignment-snapshot.ts:92 | The text of an integer is its decimal digits without leading zeros, behind a minus sign when it is negative. |
| LintOverrides.LayeredExactly | oxlint.config.ts:203-215 | Layered plainly, the last matching override that states a rule decides it, or else the base. |
| LintOverrides.LastDecides | oxlint.config.ts:203-215 | After the completion the last matching override alone decides every plugin rule of a file, off where it is silent. |
| LintOverrides.OthersUnchanged | oxlint.config.ts:206-215 | Rules of other plugins are layered as before. |
| LintOverrides.LeaksExactly | oxlint.config.ts:203-215 | Plain layering leaks an earlier setting exactly when the last matching override is silent and an earlier layer is on. |
| LintOverrides.WholeConfiguration | oxlint.config.ts:297-300 | Later overrides that name no plugin rule leave the decision as it is. |
| LintOverrides.PresetsExactly | oxlint.config.ts:23-26 | A preset fold holds exactly the rules some preset names, at the given severity. |
| LintOverrides.OffAfterOn | oxlint.config.ts:265-267 | Switching presets off after others leaves on exactly the others' own rules. |

## Left out

- Scopes and Journey: the harness runs these as effects over mutable ledgers; they are modelled on values as state machines, which captures every interleaving of their steps but not aliasing of the ledger objects.
- Scopes: acquisition that is interrupted before its process exists adds only a finalizer that does nothing, and is not an event; the drain of a log collector does nothing to the process.
- Scopes.SupervisionExactly: does not say that a watcher ever runs, because the runtime promises no time for it.
- Scopes.FailedExactly: whether an ending succeeds is an event of its own; how long it waits and why a group survives or a pool does not end is not modelled.
- `runToCompletion`, `verifyCleanup`, the directory listing and the sampling of the harness: their results enter the journey as arbitrary cleanup errors, source errors and files.
- Journey.OwnFilesLeakExactly: the JSON of the evidence and the joined logs are arbitrary texts, and the matches of the header expression arbitrary spans.
- Redaction.Redactor.Apply: the header expression is any choice of non-empty spans, so nothing is said about which headers it finds; a secret cut by log truncation is not a registered value.
- ProcessTable.Descendants: parsing of the `ps` text is not part of the model.
- Provider.Receiver.EndRequest: whether a body decodes as JSON is a parameter; sockets and timing are events.
- CanonicalJsonProofs.ParsePrinted: a number is its opaque printed token, and NaN, the infinities and -0 print as JSON prints them; float printing is not modelled.
- `buildRouteContentProjectionManifest` and the file reads: the manifests take the size and digest of each file as given; paths are those of a system whose separator is the slash.
- CorrectionLedger: one interview after its conduct; other interviews are independent, and no other command moves the revision of a completed interview. What surrounds the corrections (interviewers, applicant, cancellation, decision, window, end of semester) may become anything between two attempts. Reading bodies and headers enters as what they decoded to; whether answers fit the questions and what the endpoint's credential and authority checks refuse are parameters, and one attempt reads one clock.
- CorrectionLedger.Store.Correct: the retry after a lost serialization race repeats the same attempt and is not an event; the branch for a domain receipt without an HTTP receipt is left out because `CorrectionLedger.NewCommand` shows it is never reached.
- AdmissionOutcomes: rendering of the mail, the placement commands and the onboarding fences; their effect on an application is an arbitrary change of profile, evidence and placement between any two attempts.
- Mailboxes.Mailbox.Receive: the read-back of the mailbox and unreadable request streams.
- TeamEvidence.Observer.Verify: teams, memberships, suspensions and audit history are compared as one value each; the JSON of the facts and of an audit row is a given text, and the digests of HTTP identities are the digested values.
- AssignmentProjection.BuildsExactly: the matching of source revision, reference digest, review date and person snapshot are given as three answers; digests are the digested values themselves.
- `startEffectReceiver` in `tools/acceptance/recommendation-check.ts`: another loopback receiver that records calls, like the two modelled in `Provider` and `Mailboxes`.
- LintOverrides: whether a glob matches a file is given as the set of files it matches.
- Browser journeys, Axe audits, seed data and SQL fixtures, HTTP clients and servers, SHA-256 and bcrypt.
