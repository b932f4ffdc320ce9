# Verified model of the Odoo manager's backend

A Dafny model of the parts of the Python backend that are state machines, streaming parsers, reorderings and
fixpoints, with proofs of what their code and comments promise. `dafny verify dfyconfig.toml` checks everything.

Code that changes things step by step is modelled by classes and by methods with loops; each is proved against a
specification function or an outright property, and the main results are lemmas about those.

| file | part of the backend |
|---|---|
| `DumpSplitter`, `DumpSplitterSpec`, `DumpSplitterProofs`, `ChunkIndependence`, `SplitterLimits`, `SplitterExact` | cutting a PostgreSQL dump, as it arrives, into COPY blocks, statements and post-data |
| `DumpRead` | the dump as it is printed, and the bytes it becomes |
| `SqlScript`, `SqlRoundTrip` | splitting the post-data into statements, against the printer of a task's script |
| `SqlPieces`, `SqlPiecesExact`, `SqlDumpScript` | statements written piece by piece, and the script as pg_dump prints it, comments included |
| `PostData`, `Catalogue`, `PostDataProofs`, `PostDataOnce` | reordering the post-data into parallel steps, over an abstract PostgreSQL catalogue |
| `PlanShape` | where each statement stands in the plan, and what may run at the same time |
| `JobQueue`, `JobQueueProofs`, `JobFailures` | the job table and its scheduler, one lock region at a time, and what a failure takes along |
| `JobExclusion` | what the scheduler keeps apart, said of the jobs' resources |
| `JobControl`, `JobControlProofs`, `JobStop` | stop requests, checkpoints, protected steps and reverts of one job, and its status meanwhile |
| `JobOutput` | the shortened output of a job and the interface that follows it piece by piece |
| `Multipart`, `MultipartRoundTrip` | the streaming reader of an uploaded form (section 5.1.1 of RFC 2046) |
| `DependencyReport`, `InstallPlan`, `LocalExclusion` | fixpoints over the module graph, cycles included |
| `ImportJournal` | importing modules, and undoing it when it stops half-way |
| `RepositoryTree` | finding modules in a listing of files, and by walking the folders |
| `Download` | a download resumed against a storage that cuts, reads short and refuses to resume |
| `Retention`, `RetentionProtocol` | deadlines of databases, against the job that deletes them and the user who extends them |
| `Text`, `Sets` | Python's `find` and line starts; finite sets |

## Where the code and its documentation disagree

The model follows the code; each point below is a lemma or the contract of a method.

- The docstring of `post_data_steps` says that the result is identical to a direct creation. It is, for every
  interleaving, if and only if the rows satisfy the foreign keys (`PlanPreservesMeaningIff`); a violated one is absent
  after a direct creation but present, not validated, after the plan (`ViolatedForeignKey`).
- An oversized post-data "goes back to psql with the rest" only if it had been recognised before the last chunk
  (`OversizedPostData`).
- Cutting a dump gives the same result for every choice of chunks if and only if what follows the first line of the
  post-data marker fits the lookback and, with freeze on, the words PARTITION BY and PARTITION OF run into a longer
  word neither in a COPY header that is frozen nor in a line before one (`ChunkIndependentIff`).
- A job can start between the failure of the job it waits for and the cancellation that should have caught it
  (`FailureWindow`). Nothing that conflicts with a job that failed or was stopped is left if and only if nothing of
  it is active when the cancellation comes (`ReleaseCancelsAllIff`), which only a scheduling pass in between can
  change (`FailureCancelsDependents`); with a pass owed, exactly when it starts such a job (`WindowIff`).
- Discarding a revert compares entries: it removes the very one meant if and only if the entries between it and the
  first equal one are all equal to it (`DiscardIsExactIff`).
- An import is undone entirely unless it stops between the move of a previous version and the note of that move
  (`Import.Run`, `StopsInMove`): that version then stays in the backups.
- The listing of a repository and the walk of its folders agree except on a manifest lying directly inside a skipped
  folder that the walk reaches (`ListingAgreesWithWalk`).
- After a local exclusion the update list is clean if and only if no module excluded earlier is waiting to be
  upgraded again (`UpdateListIsCleanIff`).
- A resumed download does not compare the start it is given with the start it asked for (`WrongStartIsAccepted`),
  and a storage that refuses to resume can keep it going for ever (`RefusalsNeverEnd`), which nothing else can
  (`OnlyRefusalsProlong`).
- A failed deletion blocks the extensions of a name, also for a new database of that name
  (`RefusalOutlivesTheDatabase`).
- Noting the arrival of a database after an extension accepted for it gets it deleted too early if and only if the
  arrival sets a deadline, and that deadline and the present are both before the one answered
  (`ArrivalIsHarmlessIff`).

## Model

| member | source | states |
|---|---|---|
| DumpSplitter.Splitter.Feed | odoo_manager_core/database_restore.py:466-522 | one call sends the rendering of the specification's pieces and leaves its state: held back, post-data, overflow, COPY flags, freeze |
| DumpSplitter.Splitter.Pump | odoo_manager_core/database_restore.py:477-522 | the loop of turns over the pending bytes and the chunk |
| DumpSplitter.Splitter.CopyStep | odoo_manager_core/database_restore.py:480-492 | inside a COPY block: all but three bytes leave, or the block ends at the first end-of-data line, with COMMIT when frozen |
| DumpSplitter.Splitter.StatementStep | odoo_manager_core/database_restore.py:493-520 | outside: post-data before any header, or a header (frozen or not), or the lines before the lookback |
| DumpSplitter.Splitter.Finish | odoo_manager_core/database_restore.py:524-526 | what was held back leaves, once |
| DumpSplitterProofs.FeedConserves | odoo_manager_core/database_restore.py:466-522 | one call loses, repeats and invents no byte; BEGIN is open exactly when the current block is frozen |
| DumpSplitterProofs.RunConserves | odoo_manager_core/database_restore.py:466-526 | over every run, freeze on or off, overflow or not: erasing BEGIN, TRUNCATE, WITH (FREEZE) and COMMIT gives back exactly the bytes fed, and BEGIN/COMMIT are balanced with the frozen flag |
| ChunkIndependence.CopyTurnAgrees | odoo_manager_core/database_restore.py:480-492 | a turn inside a block agrees with the whole remaining dump, whatever comes later |
| ChunkIndependence.StatementTurnAgrees | odoo_manager_core/database_restore.py:493-520 | so does a turn outside a block: what it finds in the buffer is what the whole dump has there |
| ChunkIndependence.ChunksDoNotMatter | odoo_manager_core/database_restore.py:442-526 | for every way of cutting the dump, sent bytes and post-data are those of a line-by-line reading without chunks: blocks run to the first end-of-data line, post-data starts at the first marker outside any block, a data row is never an instruction; under the condition that `ChunkIndependentIff` shows to be exact |
| SplitterLimits.RunAgreesOrPasses | odoo_manager_core/database_restore.py:468-476 | whatever the size of the post-data, it is set aside whole or has been sent whole |
| SplitterLimits.OversizedPostData | odoo_manager_core/database_restore.py:445-446 | above the limit it goes back to psql if and only if it was recognised before the last chunk |
| SplitterLimits.IdealConserves | odoo_manager_core/database_restore.py:442-446 | the line-by-line reading only separates: sent bytes and post-data put together are the dump |
| SplitterLimits.LongMarkerIsLost | odoo_manager_core/database_restore.py:453-454 | the cutting that loses a marker longer than the lookback, for every such dump |
| SplitterLimits.SamePostData | odoo_manager_core/database_restore.py:497-502 | freezing blocks does not move the post-data |
| SplitterExact.WhereToCut | odoo_manager_core/database_restore.py:493-511 | in every dump with the words run into a longer word in or before a frozen block, a place to cut it |
| SplitterExact.CutLosesTheFreeze | odoo_manager_core/database_restore.py:495-511 | cut there, a block that should be frozen is not |
| SplitterExact.ChunkIndependentIff | odoo_manager_core/database_restore.py:453-520 | freeze on or off: all cuttings agree with the line-by-line reading if and only if the marker fits the lookback after its first line and, with freeze, no such words come in or before a frozen block |
| DumpRead.HeaderTableIff | odoo_manager_core/database_restore.py:43 | the header pattern gives a table exactly for the lines `COPY table columns FROM stdin;` with that table, without a blank in it |
| DumpRead.MarkerLengthIff | odoo_manager_core/database_restore.py:42 | the post-data marker and its length are those of one of its three texts |
| DumpRead.HasPartitionIff | odoo_manager_core/database_restore.py:46 | the words that spend the freeze are found exactly where they stand by themselves |
| DumpRead.EveryTextIsPrinted | odoo_manager_core/database_restore.py:466-526 | every text is a printed dump: lines, blocks whose rows hold no end-of-data line, then the post-data, an unfinished line or an open block |
| DumpRead.ReadsAsPrinted | odoo_manager_core/database_restore.py:480-516 | a printed dump becomes its lines as they are, and each block as it is or, frozen, between BEGIN, TRUNCATE ONLY and COMMIT with the FREEZE option, written out byte by byte; the post-data is set aside |
| DumpRead.SplitAsPrinted | odoo_manager_core/database_restore.py:442-526 | the same for every cutting of a dump that may be cut anywhere |
| DumpRead.QuietSplitAsPrinted | odoo_manager_core/database_restore.py:442-526 | a dump without the words PARTITION BY or PARTITION OF outside its rows, its marker within 64 KiB, is such a dump |
| DumpRead.StreamDump | odoo_manager_core/database_restore.py:416-439 | the bytes written to psql while the dump is read chunk by chunk, the end included, and the post-data left aside |
| SqlScript.SplitSqlStatements | odoo_manager_core/database_restore.py:529-553 | the loop over tokens returns the statements of the specification |
| SqlScript.QuotedEndIsGreedy | odoo_manager_core/database_restore.py:56-57 | a quoted token is characters or doubled quotes, then a quote; the end is that of the longest match, and there is none only without a match |
| SqlScript.EscapedEndIsGreedy | odoo_manager_core/database_restore.py:55 | the same for an E string, where a backslash takes any character along |
| SqlRoundTrip.TokenPlaced | odoo_manager_core/database_restore.py:54-65 | a token closed within a statement is read the same inside any script |
| SqlRoundTrip.StatementRead | odoo_manager_core/database_restore.py:529-549 | nothing inside a closed statement splits it: no semicolon of a string, name, dollar body or comment |
| SqlRoundTrip.SplitUndoesScript | odoo_manager_core/database_restore.py:529-566 | splitting the script printed from any list of well-formed statements returns that list |
| SqlPieces.TokenRead | odoo_manager_core/database_restore.py:54-65 | each string with doubled quotes, E string, dollar body or comment is read as one token, wherever it stands |
| SqlPieces.PlainRead | odoo_manager_core/database_restore.py:54-65 | a character that opens none of these is no token |
| SqlPieces.PiecesClosed | odoo_manager_core/database_restore.py:54-65 | a statement made of such pieces is closed |
| SqlPiecesExact.WellFormedIff | odoo_manager_core/database_restore.py:54-65 | and every closed statement is made of them |
| SqlDumpScript.BlankIff | odoo_manager_core/database_restore.py:66 | the characters that count as blanks, by their codes |
| SqlDumpScript.StatementEntry | odoo_manager_core/database_restore.py:536-549 | a statement after any blanks and comment lines is returned alone, without its semicolon |
| SqlDumpScript.CommandEntry | odoo_manager_core/database_restore.py:541-549 | a psql command alone on its line is returned without the blanks after it |
| SqlDumpScript.SplitUndoesDump | odoo_manager_core/database_restore.py:529-553 | splitting the script that pg_dump prints, blanks and comments before each statement, psql commands, a last statement without semicolon or a last comment without newline, gives exactly the statements and commands, in order |
| PostData.TableOrder | odoo_manager_core/database_restore.py:636-640 | every table once, none else |
| PostData.ByTable | odoo_manager_core/database_restore.py:636-640 | one task a table, in the order of first appearance, statements in order |
| PostData.CloseGroup | odoo_manager_core/database_restore.py:590-602 | the steps of a finished group: builds in parallel, foreign keys created then validated, the rest alone |
| PostData.PostDataSteps | odoo_manager_core/database_restore.py:575-633 | the loop over statements returns the plan of the specification |
| PlanShape.KeysAgree | odoo_manager_core/database_restore.py:607-625 | a comment is attached to a statement exactly when it names what that statement creates, an index by its name in the schema of its table |
| PlanShape.SortIsClass | odoo_manager_core/database_restore.py:605-625 | the kind and table of each statement, those of a comment being of the last statement that created its object |
| PlanShape.PlanPlaces | odoo_manager_core/database_restore.py:575-633 | every statement stands in the plan as its kind asks; two stand in the same group of steps exactly when all those between them are of one kind, and otherwise in the order of the dump |
| PlanShape.BuildsSideBySide | odoo_manager_core/database_restore.py:578-580 | two builds of different tables, with only builds, their comments and psql commands between them, are in two tasks of one parallel step |
| PlanShape.PlanShapes | odoo_manager_core/database_restore.py:590-602 | in every plan, the parallel steps are those of builds and of validations, each statement in the task of its table; the other steps have one task, of foreign keys declared without control or of opaque statements |
| PlanShape.SideBySideApart | odoo_manager_core/database_restore.py:578-583 | statements in different tasks of a step touch different tables, and none is a foreign key or opaque |
| PostDataProofs.RunKeepsTable | odoo_manager_core/database_restore.py:578-583 | any interleaving of tasks of distinct tables keeps each table's order |
| PostDataProofs.ParallelIsSequential | odoo_manager_core/database_restore.py:578-583 | any interleaving of a parallel step has the effect of the dump's order |
| PostDataProofs.BuildGroupCommutes | odoo_manager_core/database_restore.py:578-580 | keys, indexes, constraints and their comments on different tables commute |
| PostDataProofs.ReferencesDeferred | odoo_manager_core/database_restore.py:595-599 | creating the foreign keys NOT VALID and then validating them is treating each in its place |
| PostDataProofs.ValidationsCommute | odoo_manager_core/database_restore.py:598-599 | the validations of different tables commute |
| PostDataProofs.PlanRuns | odoo_manager_core/database_restore.py:575-633 | every run of the plan has the effect of the statements in order, each foreign key deferred |
| PostDataOnce.RunsEachOnce | odoo_manager_core/database_restore.py:575-640 | every run of the plan executes exactly the dump's statements, each as often as the dump has it, psql's own commands excepted; a foreign key with control is declared without it, and one validation is added for it |
| PostDataOnce.ValidatedOnce | odoo_manager_core/database_restore.py:595-599 | a foreign key with control that is alone under its name is validated exactly once |
| PostDataProofs.PlanPreservesMeaning | odoo_manager_core/database_restore.py:575-633 | with satisfied foreign keys, every run of the plan leaves the catalogue of the dump's own order, opaque statements included |
| PostDataProofs.PlanPreservesMeaningIff | odoo_manager_core/database_restore.py:575-584 | without opaque statements: identical if and only if the rows satisfy the foreign keys |
| PostDataProofs.ViolatedForeignKey | odoo_manager_core/database_restore.py:581-584 | the input that shows the docstring's claim fails |
| PostDataProofs.PlanCanRun | odoo_manager_core/database_restore.py:585-633 | every plan has a run: no step is stuck |
| JobQueue.JobTable.Add | odoo_manager_core/job_queue.py:201-208 | a new job is queued last; the oldest finished jobs beyond the limit are forgotten, never an unfinished one |
| JobQueue.JobTable.Schedule | odoo_manager_core/job_queue.py:99-116 | one pass, with its list of active and of waiting jobs, is the specification's pass; exactly the jobs it marks running are to be started, in order, each once |
| JobQueue.JobTable.BeginCancel | odoo_manager_core/job_queue.py:124-148 | the outcome for every status; only a queued job changes |
| JobQueue.JobTable.MarkCancelling | odoo_manager_core/job_queue.py:155-157 | a job ended meanwhile is not marked |
| JobQueue.JobTable.MarkEnded | odoo_manager_core/job_queue.py:304-314 | the final status; done is only written over an active one |
| JobQueue.JobTable.Release | odoo_manager_core/job_queue.py:321-337 | a failure or a stop cancels exactly the queued jobs in conflict, and lists them, each once |
| JobQueue.JobTable.Reason | odoo_manager_core/job_queue.py:89-96 | the loop over earlier jobs |
| JobQueueProofs.StepKeeps | odoo_manager_core/job_queue.py:78-163 | every step of every thread keeps the scheduler's invariant |
| JobQueueProofs.AlwaysSafe | odoo_manager_core/job_queue.py:78-121 | in every reachable state: at most four active jobs, no two in conflict, none in conflict with an earlier unfinished one (conflicting jobs start in order of arrival), and no queued job without a reason or a pass to come |
| JobQueueProofs.ActiveJobsNeverConflict | odoo_manager_core/job_queue.py:78-86 | two active jobs never conflict |
| JobQueueProofs.PassJustifies | odoo_manager_core/job_queue.py:104-116 | after a pass every queued job is held back by the limit or by an earlier unfinished job |
| JobQueueProofs.HeldBackIsJustified | odoo_manager_core/job_queue.py:108-111 | what holds a job back came before it |
| JobQueueProofs.ReasonIsTrue | odoo_manager_core/job_queue.py:89-96 | the reason shown is true although only earlier jobs are looked at |
| JobQueueProofs.StepIsLighter | odoo_manager_core/job_queue.py:99-163 | without a submission every step decreases a measure |
| JobQueueProofs.NeverStuck | odoo_manager_core/job_queue.py:321-345 | a reachable state with unfinished jobs always has a step that does not depend on the user |
| JobQueueProofs.QueueDrains | odoo_manager_core/job_queue.py:321-345 | without submissions the queue empties within a bound |
| JobExclusion.ConflictIsCrossing | odoo_manager_core/job_queue.py:78-86 | two jobs conflict exactly when they share a resource, or one holds "*" and the other "*" or a project |
| JobExclusion.WorkingJobsAreApart | odoo_manager_core/job_queue.py:78-116 | over every run: at most four jobs work at once, no two hold the same resource, and beside one that holds "*" none holds "*" or a project |
| JobExclusion.NoneWaitsInVain | odoo_manager_core/job_queue.py:104-116 | after a pass that follows any run, a job waits only because four work or because an earlier unfinished one shares a resource with it or covers, or touches, its projects |
| JobExclusion.ReleaseByResources | odoo_manager_core/job_queue.py:321-337 | a job that failed or was stopped cancels exactly the waiting jobs that cross its resources; one that is done cancels none |
| JobExclusion.ChangedAreHandedOver | odoo_manager_core/job_queue.py:99-120 | the threads to start after a pass, and the jobs to report after an end, are exactly the jobs changed, each once and in order |
| JobExclusion.SixtyAreKept | odoo_manager_core/job_queue.py:201-205 | sixty jobs are kept: only finished ones are forgotten, the oldest first, and as many as needed or as there are |
| JobFailures.ReleaseCancelsAllIff | odoo_manager_core/job_queue.py:323-337 | the cancellation leaves nothing that conflicts if and only if no such job is active when it comes |
| JobFailures.FailureCancelsDependents | odoo_manager_core/job_queue.py:313-337 | from every good state, whatever comes between the end of a job that failed or was stopped and its cancellation of the others, a pass excepted: no job in conflict with it is left waiting or running |
| JobFailures.PassInTheWindow | odoo_manager_core/job_queue.py:313-337 | with a pass in between, each job that waited runs if the pass starts it, and is cancelled otherwise |
| JobFailures.WindowIff | odoo_manager_core/job_queue.py:313-337 | something in conflict survives if and only if that pass starts a job that waited for the one that ended |
| JobFailures.FailureWindow | odoo_manager_core/job_queue.py:313-337 | a run from the empty queue in which this happens |
| JobControl.Control.RequestCancel | odoo_manager_core/jobs.py:80-97 | already, refused, deferred or accepted; the flag is set in the last two only |
| JobControl.Control.Checkpoint | odoo_manager_core/jobs.py:111-119 | raises exactly when interruptible, and then enters the cleanup |
| JobControl.Control.LeaveProtected | odoo_manager_core/jobs.py:130-140 | a stop requested during the step takes effect at its end, unless an error is under way |
| JobControl.Control.DiscardRevert | odoo_manager_core/jobs.py:221-224 | removes the first equal entry, if any |
| JobControl.Control.TakeReverts | odoo_manager_core/jobs.py:226-231 | all reverts, newest first; none is left |
| JobControlProofs.RaisesOnlyWhenFree | odoo_manager_core/jobs.py:111-140 | never inside a protected step, never once the cleanup began, never twice |
| JobControlProofs.AlwaysKept | odoo_manager_core/jobs.py:80-240 | the invariant of the protocol over all interleavings |
| JobControlProofs.StopProtocol | odoo_manager_core/job_queue.py:292-359 | an ended job raised at most once; if it raised it ends stopped; it executed each pending revert exactly once, newest first, if it ends stopped, and none otherwise |
| JobControlProofs.AnswerIff | odoo_manager_core/jobs.py:80-97 | when each of the four answers to a stop request is given, and the flag it leaves |
| JobControlProofs.RaisesIff | odoo_manager_core/jobs.py:111-140 | a checkpoint, or the end of the outermost protected step, raises exactly when a stop was asked for and nothing raised or cleans up |
| JobControlProofs.FlagIff | odoo_manager_core/jobs.py:80-109 | over every run: the flag is set exactly when a request came while no irreversible step was open; the mark of the processes changed exactly when the cleanup began |
| JobControlProofs.EndIs | odoo_manager_core/job_queue.py:292-320 | a job ends stopped exactly when a stop had been asked for by the end of its action and the action failed or a checkpoint had raised; else failed or done as its action says |
| JobControlProofs.IrreversibleKeepsFlag | odoo_manager_core/jobs.py:81-90 | the flag does not change while an irreversible step is open |
| JobControlProofs.DiscardIsExactIff | odoo_manager_core/jobs.py:215-224 | exactly when discarding by equality removes the registration meant |
| JobControlProofs.PendingIsNeverDiscarded | odoo_manager_core/jobs.py:215-224 | then exactly the reverts never discarded are pending, in order |
| JobStop.StoppingMeansAsked | odoo_manager_core/job_queue.py:124-163 | over all interleavings of the three lock regions of any number of requests with the job's thread: a job shown as stopping has its flag set; one that ends stopped was withdrawn before it started or was asked to stop; one that cannot be stopped never is |
| JobStop.RefusalChangesNothing | odoo_manager_core/job_queue.py:150-157 | when a request is refused, and that neither status nor control changes then |
| JobOutput.Output.AppendOutput | odoo_manager_core/job_queue.py:285-290 | the output stays the end of everything written, never shorter than the window sent; whole up to 240 000 characters, else its last 120 000 |
| JobOutput.Output.OutputPayload | odoo_manager_core/job_queue.py:374-389 | exactly the missing text, or exactly the last window |
| JobOutput.SentIsTrue | odoo_manager_core/job_queue.py:377-388 | the same, with the exact condition for a continuation |
| JobOutput.MergeIsFaithful | odoo-manager-next/lib/job-output.ts:14-31 | appending or replacing keeps the interface on the last window of what was written up to its length |
| JobOutput.ShowsTheLog | odoo-manager-next/lib/job-output.ts:13-31 | over all interleavings of writing, asking and receiving, pieces late, repeated or out of order |
| JobOutput.OnlyTheMissing | odoo_manager_core/job_queue.py:374-389 | an interface not too far behind is sent exactly what it misses |
| JobOutput.OnePollCatchesUp | odoo_manager_core/job_queue.py:374-389 | one question answered at once brings the interface fully up to date |
| Multipart.Reader.FillBuffer | odoo_manager_core/archives.py:65-74 | reads at most one chunk; nothing is lost; the bytes still announced decrease |
| Multipart.Reader.ReadContent | odoo_manager_core/archives.py:112-132 | the sink gets the content up to the first boundary, wherever the reads cut it; the buffer stays bounded |
| Multipart.Reader.ReadPart | odoo_manager_core/archives.py:85-139 | one part of the form, or a refusal the form deserves |
| Multipart.Reader.Parse | odoo_manager_core/archives.py:76-141 | reading piece by piece is reading the whole body at once |
| Multipart.Reader.Save | odoo_manager_core/archives.py:50-159 | the result of the whole body; all announced bytes are read, accepted or refused, unless the stream itself stops |
| MultipartRoundTrip.ContentEnds | odoo_manager_core/archives.py:113-132 | a content without a boundary ends exactly where the encoder put its delimiter |
| MultipartRoundTrip.WholeRead | odoo_manager_core/archives.py:76-141 | an encoded form means what it was |
| MultipartRoundTrip.MeaningIsForm | odoo_manager_core/archives.py:99-141 | the form read part by part is the one those parts describe |
| MultipartRoundTrip.ReadBack | odoo_manager_core/archives.py:50-159 | for every sequence of short reads: the file and its name are those of the first part with a file name and the field's name, none otherwise; the fields are the named parts without a file name, each with its last content; the form is refused exactly when one of these exceeds 64 KiB; nothing is left unread |
| DependencyReport.FindNotLoaded | odoo_manager_core/module_dependencies.py:24-42 | the least set closed under blocking dependencies; the modules left only depend on loadable ones; the recorded reasons have no cycle |
| DependencyReport.RootsAreUnavailable | odoo_manager_core/module_dependencies.py:44-56 | every module not loaded has a root cause, and root causes are truly unavailable |
| DependencyReport.RootCauses | odoo_manager_core/module_dependencies.py:46-56 | the cached recursive search computes them; the guard against cycles never cuts |
| InstallPlan.Add | odoo_manager_core/manifests.py:107-121 | the stack installs what is needed and stays below every closed set |
| InstallPlan.AutoPass | odoo_manager_core/manifests.py:137-145 | a pass adds only triggered modules, and changes nothing once all are settled |
| InstallPlan.ModuleInstallPlan | odoo_manager_core/manifests.py:96-145 | the least set closed under dependencies and automatic installation; what is neither requested nor automatic is a dependency of a module of the plan; missing and uninstallable are exactly the needed modules that cannot be installed |
| InstallPlan.Report | odoo_manager_core/manifests.py:147-162 | the requested, dependency and automatic lists name each module to install once, and their lengths sum to the total |
| InstallPlan.LeastIgnoresOrder | odoo_manager_core/manifests.py:101-145 | the order of the request changes nothing |
| InstallPlan.ParentsReachARoot | odoo_manager_core/manifests.py:120-121 | parents lead back to a requested or automatic module |
| LocalExclusion.LocalIgnorePlan | odoo_manager_web.py:2213-2238 | the least set holding the candidates and the excluded modules, closed under active dependents |
| LocalExclusion.StatesAfter | odoo_manager_web.py:3666-3697 | the states the transaction leaves and the modules remembered as excluded |
| LocalExclusion.ListedIff | odoo_manager_web.py:3612-3626 | the update list after an exclusion, in terms of the states before it |
| LocalExclusion.ListedIsReactivated | odoo_manager_web.py:3612-3620 | an excluded module is still listed exactly when it was excluded before and is to be upgraded again |
| LocalExclusion.UpdateListIsCleanIff | odoo_manager_web.py:3629-3697 | nothing listed depends, through active modules, on an excluded one, if and only if no such module exists |
| ImportJournal.ImportedAllIs | odoo_manager_web.py:7233-7250 | what all modules imported means: each copy complete, each link the new one unless only updated, nothing else touched |
| ImportJournal.CreationIsUndone | odoo_manager_web.py:7236-7239 | noting a path before creating it, and filling it, change nothing to a rollback |
| ImportJournal.MoveIsUndone | odoo_manager_web.py:5932-5944 | a version set aside and noted comes back |
| ImportJournal.UnnotedMoveStays | odoo_manager_web.py:6739-6749 | a version set aside and not noted stays in the backups, everything else comes back |
| ImportJournal.Import.BackUp | odoo_manager_web.py:6739-6749 | the version moves to a free name before the report that may stop the import |
| ImportJournal.Import.CopyToStorage | odoo_manager_web.py:5947-5975 | at every moment of the copy a rollback gives back the start |
| ImportJournal.Import.LinkModule | odoo_manager_web.py:5978-6017 | the link of each kind of import, and where it may stop |
| ImportJournal.Import.ImportModule | odoo_manager_web.py:7233-7250 | imported completely, or a rollback gives back the start, or stopped in a move: with the exact points |
| ImportJournal.Import.Rollback | odoo_manager_web.py:5939-5944 | the loops compute the rollback |
| ImportJournal.Import.Run | odoo_manager_web.py:7229-7257 | for every point where it stops: all modules imported and the old versions recoverable, or the files as before, or, exactly when stopped between a move and its note, all but that version |
| RepositoryTree.CollectManifestDirs | odoo_manager_core/repositories.py:18-27 | the folders of the manifests listed |
| RepositoryTree.RepositoryModulesFromTree | odoo_manager_core/repositories.py:28-38 | the shallowest-first loop keeps exactly the clean folders with no other above them |
| RepositoryTree.WalkReaches | odoo_manager_web.py:6723-6736 | what the walk finds, without recursion: manifests with none above, not inside a skipped folder |
| RepositoryTree.ListingAgreesWithWalk | odoo_manager_core/repositories.py:12-38 | same modules as the walk, if and only if no reached skipped folder directly holds a manifest |
| RepositoryTree.LeftOutForAReason | odoo_manager_core/repositories.py:28-37 | no module lies inside another; a manifest left out lies below a module or in a skipped folder |
| Download.Receive | odoo_manager_core/remote_backups.py:396-411 | what one connection writes, with the restart when the resumption is refused |
| Download.DownloadBackup | odoo_manager_core/remote_backups.py:382-430 | the loop over connections, retries and final size check |
| Download.KeepsPrefixIff | odoo_manager_core/remote_backups.py:397-408 | a connection keeps the file a beginning of the object exactly when its bytes belong where the file stopped |
| Download.FileIsPrefix | odoo_manager_core/remote_backups.py:390-430 | over all cuts, short reads and refusals; a return with a known size means the whole object |
| Download.WrongStartIsAccepted | odoo_manager_core/remote_backups.py:397-400 | a right-sized file with the wrong content is returned |
| Download.LeftDecreases | odoo_manager_core/remote_backups.py:390-426 | a measure of bytes and retries left decreases at each connection |
| Download.OnlyRefusalsProlong | odoo_manager_core/remote_backups.py:390-426 | as long as it is running, the connections used are bounded by the size of the object and the number of refused resumptions |
| Download.DownloadEnds | odoo_manager_core/remote_backups.py:390-426 | against a storage that resumes where asked, it ends within a known number of connections |
| Download.SixFailuresEnd | odoo_manager_core/remote_backups.py:409-417 | five failures in a row are forgiven, the sixth ends the download; an access refused ends it at once |
| Download.BytesForgiveFailures | odoo_manager_core/remote_backups.py:406-409 | any byte received forgets the failures before it |
| Download.RefusalsNeverEnd | odoo_manager_core/remote_backups.py:397-426 | against one that refuses and cuts after a byte, it never ends |
| Retention.RetentionStore.RecordArrival | odoo_manager_core/database_retention.py:90-109 | the deadline of each origin; none exactly for an empty base or the copy of a kept one |
| Retention.RetentionStore.Reconcile | odoo_manager_core/database_retention.py:111-143 | the two loops: gone or replaced databases forgotten, new ones dated, the others untouched; the date of the reading |
| Retention.RetentionStore.Extend | odoo_manager_core/database_retention.py:145-157 | refused without a record or a deadline; else thirty days after the later of deadline and now |
| Retention.DueAfterArrival | odoo_manager_core/database_retention.py:90-109 | a database that arrives is due thirty days (2 592 000 seconds) later, an empty base never, a copy when its source is; no other deadline moves |
| Retention.DueAfterReading | odoo_manager_core/database_retention.py:111-143 | a reading keeps the deadline of a database known under its oid and gives thirty days to any other |
| Retention.DueAfterExtension | odoo_manager_core/database_retention.py:145-157 | an extended database is due thirty days after both its deadline and the present |
| Retention.ReconcileIsStable | odoo_manager_core/database_retention.py:111-143 | reading the same databases again changes no deadline |
| RetentionProtocol.StepIsRight | odoo_manager_web.py:5057-5085 | every step, arrivals of any kind included, keeps the job on the recorded database, past its deadline |
| RetentionProtocol.StepKeeps | odoo_manager_web.py:5057-5085 | every step of the job, of the hourly reading and of the user keeps the answers given, but for an arrival that sets an earlier deadline |
| RetentionProtocol.AlwaysKept | odoo_manager_web.py:5028-5085 | so does every run |
| RetentionProtocol.DropsOnlyWhatIsDue | odoo_manager_web.py:5066-5084 | over every run, the job only deletes the recorded database, by name and oid, as it was when listed, past its current deadline, and never PostgreSQL's own |
| RetentionProtocol.DeletionIsComplete | odoo_manager_web.py:5082-5085 | a deletion that succeeds removes the database and its record, and touches no other |
| RetentionProtocol.ExtensionIsHonoured | odoo_manager_web.py:5181-5190 | an accepted extension is never followed by a deletion before the deadline answered, arrivals that set an earlier one excepted |
| RetentionProtocol.ArrivalIsHarmlessIff | odoo_manager_web.py:1766-1775 | in every good state, noting an arrival is harmless to all later runs if and only if it leaves no deadline, or one that cannot be used before the deadline answered |
| RetentionProtocol.FailedDropBlocks | odoo_manager_web.py:5081-5084 | from the deletion that fails on, no extension of that name is accepted until a deletion of it succeeds |
| RetentionProtocol.RefusedUntilForgotten | odoo_manager_web.py:5081-5084 | a name refused becomes acceptable in a run if and only if a deletion of it succeeds then |
| RetentionProtocol.RefusalOutlivesTheDatabase | odoo_manager_web.py:5185-5189 | the refusal also hits a new database of that name |
| RetentionProtocol.LateArrivalBreaksTheAnswer | odoo_manager_web.py:1766-1775 | from every good state where an arrival sets an earlier deadline, the run that deletes the database too early |
| RetentionProtocol.LateArrivalHappens | odoo_manager_web.py:1766-1775 | such a state is reached: a reading discovers a restored database and an extension is accepted before its arrival is noted |

## Left out

- Regular expressions are predicates on strings anchored at line starts; bytes are characters, so every result holds for any alphabet.
- The whole-dump prologue, the session settings, the reading of the archive in `stream_dump`, the progress and `ordered_post_data_tasks` of the restore.
- The patterns that read a statement of the post-data (its kind, name and table): statements are given as they read them.
- SplitUndoesDump: a statement whose string, dollar body or comment is not closed, or with a backslash at the start of one of its lines, is not in it. A comment between `/*` and `*/` belongs to the statement after it, as in the code.
- ChunkIndependentIff: asks for a lookback of at least three bytes; the splitter's is 64 KiB. It is about a post-data within the limit; OversizedPostData is about the others.
- PlanPreservesMeaning: asks for distinct names of the objects created, and takes PostgreSQL as any functions saying which builds succeed, which rows satisfy a foreign key and what an opaque statement does; the index that a primary key creates under its own name, as the target of a comment on an index, is not modelled.
- How `project_service.py` runs the steps: any interleaving, statement by statement, of a step's tasks.
- The job table holds jobs by value; threads, hooks, published events, history and the status written directly by `run_stream` are not modelled.
- Stop requests sent to processes and containers (`interrupt_work`, `interruptible`), and the failure of a revert.
- JobOutput: lengths count the same characters on both sides, which JavaScript strings do not do outside the basic plane; the lines kept besides the output are not modelled.
- Multipart header lines: any function from the header block to a field name and a file name; decoding of texts; the file is a sink of characters.
- WellFormed of MultipartRoundTrip: a part's content must not contain a boundary, and its header block must fit the limit, as the format demands.
- The rows of the dependency report and of the install plan other than the sets and parents; sorting and titles.
- LocalExclusion: the SQL that resets the modules is a function of the states.
- ImportJournal: links already present are taken as relative, module names are distinct, the sources are fetched, and a folder's content is one value that changes while it is copied.
- RepositoryTree: symbolic links, the listing's file modes, and the name given to the repository's root module.
- Download: the object does not change while it is downloaded; progress and checkpoints.
- RetentionProtocol: one project that stays listed, readings taken atomically with their reconciliation, oids never reused, no deletion by hand; the trash, forgotten projects, saving the registry to disk.
- ExtensionIsHonoured: asks that no arrival set an earlier deadline than the one answered, a condition that ArrivalIsHarmlessIff shows to be needed.
- JobStop: one job and its requests; the other jobs of the table are in JobQueueProofs.
- Docker, Git, WSL, HTTP, S3 signing, ZIP handling, XML-RPC, IoT Box scripts, configuration, paths and the rest of the frontend.
