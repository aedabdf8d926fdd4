# Local Operator: a verified model of its stateful core

Local Operator keeps long-lived agent processes honest about a world that changes under them: a configuration
file that other processes replace, downloads that a browser drops on disk, a job ledger several processes append
to, builds that are swapped while sessions run. This project models the parts of it where a mistake is silent,
and proves what each is for.

| Part | Files | Main results |
|---|---|---|
| Live configuration | `ConfigWatch.dfy` | safety, convergence and exactly-once delivery over every interleaving of writers and ticks |
| Parsed-configuration memo | `ConfigMemo.dfy`, `ConfigHeap.dfy` | agreement with a fresh parse under torn reads; no dictionary shared with a caller |
| Download intake | `DownloadIntake.dfy`, `FileNames.dfy`, `Stocktaking.dfy` | exactly when each row is true of the disk, conservation of files; byte-bounded names |
| Guidance index | `GuidanceIndex.dfy`, `LineSplitting.dfy`, `Utf8Replacing.dfy` | laminar spans, exactly which lines the index reaches, line numbers that agree with a reader |
| Job ledger | `JobLedger.dfy` | the fold equals its declarative meaning; exactly when order does not matter |
| Console text | `LogCondenser.dfy`, `WordWrap.dfy`, `ControlStripper.dfy` | lossless condensing, optimal wrapping, a scanner equal to its pattern |
| Source to argv | `Utf8.dfy`, `SourceArgv.dfy` | the whole round trip through UTF-8, base64 and chunks |
| Agents | `ImportNaming.dfy`, `AgentMigration.dfy`, `RoleTags.dfy` | termination and freshness of names, exactly which agents and files a migration settles, strands or loses, a tag encoding that reads back |
| Builds | `BuildWatch.dfy` | a heartbeat lock over all traces; handovers that never go back |

`Prelude.dfy`, `Yaml.dfy` and `PyStrings.dfy` hold what these share.

**Shape.** What the program does by changing an object is a class whose methods are proved against a function of
the old state (`ConfigWatcher`, `Memo`, `Disk`, `Ledger`, `AgentRegistry`, `AgentsDirectory`, `Registry`,
`UpdateLock`); what it does in loops is a method with invariants, proved equal to a function; and the results are
lemmas about those functions. Where several processes act, a step type and a run over steps stand for every
interleaving. Operating-system answers, clocks and luck (whether an unlink, a move, a copy or a stat succeeds) are
arguments, so each result holds for all of them.

**Where the code does not keep what one would expect of it.** Each is a lemma with the exact condition.

- One failed read of a readable configuration file makes every later tick ignore that file until it is written
  again (`FailedReadPins`; `TickAdoptsUnlessPinned` says when a tick adopts and when it does nothing).
- `intake_landed` reports `moved` for a path already inside the session directory without looking at the disk, and by
  its last part alone, so that the name need not be there (`MovedNameIsThere`, `SubdirectoryNameIsNotThere`). It
  reports `kept` for an item that is not ours and names nothing (`KeptIsFalseExactlyWhen`, `NothingIsReportedKept`),
  and `absent` for an entry that is there but cannot be looked at (`AbsentExactlyWhen`, `UnsearchableIsReportedAbsent`).
  A symbolic link that lies in the session directory goes when it is reached through a linked parent outside it, or
  dangles where a move puts its file (`LinkGoesExactlyWhen`).
- A long file with no newline past the first byte of its head is cut wherever the head ends, although `_read_head`
  documents a cut on a line boundary. Unless that happens to be a line's edge, the head numbers a line it shows only
  part of (`HeadIsFirstLinesExactlyWhen`, `OneLongLineIsCut`).
- An interruption written for a job whose spawn and running rows name different processes makes the fold depend on the
  order of the rows (`InterruptedRowsAreOrderFreeExactlyWhen`).
- `condense_logging` with `max_lines` 0 keeps everything below its "lines removed" notice
  (`TruncationKeepsTheLast`), and since block widths are not printed two different logs can print alike
  (`AmbiguousExactlyWhen`, `PrintedFormIsAmbiguous`).
- Migration can lose a file: removing the source fails half way and the rollback then removes the copy
  (`LosesExactlyWhen`), where a comment in the code takes the source to be still intact. A rollback that fails strands
  the agent for good (`SettlesExactlyWhen`, `StuckRollbackStrands`), and an agent with a subdirectory never migrates
  (`FaultFreeRunFinishes`).
- Unsubscribing twice is documented as harmless; it removes a second subscription of the same listener, if there is
  one (`RepeatedUnsubscribe`).
- The first wrapped line leaves one column spare, which can cost a line (`PlainOptimalExactlyWhen`, `ExactFitIsBroken`).
- Tool names with a comma, given as a list, do not survive the tags (`FieldsRoundTrip`, `LoadedSeedsCarry`).
- A run of handovers can go back to an older version through a build whose version does not parse
  (`SafeExactlyWhen`), and a release of the update lock ends the window of whoever holds it, however recent its beat
  (`HolderKeepsExactlyWhen`, `ReleaseHasNoOwner`).
- A name that ends in a dot loses it even when it is short enough (`UnchangedExactlyWhen`).

## Model

| member | source | states |
|---|---|---|
| ConfigWatch.WithDefaults | local_operator/config_watch.py:628-651 | the loop that back-fills missing top-level keys gives the defaults overridden by the file |
| ConfigWatch.ChangedRegistryKeys | local_operator/config_watch.py:662-681 | the registry walk collects a key exactly when some setting of that key looks up differently |
| ConfigWatch.ConfigWatcher.constructor | local_operator/config_watch.py:158-186 | a new watcher holds the file when it stats and parses, else the defaults with the bad fingerprint remembered |
| ConfigWatch.ConfigWatcher.ParseFile | local_operator/config_watch.py:443-514 | only a mapping whose `values`, if present, is a mapping is adopted; every other shape of file yields nothing |
| ConfigWatch.ParseExactlyWhen | local_operator/config_watch.py:443-514 | which files are adopted, and that their keys beat the defaults, key by key |
| ConfigWatch.WalkExactlyWhen | local_operator/config_watch.py:674-681 | a path leads to a value exactly when there is a descent to it, key by key |
| ConfigWatch.UnsubscribeUndoesExactlyWhen | local_operator/config_watch.py:209-224 | unsubscribing what was subscribed last restores the list exactly when no other listener came after an earlier subscription of the same one |
| ConfigWatch.RepeatedUnsubscribe | local_operator/config_watch.py:210-224 | unsubscribing twice does what once does exactly when the listener was not subscribed more than once |
| ConfigWatch.UnsubscribeTakesOne | local_operator/config_watch.py:218-224 | whatever else came and went, it takes exactly one subscription of that listener |
| ConfigWatch.ConfigWatcher.FanOut | local_operator/config_watch.py:521-526 | every listener is called exactly once, in order, with the same change, whichever of them raise; those are logged |
| ConfigWatch.CallsAre | local_operator/config_watch.py:521-526 | a call for each listener in order, all with the one change |
| ConfigWatch.ConfigWatcher.Tick | local_operator/config_watch.py:406-441 | the specified tick; in particular a change is returned exactly when some setting looks up differently before and after, and it names exactly those keys |
| ConfigWatch.StepsRefineTick | local_operator/config_watch.py:406-441 | a stat step, any writes, then a read step leave what one `Tick` makes of the two observations |
| ConfigWatch.StepsRefineConstructor | local_operator/config_watch.py:393-404 | the same for the constructor's stat and read |
| ConfigWatch.NextKeepsInvariant | local_operator/config_watch.py:376-441 | every write, stat and read, in any order, keeps the watcher's fingerprints and view tied to real versions of the file |
| ConfigWatch.RunKeepsInvariant | local_operator/config_watch.py:376-441 | so does every run |
| ConfigWatch.LastGoodSnapshot | local_operator/config_watch.py:406-441 | over every run the view is the defaults or a readable content the file really held, adopted in write order, and what is delivered is exactly one non-empty change per differing pair of neighbouring snapshots |
| ConfigWatch.DeliveriesAreTheDifferences | local_operator/config_watch.py:433-441 | over every run one change is delivered, in order, for each snapshot that some setting tells from the one before, and it names exactly the keys that look up differently |
| ConfigWatch.MissingFileKeepsTheView | local_operator/config_watch.py:417-424 | a tick that finds no file keeps the last good view, forgets both fingerprints and delivers nothing |
| ConfigWatch.UnreadableFileIsReadOnce | local_operator/config_watch.py:393-432 | a file that cannot be parsed is read once; the view stays and nothing is delivered |
| ConfigWatch.RememberedIsAdopted | local_operator/config_watch.py:414-434 | a file whose fingerprint is remembered is the one in view, although it was read after its stat |
| ConfigWatch.TickAdoptsUnlessPinned | local_operator/config_watch.py:414-441 | an undisturbed tick over a readable file adopts it exactly unless a failed read pinned it, and then changes nothing |
| ConfigWatch.NotPinned | local_operator/config_watch.py:425-432 | without a failed read no readable file is ever pinned, whatever writes raced with the ticks |
| ConfigWatch.QuietWhileUnwritten | local_operator/config_watch.py:414-416 | with the present file adopted and no write, no tick changes or delivers anything |
| ConfigWatch.Convergence | local_operator/config_watch.py:406-441 | the first tick begun after the last write to a readable file leaves `values` equal to it merged with defaults, and every later tick delivers nothing |
| ConfigWatch.FailedReadPins | local_operator/config_watch.py:425-431 | one failed read and the readable file is ignored by every later tick |
| ConfigWatch.DeliveriesTelescope | local_operator/config_watch.py:325-372 | a subscriber copying only `changed_keys`, from any point of any run, agrees with `values` on every setting after every step, whether poll or `notify_local` ticked |
| ConfigMemo.Memo.ParseConfigStream | local_operator/config.py:124-176 | a hit returns the stored tree and stores nothing; a miss returns the parse and stores it only when both fstats gave one key |
| ConfigMemo.SecondLoadHits | local_operator/config.py:159-176 | a version read undisturbed is parsed once: the next load of it hits, whatever it would have read |
| ConfigMemo.LoadRefinesParse | local_operator/config.py:159-176 | an fstat, partial reads with writes anywhere among them and a second fstat leave what one `ParseConfigStream` makes of what they saw |
| ConfigMemo.NextKeepsInvariant | local_operator/config.py:159-176 | every fstat, partial read, in-place write and replacement keeps the memo in agreement with the files |
| ConfigMemo.RunKeepsInvariant | local_operator/config.py:159-176 | so does every run |
| ConfigMemo.EntriesAreFreshParses | local_operator/config.py:159-176 | after any run each entry is the parse of the bytes its key names and of no others |
| ConfigMemo.HitIsAFreshParse | local_operator/config.py:163-166 | a hit returns the parse of what the open descriptor held at the fstat |
| ConfigMemo.TornReadIsNeverStored | local_operator/config.py:168-176 | only a second fstat stores, and only with the whole present file in hand |
| ConfigHeap.DeepCopyIsApart | local_operator/config.py:159-176 | a deep copy lies at new addresses, refers only to itself and leaves the old heap as it was |
| ConfigHeap.FillingAddsTheMissingKeys | local_operator/config.py:580-589 | filling adds exactly the missing keys the defaults have and leaves what the file set |
| ConfigHeap.FillingCopiesTheDefaults | local_operator/config.py:580-589 | and each key it adds holds the default, or a deep copy of its tree |
| ConfigHeap.LoadFillsTheDefaults | local_operator/config.py:580-589 | loading fills a missing `values` whole, or its missing keys one by one, with copies of the defaults, and changes no key the file set |
| ConfigHeap.MissHandsOverWhatItParsed | local_operator/config.py:168-176 | a load that misses hands over what was parsed, and without a stable file caches nothing |
| ConfigHeap.MissRemembersWhatItParsed | local_operator/config.py:170-175 | else it caches a copy of just that under its name |
| ConfigHeap.NextKeeps | local_operator/config.py:433-449 | every load, fill, fresh default and caller's edit keeps the parts apart and changes nothing hidden |
| ConfigHeap.RunKeeps | local_operator/config.py:155-176 | so does every run of them |
| ConfigHeap.HiddenTreesNeverChange | local_operator/config.py:155-176 | no run changes a cached tree or `DEFAULT_CONFIG`, at any depth |
| ConfigHeap.HitIsPrivate | local_operator/config.py:163-166 | a hit equals the cached tree dictionary by dictionary and shares none with anything that existed |
| ConfigHeap.FreshDefaultsArePrivate | local_operator/config.py:433-449 | fresh defaults are a private copy of the shipped ones, tree and all |
| ConfigHeap.LaterHitIsTheSameTree | local_operator/config.py:163-166 | whatever callers did in between, a later hit still hands out the tree as it was cached |
| ConfigHeap.HandedTreeStays | local_operator/config.py:155-166 | what a hit hands out is changed by no later load, fill or edit of anything else, other copies of the same tree included |
| DownloadIntake.Disk.UnlinkEntry | local_operator/browser_files.py:1071-1077 | deleted or failed is what happened to that one entry |
| DownloadIntake.Disk.IntakeItem | local_operator/browser_files.py:1169-1370 | one item's row and the disk it leaves are those of the decision, branch by branch |
| DownloadIntake.Disk.IntakeLanded | local_operator/browser_files.py:1097-1370 | the pass leaves the disk and the two lists that the decisions in order make; `OneTruthfulRowEach` says what those lists tell |
| DownloadIntake.DecisionIsTruthful | local_operator/browser_files.py:1169-1370 | kept, failed and absent leave the disk as it is, and a kept entry of ours is there; deleted removes the source entry alone; a move puts the bytes at a place that named no file |
| DownloadIntake.RowSaysExactly | local_operator/browser_files.py:1169-1370 | which reason a refusal gives, for every item, which name a row gives, and which items yield none |
| DownloadIntake.OneTruthfulRowEach | local_operator/browser_files.py:1097-1370 | each path-bearing item yields exactly one row of the two returned lists, in order; each row is true of the disks around its item, gives its sanitised name and the one reason that holds |
| DownloadIntake.MovedNameIsThere | local_operator/browser_files.py:1004-1008 | a moved name is in the session directory for every file moved, and for a path that lay inside it already exactly when something lay directly in the directory under the last part of that path |
| DownloadIntake.SubdirectoryNameIsNotThere | local_operator/browser_files.py:1192-1196 | an input where it is not: a file in a subdirectory, whose name is reported alone |
| DownloadIntake.UnownedItemChangesNothing | local_operator/browser_files.py:1225-1245 | an item of unknown or foreign origin changes nothing |
| DownloadIntake.MovesExactlyWhen | local_operator/browser_files.py:1192-1370 | a file from outside is moved exactly when it is ours, corroborated in size and time, complete, never cancelled, and its name is free |
| DownloadIntake.DeletesExactlyWhen | local_operator/browser_files.py:1246-1342 | an entry is deleted exactly when it is ours, can be unlinked, and is no regular file or a corroborated one that is incomplete, cancelled or left without a free name |
| DownloadIntake.KeptIsFalseExactlyWhen | local_operator/browser_files.py:1197-1266 | a kept row, which says that an entry is there, is false exactly of an item that is not ours and names nothing |
| DownloadIntake.NothingIsReportedKept | local_operator/browser_files.py:1225-1245 | an input for that: another page's download, on an empty disk |
| DownloadIntake.AbsentExactlyWhen | local_operator/browser_files.py:1011-1022 | an absent row is given exactly when the lstat finds nothing, and is false, the entry being there, exactly when the lstat failed on it |
| DownloadIntake.UnsearchableIsReportedAbsent | local_operator/browser_files.py:1246-1266 | an input for that: a complete download in a directory that may not be searched |
| DownloadIntake.DecisionLeavesRoot | local_operator/browser_files.py:1197-1224 | nothing physically under the configuration root, links excepted, is changed by a decision, whatever links lead there |
| DownloadIntake.PassLeavesRoot | local_operator/browser_files.py:1097-1370 | nor by a whole pass, so no file already in the session directory is changed |
| DownloadIntake.LinkGoesExactlyWhen | local_operator/browser_files.py:1197-1370 | a symbolic link anywhere is changed by an item exactly when it is the source, or dangles where a move puts its file |
| DownloadIntake.LinkStaysExactlyWhen | local_operator/browser_files.py:1097-1370 | over the whole pass a link stays exactly when no item takes it from the disk it meets |
| DownloadIntake.LinkInSessionDirectoryCanGo | local_operator/browser_files.py:1206-1224 | an input for the first way a link goes: reached through a linked parent, one in the session directory is removed |
| DownloadIntake.DecisionConserves | local_operator/browser_files.py:1169-1370 | entries before a decision are the entries after it plus what it took off |
| DownloadIntake.PassConserves | local_operator/browser_files.py:1097-1370 | the same over the whole pass, counted with multiplicity |
| DownloadIntake.OnlyDeletedRowsLoseFiles | local_operator/browser_files.py:1279-1348 | a file's bytes leave the disk only under a deleted row for a stopped, unstated or name-clashing transfer whose size and time were corroborated |
| FileNames.TruncateBytes | local_operator/browser_files.py:556-572 | the loop and its recursion compute the specified name |
| FileNames.TruncatedFits | local_operator/browser_files.py:556-572 | the result is within the byte limit, whatever the name |
| FileNames.ExtensionSurvives | local_operator/browser_files.py:563-572 | a short enough extension survives whole after the longest stem that leaves room for it |
| FileNames.NameSplits | local_operator/browser_files.py:563-565 | what counts as an extension, and that a name is its stem and extension with a dot between |
| FileNames.ExtensionAlwaysFits | local_operator/browser_files.py:567-568 | with the limits in use no extension is too long, so no name is halved |
| FileNames.UnchangedExactlyWhen | local_operator/browser_files.py:563-572 | a name comes back as it was exactly when it fits, does not end in a dot and has no extension too long for the limit |
| LineSplitting.HeadLinesArePrefix | local_operator/context_files.py:220-242 | the lines of a cut text are the first lines of the whole exactly when the cut touches a separator or an end |
| LineSplitting.FirstLineThenRest | local_operator/context_files.py:238-242 | a text is split at its first separator and the rest on its own, CR LF being one separator |
| LineSplitting.LineAlone | local_operator/context_files.py:238-242 | a text without separators is one line, or none |
| LineSplitting.HeadEndsAtTheLastNewline | local_operator/context_files.py:462-470 | a head that has a newline past its first byte is cut at its last one |
| LineSplitting.HeadNumberingMatchesReader | local_operator/context_files.py:448-474 | a head cut at a newline has the whole file's first lines, and nothing past the cut is numbered at or below `head_lines` |
| LineSplitting.HeadIsFirstLinesExactlyWhen | local_operator/context_files.py:448-474 | for every file, the head's lines are the file's first lines exactly when the file is short, the head was cut at a newline, or the cut leaves a start of the text and touches a line's edge |
| LineSplitting.OneLongLineIsCut | local_operator/context_files.py:464-474 | an input where it is none of these: every file of one long line |
| Utf8Replacing.DecodeCut | local_operator/context_files.py:464-471 | decoding a file cut at any byte gives its whole characters and one replacement for a torn one |
| Utf8Replacing.DecodeAtNewline | local_operator/context_files.py:468-471 | decoding starts afresh at a newline byte |
| Utf8Replacing.DecodeReplacingInvertsEncode | local_operator/context_files.py:238-242 | decoding with replacement undoes encoding for every sequence of scalar values |
| LineSplitting.CutInsideALine | local_operator/context_files.py:464-474 | cut inside a line, a text counts a line it shows only part of, and the next character is on a line already counted |
| GuidanceIndex.Collect | local_operator/context_files.py:269-294 | one pass finds the headings and the open fence of the specified pass |
| GuidanceIndex.ScanSections | local_operator/context_files.py:245-330 | the scan returns the specified sections and reports an unterminated fence exactly when the pass ends inside one |
| GuidanceIndex.SectionsExactly | local_operator/context_files.py:245-330 | a section starts exactly at the headings outside every code block, or, when the last block is never closed, at all headings; with the level and title of its line |
| GuidanceIndex.HeadingExactlyWhen | local_operator/context_files.py:286-293 | a heading is one to three hashes, a space, and a title that is not blank |
| GuidanceIndex.FenceStep | local_operator/context_files.py:276-285 | a marker opens a code block, the same marker closes it, and nothing else matters to it |
| GuidanceIndex.AssignEnds | local_operator/context_files.py:322-329 | each section's end is found by looking ahead |
| GuidanceIndex.FenceHides | local_operator/context_files.py:276-287 | inside a code block nothing is found until a line with the opening marker |
| GuidanceIndex.FoundExactly | local_operator/context_files.py:274-294 | the tracked pass finds exactly the heading lines outside every code block |
| GuidanceIndex.RescanOnlyAdds | local_operator/context_files.py:317-320 | rescanning without fences loses no heading |
| GuidanceIndex.SectionsAreWellSpanned | local_operator/context_files.py:322-330 | starts increase, and each section runs to the line before the next heading of its level or above, or to the last line |
| GuidanceIndex.SpansAreLaminar | local_operator/context_files.py:322-330 | two spans are apart or the later is a deeper heading inside the earlier |
| GuidanceIndex.OwnerDecides | local_operator/context_files.py:551-614 | a listed section holds a line exactly when the line's nearest preceding heading is listed |
| GuidanceIndex.IndexReaches | local_operator/context_files.py:524-614 | the index reaches a line exactly when its nearest preceding heading exists and is not the file's only H1 |
| GuidanceIndex.RowsExactly | local_operator/context_files.py:535-638 | the rows are the offered sections, each once and in order, with their indent, range and title; the notes are the file's; the bare pointer stands exactly where nothing is offered |
| GuidanceIndex.TailNoteIsExact | local_operator/context_files.py:564-638 | the tail note names exactly the lines past every row |
| GuidanceIndex.BarePointerMissesNothing | local_operator/context_files.py:477-521 | with nothing to list, the pointer offers every line past the head and no listed section was skipped |
| JobLedger.Ledger.FoldLedger | local_operator/exec_mode.py:394-413 | the loop computes the fold of the job's own rows |
| JobLedger.Ledger.JobStatus | local_operator/exec_mode.py:389-437 | the report is the fold of the ledger it leaves plus the live field of a running job; exactly one interruption is appended exactly when a starting or running job's process is known dead |
| JobLedger.ReportMeaning | local_operator/exec_mode.py:404-413 | in terms of the whole ledger: a report has exactly the keys of the job's own rows, each with the value of its source among them |
| JobLedger.OtherRowsAreIgnored | local_operator/exec_mode.py:405-406 | a row of another job, or of none, changes no report; and a report that says anything is the job's own |
| JobLedger.FoldValue | local_operator/exec_mode.py:404-413 | a key's value is that of the last accepted row that has it, else of the first row that has it |
| JobLedger.FoldMeaning | local_operator/exec_mode.py:404-413 | every key of the fold has such a source |
| JobLedger.RankNeverFalls | local_operator/exec_mode.py:404-413 | whatever is appended, the reported rank never falls and a terminal state stays terminal |
| JobLedger.LateRowOnlyFillsGaps | local_operator/exec_mode.py:408-411 | a row of lower rank changes nothing that is known |
| JobLedger.OrderFreeExactlyWhen | local_operator/exec_mode.py:404-413 | all six orders of a spawn, a running and a terminal row agree exactly when the first two agree on every key the last lacks |
| JobLedger.WrittenRowsAreOrderFree | local_operator/exec_mode.py:277-377 | the spawn, running and exit rows of a run meet that condition |
| JobLedger.InterruptedRowsAreOrderFreeExactlyWhen | local_operator/exec_mode.py:277-426 | with an interruption as the terminal row they meet it exactly when spawn and running row name one process |
| JobLedger.InterruptionFolds | local_operator/exec_mode.py:419-426 | updating the report with the interruption equals folding the ledger again |
| JobLedger.ReconciledOnce | local_operator/exec_mode.py:414-426 | once reconciled, no later query appends again, whatever was appended in between |
| LogCondenser.CountRun | local_operator/console.py:501-505 | the run counter counts the copies of the line that follow each other |
| LogCondenser.FindPattern | local_operator/console.py:511-540 | the pattern search returns the shortest repeating block and how often it repeats, or zeros |
| LogCondenser.CondenseFrom | local_operator/console.py:499-544 | one turn prints the next token and always advances |
| LogCondenser.CondenseLogging | local_operator/console.py:474-553 | the whole output: all that is printed when it is within the limit, else the notice with the number missing and the last lines |
| LogCondenser.ExpandInvertsTokenize | local_operator/console.py:499-544 | expanding the tokens gives back exactly the input lines |
| LogCondenser.NeverLonger | local_operator/console.py:499-544 | the output has no more lines than the input |
| LogCondenser.TokenIsGreedy | local_operator/console.py:499-544 | a run or block stops only where the next copy differs, a block is the shortest that repeats, a plain line starts neither |
| LogCondenser.TruncationKeepsTheLast | local_operator/console.py:546-551 | truncation keeps exactly the last `max_lines` printed lines for a positive limit, and for no other but a very negative one |
| LogCondenser.AmbiguousExactlyWhen | local_operator/console.py:499-544 | another log prints like this one exactly when some other choice of block widths, two to ten lines each, reads the print as tokens that condensing their lines gives back |
| LogCondenser.BlockFreeIsUnambiguous | local_operator/console.py:499-544 | a log without a block is the only one with its print |
| LogCondenser.ReadingInvertsPrint | local_operator/console.py:508-543 | with its own block widths a print is read as exactly the tokens printed |
| LogCondenser.PrintedFormIsAmbiguous | local_operator/console.py:530-536 | an input for that: two different logs that print alike, for any three different lines |
| WordWrap.WrapTextToWidth | local_operator/console.py:50-80 | the loop makes the joined lines of the greedy split |
| WordWrap.JoinedSplitsBack | local_operator/console.py:73-78 | a printed line split at its spaces gives back its words in order |
| WordWrap.GreedyIsASplit | local_operator/console.py:62-80 | so greedy meets the fit test |
| WordWrap.GreedyContinuesBest | local_operator/console.py:62-80 | from any position, any continuation that fits starts at least as many lines as greedy |
| WordWrap.GreedyIsOptimal | local_operator/console.py:50-80 | no split of the same words meeting the same fit test has fewer lines |
| WordWrap.PlainOptimalExactlyWhen | local_operator/console.py:62-80 | when only the width printed counts, greedy makes at most one line too many, and none exactly when a prefix one column shorter would not save it one |
| WordWrap.OnlyAnExactFitShows | local_operator/console.py:62-80 | it makes the same lines unless the first words and the prefix would fill the width exactly |
| WordWrap.ExactFitIsBroken | local_operator/console.py:66-73 | an input where it costs a line: one word that, with the prefix, just fills the width |
| ControlStripper.ScannerIsThePattern | local_operator/ansi.py:42-67 | at every place the scanner takes the longest match of the first alternative that matches, and nothing exactly when none does |
| ControlStripper.ClassesAreColumns | local_operator/ansi.py:53-65 | the character classes by the columns of the code table |
| ControlStripper.OpenersCorrespond | local_operator/ansi.py:53-55 | each 8-bit opener is the C1 control of its 7-bit form |
| ControlStripper.StripIsClean | local_operator/ansi.py:42-82 | no C0 but tab and newline, no DEL and no C1 survives |
| ControlStripper.StripIsSubsequence | local_operator/ansi.py:70-82 | the output is a subsequence of the input |
| ControlStripper.StripAfterClean | local_operator/ansi.py:70-82 | clean text in front stays and does not change how the rest is stripped |
| ControlStripper.StripTwice | local_operator/ansi.py:70-82 | stripping twice is stripping once |
| ControlStripper.ControlStringGoes | local_operator/ansi.py:53-53 | a control string goes with its payload, and the rest is stripped as if it came first |
| ControlStripper.UnterminatedStringGoes | local_operator/ansi.py:53-53 | an unterminated one takes everything to the end |
| ControlStripper.ControlSequenceGoes | local_operator/ansi.py:55-55 | a whole control sequence goes |
| Utf8.DecodeInvertsEncode | local_operator/computer_input.py:169-202 | decoding undoes encoding for every sequence of scalar values |
| Utf8.EncodeInvertsDecode | local_operator/computer_input.py:169-169 | decoding is strict: what decodes is the encoding of what it decodes to |
| Utf8.ExamplesOfTheStandard | local_operator/computer_input.py:202-202 | the widths of section 3 of RFC 3629 and characters of its section 7 |
| Base64.Decode64InvertsEncode64 | local_operator/computer_input.py:169-202 | base64 decoding undoes encoding for every byte string |
| Base64.Encode64IsPlain | local_operator/computer_input.py:202-202 | the encoded text is in the 64 letters and the padding sign |
| Base64.LettersAreTheAlphabet | local_operator/computer_input.py:202-202 | the alphabet of table 1 of RFC 4648 |
| Base64.VectorsOfTheStandard | local_operator/computer_input.py:202-202 | vectors of section 10 of RFC 4648 for each padding |
| SourceArgv.SourceRoundTrip | local_operator/computer_input.py:169-211 | for every source that can be encoded, and no other, the bootstrap executes exactly it, from plain entries within the bound |
| SourceArgv.ArgvIsInjective | local_operator/computer_input.py:176-211 | two sources never share an argv |
| ImportNaming.CandidatesDiffer | local_operator/agents.py:305-319 | candidates with different suffixes have different keys, however the base was cut |
| ImportNaming.SqueezedIsJoinedWords | local_operator/agents.py:292-293 | a key is the words of the folded name, one space apart |
| ImportNaming.AgentRegistry.ResolveImportName | local_operator/agents.py:968-1024 | the search ends within one more try than there are taken keys and returns the first free candidate |
| ImportNaming.AgentRegistry.ImportAgent | local_operator/agents.py:1893-1921 | an import adds one row under the resolved name, or fails on a taken id or directory and changes nothing |
| ImportNaming.LandsFree | local_operator/agents.py:1006-1024 | the key it lands under is not taken, and it is renamed exactly when the incoming key was |
| ImportNaming.RenamedNameFits | local_operator/agents.py:302-319 | a renamed agent fits 128 characters, keeps its suffix whole, and gives up no more of its name than that takes |
| ImportNaming.NoNewCollisions | local_operator/agents.py:1893-1906 | no run of non-blank imports adds a key collision |
| AgentMigration.AgentsDirectory.CopyFiles | local_operator/agents.py:1539-1542 | the copy loop leaves the specified target and says whether it is whole |
| AgentMigration.AgentsDirectory.Attempt | local_operator/agents.py:1523-1570 | make, copy, remove and roll back leave the specified outcome for this agent and nothing else |
| AgentMigration.AgentsDirectory.MigrateAgentsDir | local_operator/agents.py:1495-1588 | the run is one turn per listed entry, then the removal of an empty nested directory |
| AgentMigration.DefinitionComesLast | local_operator/agents.py:1533-1542 | a target with a definition has every other file whole, wherever the copying stopped |
| AgentMigration.TargetHoldsOnlyCopies | local_operator/agents.py:1523-1570 | whatever an attempt leaves behind are copies, but for the one file a failed copy tore; and what it leaves of the nested agent is as it was |
| AgentMigration.SettlesExactlyWhen | local_operator/agents.py:1523-1570 | an agent ends whole in exactly one of the two places exactly when its target was never made, or made whole and the source went, or what was made went again with the source as it was |
| AgentMigration.LosesExactlyWhen | local_operator/agents.py:1544-1570 | a file is lost from both places exactly when removing the source took it and failed and the rollback took the copy |
| AgentMigration.RunIsOneTurnEach | local_operator/agents.py:1514-1570 | the run treats each entry as if it were alone |
| AgentMigration.MigrationSettlesExactlyWhen | local_operator/agents.py:1495-1588 | over a whole run, wherever copies and removals fail: which agents are tried and which settle, that everything else is untouched, and that the nested directory goes exactly when empty and removable |
| AgentMigration.MigrationLosesExactlyWhen | local_operator/agents.py:1495-1588 | a whole run loses exactly the files that the turns of their agents lose |
| AgentMigration.TargetStaysForever | local_operator/agents.py:1519-1521 | whatever stands at a target, no later start touches it or the nested agent behind it |
| AgentMigration.StuckRollbackStrands | local_operator/agents.py:1547-1570 | a rollback that fails leaves the agent nested with a target in its way, and no later start changes either |
| AgentMigration.FaultFreeRunFinishes | local_operator/agents.py:1495-1588 | a failure-free rerun moves an agent exactly when nothing stands at its target and it has no subdirectory |
| RoleTags.AsTupleIsToolList | local_operator/agent_profiles.py:214-232 | what `_as_tuple` makes is trimmed, non-empty and distinct, and comma-free when made from a string |
| RoleTags.ToolsRoundTrip | local_operator/agent_profiles.py:214-232 | joining with commas and reading back is the identity exactly on comma-free tool lists |
| RoleTags.BuildSeedTags | local_operator/agent_profiles.py:795-810 | the tags are appended in their order |
| RoleTags.ReadAllTags | local_operator/agent_profiles.py:367-383 | the loop reads the tags in order, later ones overriding earlier |
| RoleTags.ReadTagExactly | local_operator/agent_profiles.py:371-383 | how any tag is read, by the text before its first colon |
| RoleTags.FieldsRoundTrip | local_operator/agent_profiles.py:371-382 | tools, effort and delegation survive the trip exactly when the tools are a comma-free tool list and the effort is trimmed |
| RoleTags.Registry.GetAgentByName | local_operator/agents.py:950-966 | the first row of that name |
| RoleTags.Registry.InstallSeed | local_operator/agent_profiles.py:548-671 | refuses, reports or writes exactly the specified row, and no other row changes |
| RoleTags.InstallExactly | local_operator/agent_profiles.py:596-671 | when a name is refused, when a role is reported as it is, and which one row is written otherwise |
| RoleTags.DivergenceExactly | local_operator/agent_profiles.py:779-792 | divergence names exactly the fields that differ |
| RoleTags.ProfileShowsItsRow | local_operator/agent_profiles.py:384-395 | what a profile shows of its row |
| RoleTags.InstalledRoleMatchesSeed | local_operator/agent_profiles.py:614-671 | after any installation that wrote, divergence is empty exactly when the fields can ride in tags, and the name leads to a role |
| RoleTags.OverwriteTwice | local_operator/agent_profiles.py:614-671 | overwriting again changes nothing, and no overwrite touches the operator's fields or another row |
| RoleTags.LoadedSeedsCarry | local_operator/agent_profiles.py:214-232 | a seed file's tools can ride in tags when spelled as a string, and as a list unless a name has a comma |
| UpdateWindow.UpdateLock.Acquire | local_operator/buildwatch.py:256-279 | taken exactly when free or expired, and then the whole new state |
| UpdateWindow.UpdateLock.Heartbeat | local_operator/buildwatch.py:281-287 | restarts the deadline of a held lock, and does nothing to another |
| UpdateWindow.UpdateLock.Release | local_operator/buildwatch.py:289-295 | drops the lock whoever holds it, leaving the last beat |
| UpdateWindow.UpdateLock.Remaining | local_operator/buildwatch.py:323-329 | zero exactly when expired while held, and exactly the wait after which an acquire succeeds |
| UpdateWindow.LockRemembersItsLastBeat | local_operator/buildwatch.py:256-295 | over any trace the lock is held exactly when some beat is unreleased, and its beat is the last one |
| UpdateWindow.RefusedExactlyWhenAlive | local_operator/buildwatch.py:256-347 | over any trace whose clock never goes back, an acquire is refused exactly when the lock was beaten, and not released since, less than the bound ago |
| UpdateWindow.TakeoverNeedsSilence | local_operator/buildwatch.py:256-347 | a held lock changes hands without a release only after a silence of at least the bound |
| UpdateWindow.BeatingHolderKeepsTheWindow | local_operator/buildwatch.py:256-347 | a holder that beats within the bound keeps the window and its names on it |
| UpdateWindow.HolderKeepsExactlyWhen | local_operator/buildwatch.py:256-347 | a holder keeps its window exactly while nobody at all releases and every other acquire comes within the bound of a beat since its own |
| UpdateWindow.ReleaseHasNoOwner | local_operator/buildwatch.py:289-295 | an input where it does not: an abandoned holder's release ends its successor's window |
| BuildOrder.ChangedAndPendingSplitTheMove | local_operator/buildwatch.py:668-712 | for one disk state `build_changed` and `pending_build` split `handover_build` exactly |
| BuildOrder.FollowsExactlyWhen | local_operator/buildwatch.py:527-589 | a process leaves for a build exactly when it differs, is readable, is not older, and has a commit or another version |
| BuildOrder.LessIsLexicographic | local_operator/buildwatch.py:630-630 | versions are totally ordered, and the first number that differs decides |
| BuildOrder.ParsesExactlyWhen | local_operator/update.py:366-372 | three dotted texts parse to the three numbers they read as, in that order, or not at all |
| BuildOrder.OtherTextsDoNotParse | local_operator/update.py:366-368 | and nothing else parses |
| BuildOrder.RunsNeverGoBack | local_operator/buildwatch.py:541-630 | along any run of handovers between parseable versions the version never decreases |
| BuildOrder.SafeExactlyWhen | local_operator/buildwatch.py:570-630 | a stop can carry a run backwards exactly when its version does not parse and its stamp is not blank |
| BuildOrder.SwapsBothWaysExactlyWhen | local_operator/buildwatch.py:541-630 | exactly when two builds can be left for one another |
| BuildOrder.SettledDiskIsReachedOnce | local_operator/buildwatch.py:633-688 | once the disk rests on one build, the first settled reading moves a process to it and no later one moves it again |

## Left out

What each part leaves out:

- ConfigWatch: asyncio, kqueue wake-ups, the hop between threads and the guard against overlapping ticks; only the
  tick that each wake-up reaches is here, one at a time. Listeners are called but do not write.
- ConfigWatch.Convergence: assumes every write gives a fingerprint never used before, and reads of an existing file
  that succeed; without the second `TickAdoptsUnlessPinned` says what happens instead.
- Yaml: lists, scalars and their comparison are one identity up to Python's `==`; a NaN, which differs from itself,
  is not covered. YAML text is not parsed: a file is one of the shapes the parser tells apart.
- ConfigMemo.EntriesAreFreshParses: assumes that a key (inode, device, size, times) is never reused for other bytes.
- ConfigHeap: dictionaries on an explicit heap of addresses instead of Dafny objects, so that the copy, the memo and
  every caller's edit share one state; lists inside a tree are not modelled apart from dictionaries.
- DownloadIntake: a move is atomic, so the re-check of the source after it and a copy whose unlink fails are not here;
  nor is creating the session directory. Resolving a path stops after 40 links, a bound of the model's.
- DownloadIntake.Disk.IntakeItem: `safe_name` and the origin of an address are arguments, any functions at all; a
  relative path that names an absolute one once normalised is taken as reported. `realpath` and `Path.exists` see
  the whole disk, also where an lstat fails.
- DownloadIntake.DecisionIsTruthful: a dangling symbolic link at the destination counts as a free name, because
  `Path.exists` says so, and the move replaces it.
- DownloadIntake.PassLeavesRoot: excepts symbolic links, for which `LinkStaysExactlyWhen` is the exact condition.
- FileNames.TruncateBytes: a limit of at least 8, below which `_truncate_bytes` need not return; its callers pass 200 and 80.
- `safe_name`, `_generated_name` and `_fallback_name` themselves: Unicode normalisation and tables of extensions.
- GuidanceIndex: the wording of the index; rows, ranges and notes are values. The section objects that the second loop
  of the scan mutates are values too, so that two names for one section are not captured.
- GuidanceIndex.IndexReaches: text between the head and the first heading is a real gap, reached by no row.
- JobLedger: rows, not bytes; line breaks inside a row, unreadable rows, a status that cannot be hashed and a failing
  append are not modelled.
- LogCondenser: the text of a printed line, so that a log line that itself ends in a count is not confused with one
  that was given it, and the split of the log into lines.
- WordWrap: the split of the text into words, which needs no more than `str.split`.
- ControlStripper: regular-expression search itself; the pattern is stated as seven alternatives and the scanner is
  proved to be their leftmost, ordered, greedy match.
- SourceArgv: the interpreter that runs the bootstrap.
- ImportNaming: NFKC and lower-casing are one function, of which only what it does to a hyphen and digits is assumed.
- ImportNaming.RenamedNameFits: registries whose size takes fewer than 127 digits to write.
- ImportNaming.AgentRegistry.ImportAgent: archives, validation and the files of the agent; only names and ids.
- RoleTags: seed files, front matter and newline translation; the registry is its rows.
- RoleTags.InstalledRoleMatchesSeed: instructions within the 8000 characters a profile keeps, for a longer text is cut
  when it is read back.
- UpdateWindow: the mutex, and times as floating-point numbers (they are reals here); the bound does not change
  within a trace. `last_heartbeat` and the plain observers are not modelled.
- BuildOrder: Python's `int` of a text is any function; where stamps and marker ages come from is not modelled.

Not modelled at all: printing and spinners, the clipboard, bytecode and shell handling, environment and interpreter
discovery, configuration migrations, MIME classification, hub upload and download, archives, pickled contexts and
agent state, window-system calls. They are calls into libraries, or code of one straight pass with no state to keep.
