# Verified models of the concurrent and algorithmic cores

This project models parts of the Orca desktop application, its command line and its tools, and proves
what they guarantee. `dafny verify dfyconfig.toml` checks all of it.

- `ActiveView*.dfy`: the active-view preference. A debounced chain of asynchronous writes, a generation
  counter, a synchronous flush that vetoes a parked rename by removing its temp file, and a shared drain
  that becomes the quit flush. `ActiveViewProtocol` is the transition system (one step for each piece of
  code between two awaits, and for each landing of a rename); `ActiveViewFlush`, `ActiveViewConsistency`,
  `ActiveViewDrain` and `ActiveViewQuit` prove what it guarantees; `ActiveViewPreference` is the class with its
  fields updated in place, each method proved to take the step the results are about.
- `KeyFile*.dfy`: several processes minting one key file under an exclusive-create lock, with crashes and
  failing calls. `KeyFileCalls` follows one process from its first read to its end, against others bounded by
  what the protocol proves of them; `KeyFileLoader` is its code, with its retry loops, proved to make these calls.
- `EditDistance.dfy`, `CommandSuggestion.dfy`, `SuggestionTerms.dfy`: recovery from mistyped commands.
- `WindowsCommandLine.dfy`: the launcher's argument quoting and the parser it is the inverse of.
- `ReachableChunks.dfy`: the build guard's walk over the bundle.
- `TreeSearch.dfy`, `TreeRendering.dfy`, `RenderingTermination.dfy`, `TabCompaction.dfy`, `BrowserWalk.dfy`,
  `RecordNumbering.dfy`, `StripNumbering.dfy`: the bounded tree walks of the Linux bridge, when they end, and
  what compacting browser tabs does to the rendering and to the numbers of records.
- `CliArgs.dfy`, `CommandLines.dfy`, `FlagSpellings.dfy`, `ParsedSpellings.dfy`, `RepeatedFlags.dfy`,
  `CommandNormalization.dfy`, `PositionalForms.dfy`: command-line parsing with its look-ahead for command
  paths, the spellings of a flag, repeated flags, and the resolution of aliases and positionals.
  `CommandSpecs.dfy` declares the command table they share with the suggestions.
- `AwakeProtocol.dfy`, `AgentAwakeService.dfy`: keeping the computer awake.
- `ShellWords.dfy`, `CommandClassification.dfy`, `AgentSessions.dfy`: which terminal commands are sessions of an agent.
- `IconQueue.dfy`, `ResetCredits.dfy`, `ReleaseVersion.dfy`: smaller cores.

Runs are arbitrary sequences of events. An event that is not enabled leaves the state alone, so a
statement about all sequences is one about all interleavings. Faults of the file system, the operating
system and other processes are part of the events.

## What turned out not to hold unconditionally

Each of these is modelled as the code has it, with inputs on which the guarantee fails and the condition
under which it holds, which is exact where a result is named `Iff`.

- The early return of `flushOrThrow` and of the drain trusts `persistedActiveView`. A rename that lands
  after its generation was superseded changes the file and not that field, so a flush may then cancel the
  correcting timer and write nothing (`EarlyReturnCanLoseTheView`, `EarlyReturnIsRightIff`).
- The source calls the quit flush the final write and says that `flushAsync` never throws. It can be
  handed a drain that has returned, or thrown, but is not forgotten yet; then nothing is flushed
  (`QuitCanJoinAFinishedDrain`, `QuitLeavesNothingBehindIff`). The model follows the code.
- A drain that awaits a failing write completes like any other, since the error is only logged: the file is
  stale and nothing is left to correct it (`FailedWriteCompletesDrain`). Without faults a finished drain has
  put the current view on the disk (`FinishedDrainIsCurrent`).
- A re-read under the key lock that fails for a passing reason counts as "unreadable", a valid key is
  replaced, and two processes have two keys (`FailedRereadSplitsKeys`, `ValidFileSurvivesIff`).
- A status that expires exactly at a refresh counts as working but arms no timer, so a stale timer firing
  on the dot leaves the blocker held (`PunctualTimerKeepsBlocker`, `StableUntilDeadlineIff`,
  `HeldWithoutTimerIff`).
- Spelling a flag with `=`, or moving it past a word, can change the command: the look-ahead that protects
  command words steps over a flag that it takes for the value of another (`SpellingCanChangeCommand`,
  `SpellingsAgreeIff`, `SpellingKeepsParseIff`, `MovingCanChangeCommand`, `MovingAssignmentIff`,
  `MovingKeepsParseIff`). In front of the command a value that is itself a command of one word is not read
  as a value (`PairsRoundTripIff`).
- Records are numbered by their count, which compaction lowers, so that later numbers can repeat earlier
  ones. A window with a compacted strip has distinct numbers exactly when no number still in use is among
  those of the entries after the strip (`WindowUniqueIff`); with one active tab, when that is the first one
  or fewer entries follow than tabs stand in front of it (`OneActiveTabIff`). With ten tabs, the last one
  active, the ninth node after the strip gets the number of the active tab (`NumberIsRepeated`).
- On a graph with shared nodes the search can miss a match within its depth limit
  (`SharedNodeHidesMatch`, `DepthLimitHidesNothingIff`), though not when that limit is at least the number
  of nodes (`SearchFindsReachableIff`) or the graph is layered (`LayeredSearchFindsIff`).
- The rendering walk has caps on records and depth, but skipped nodes count for neither: on a cycle of them
  it recurses without bound (`WalkEndsIff`, `EndlessIffCycle`), as on a quiet node that is its own only child
  (`OwnChildNeverEnds`).
- The icon requested last is not the one shown when its command fails, or when one given up on at its
  deadline completes after it (`FailureKeepsOldIcon`, `StrayCanWin`, `DrainedShowsLastIff`).
- Against a ceiling in a later train the version bump never ends (`EndsIff`), as for version 1.2.3 and the
  ceiling 1.3.0 (`LaterTrainNeverEnds`).
- Of two `env` in front of a command only the first is stripped, so that its session is not recognized
  (`NestedEnvHidesCommand`, `EnvIsTransparentIff`).

## What a command table has to meet

Normalization takes the first command that the words fit, with trailing words as positionals. It leads
every path and alias to its own command if and only if no path is taken by an earlier command as a shorter
path followed by positionals, nor by a later one where the command itself has neither positionals nor
aliases (`TableKeepsCommandsIff`). It leads a path there with any values behind it, and makes no difference
between values passed by position and by flag, if and only if no path tried before takes this one as itself
and positionals, or continues it within the number of its own positionals (`TakenAsMeantIff`,
`FormsAgreeIff`). The table under `src/cli/specs` meets both: no path occurs in it twice or continues another
one within the number of positionals of that one's command, and no command names a positional twice.

## Model

| member | source | states |
|---|---|---|
| `ActiveViewProtocol.RunKeepsInv` | src/main/active-view-preference.ts:90-143 | In every run, with any faults, the writes of the chain carry strictly increasing generations, the claimed temp file is that of the running rename, an armed timer owns the newest generation, and the file holds the last rename landed since `persistedActiveView` was set, or else that value |
| `ActiveViewProtocol.AwaitedWriteIsQueued` | src/main/active-view-preference.ts:213-234 | In every run the write a drain awaits is in the chain until it settles, so the drain resumes neither early nor late |
| `ActiveViewFlush.FlushVetoesEarlierWrites` | src/main/active-view-preference.ts:145-177 | After a synchronous flush that wrote, the disk holds the current view, and in every continuation a step that changes the disk is another flush or the landing of a rename enqueued later, whatever point earlier writes had reached |
| `ActiveViewFlush.FlushHoldsUntilNextSet` | src/main/active-view-preference.ts:145-177 | Until the view is set again, the flushed view stays on the disk through all interleavings of timers, writers, drains and flushes, with any disk faults |
| `ActiveViewConsistency.QuiescentFileIsCurrent` | src/main/active-view-preference.ts:59-143 | In every fault-free run whose early returns happen only when no rename of another view has landed since `persistedActiveView` was set, the file holds the current view whenever no timer is armed and no write pending; the exceptions are an untouched missing file and a view changed after the quit flush started |
| `ActiveViewConsistency.QuiescentExistingFileIsCurrent` | src/main/active-view-preference.ts:47-143 | The same from an existing file, where only the late change remains as an exception |
| `ActiveViewConsistency.AsynchronousFileIsCurrent` | src/main/active-view-preference.ts:59-143 | Set, timer and writer steps alone satisfy the premise: in every fault-free run of them from an existing file, the file holds the current view whenever nothing is pending |
| `ActiveViewConsistency.PendingWorkReachesTheDisk` | src/main/active-view-preference.ts:84-143 | From every state of such a run the timer and the writes can run to completion in a bounded number of steps, after which the file holds the current view |
| `ActiveViewConsistency.FinishedDrainIsCurrent` | src/main/active-view-preference.ts:189-234 | In such runs the step that completes a drain, which is what the callers of `flushPendingAsync` await, leaves nothing pending and the current view on the disk, with the same exceptions |
| `ActiveViewConsistency.FailedWriteCompletesDrain` | src/main/active-view-preference.ts:94-96 | A run with one failed write in which the drain completes although the file is stale and nothing is pending |
| `ActiveViewConsistency.EarlyReturnIsRightIff` | src/main/active-view-preference.ts:149-157 | An early return of a flush or drain leaves the current view on the disk if no rename of another view has landed since `persistedActiveView` was set; otherwise that view never reaches the disk again in any continuation that sets no other view |
| `ActiveViewConsistency.EarlyReturnWithoutTimerIsRight` | src/main/active-view-preference.ts:149-157 | An early return that cancels no timer is always right in such runs |
| `ActiveViewConsistency.EarlyReturnCanLoseTheView` | src/main/active-view-preference.ts:120-157 | A fault-free run in which each kind of flush cancels the correcting timer and leaves a superseded view on the disk |
| `ActiveViewConsistency.LostViewStaysLost` | src/main/active-view-preference.ts:64-71 | After a wrong early return neither further flushes and drains nor setting the same view again repairs the file |
| `ActiveViewDrain.DrainGivesUpIff` | src/main/active-view-preference.ts:213-242 | In every run a step ends a drain with an error if and only if the drain resumes after its write has settled, some request has joined it, and all that have, as told from the requests of the run, carried a signal that the run has aborted; and that step changes neither file, timer nor writes |
| `ActiveViewDrain.DrainGoesOn` | src/main/active-view-preference.ts:228-233 | Otherwise a drain that resumes is done exactly if its generation is the newest or nothing is to be written, and else awaits a write of the view as it is now |
| `ActiveViewDrain.RequestIsIdleIff` | src/main/active-view-preference.ts:189-201 | A request changes nothing if and only if its signal was aborted before it, or has joined the drain in progress already |
| `ActiveViewQuit.GenerationCountsTurns` | src/main/active-view-preference.ts:75-88 | In every run after `flushAsync` has started the generation counts the turns of the drain loop; nothing else raises it |
| `ActiveViewQuit.QuitLeavesNothingBehindIff` | src/main/active-view-preference.ts:180-234 | After `flushAsync` the drain takes at most one turn beyond the one in progress, and once it is over no timer or write is left, in every continuation without another flush request, if and only if the drain it joined had not already returned with work left |
| `ActiveViewQuit.QuitFlushPersistsTheView` | src/main/active-view-preference.ts:180-234 | In good runs the file holds the current view as soon as the quit drain is over, unless the view was changed after it started |
| `ActiveViewQuit.QuitCanJoinAFinishedDrain` | src/main/active-view-preference.ts:198-208 | Within one turn of the event loop `flushAsync` can be handed a drain that has already returned, which leaves a timer armed whose write reaches the disk after the quit flush counts as done |
| `ActiveViewQuit.QuitDrainCompletes` | src/main/active-view-preference.ts:213-234 | From every state of a quit drain there is a run of writes and drain turns that ends it with nothing pending |
| `ActiveViewPreference.ActiveViewPreference.constructor` | src/main/active-view-preference.ts:47-53 | The object starts in the initial state of the protocol |
| `ActiveViewPreference.ActiveViewPreference.Set` | src/main/active-view-preference.ts:59-73 | Takes the set step: the view is the new one, a timer is armed unless there is nothing to write or the quit flush has started, a generation is used up exactly when the view differs from the persisted one or a timer or write is pending, and the result says whether the view changed |
| `ActiveViewPreference.ActiveViewPreference.ScheduleSave` | src/main/active-view-preference.ts:75-88 | Takes the scheduling step: a new generation and a fresh timer, or nothing once the quit flush has started |
| `ActiveViewPreference.ActiveViewPreference.TimerFires` | src/main/active-view-preference.ts:84-87 | Takes the timer step |
| `ActiveViewPreference.ActiveViewPreference.EnqueueWrite` | src/main/active-view-preference.ts:90-104 | Appends a write to the chain and changes nothing else |
| `ActiveViewPreference.ActiveViewPreference.WriteAsync` | src/main/active-view-preference.ts:106-118 | Takes the step up to the dispatch of the rename: the file is untouched and only the newest generation claims the temp file |
| `ActiveViewPreference.ActiveViewPreference.WriteAsyncResumes` | src/main/active-view-preference.ts:119-142 | Takes the step after the rename: what it newly records as persisted is what the file holds |
| `ActiveViewPreference.ActiveViewPreference.WriteSettles` | src/main/active-view-preference.ts:97-101 | Takes the step that settles a write |
| `ActiveViewPreference.ActiveViewPreference.UnlinkInFlightTmpFile` | src/main/active-view-preference.ts:161-171 | Vetoes a parked rename; does nothing to one that has landed |
| `ActiveViewPreference.ActiveViewPreference.FlushOrThrow` | src/main/active-view-preference.ts:145-177 | Takes the flush step; it throws exactly after the quit flush has started, or when there is something to write and a call fails; a normal return that is not an early one leaves the current view on the disk, a throw leaves the disk as it was, and a temp file that cannot be removed leaves a write of the view behind |
| `ActiveViewPreference.ActiveViewPreference.FlushAsync` | src/main/active-view-preference.ts:180-187 | Takes the quit-flush step: no new write is scheduled from then on |
| `ActiveViewPreference.ActiveViewPreference.FlushPendingAsync` | src/main/active-view-preference.ts:189-211 | Takes the flush-request step: rejects exactly the aborted signals, changing nothing, and otherwise a drain is under way or done |
| `ActiveViewPreference.ActiveViewPreference.DrainTurn` | src/main/active-view-preference.ts:215-226 | Takes one turn of the drain loop: it ends with nothing to write and no timer, or awaits a write of the newest generation, or gives up, exactly when there are consumers, all with a signal, and every signal is aborted |
| `ActiveViewPreference.ActiveViewPreference.DrainResumes` | src/main/active-view-preference.ts:227-233 | Takes the step after the await of the drain loop; giving up takes consumers whose signals are all aborted, and changes nothing else |
| `KeyFileProtocol.MutualExclusion` | mobile/scripts/mock-server-key-pair.ts:53-167 | For any number of processes, interleavings, faults and crashes, at most one process is between taking and releasing the key lock |
| `KeyFileProtocol.ValidFileNeverChanges` | mobile/scripts/mock-server-key-pair.ts:135-167 | When re-reads under the lock do not fail on a valid file, a valid key file never changes |
| `KeyFileProtocol.Agreement` | mobile/scripts/mock-server-key-pair.ts:135-167 | Under that premise all key pairs ever returned are the one the file holds |
| `KeyFileProtocol.ValidFileSurvivesIff` | mobile/scripts/mock-server-key-pair.ts:151-161 | The premise is exact: a valid key survives every continuation if and only if the re-read under the lock succeeds; after a failed one its process, acting alone, puts the key it mints in its place |
| `KeyFileProtocol.FailedRereadSplitsKeys` | mobile/scripts/mock-server-key-pair.ts:135-167 | A run from the start in which one process returns the key of the file and another, whose reads fail, mints and returns a second one |
| `KeyFileProtocol.EveryCallIsBounded` | mobile/scripts/mock-server-key-pair.ts:53-106 | In every run a call tries to create the lock file at most 51 times and ends after at most 111 protocol steps, each one file-system call with the cleanup that belongs to it |
| `KeyFileProtocol.AbandonedLockBlocksForever` | mobile/scripts/mock-server-key-pair.ts:71-89 | When the creator of the lock file is gone and the key file is not valid, no key is ever minted again and no call returns a key |
| `KeyFileProtocol.OthersKeepRely` | mobile/scripts/mock-server-key-pair.ts:53-167 | What one process may rely on between its calls: others change neither a valid file nor anything while it holds the lock |
| `KeyFileCalls.LoadThrowsIff` | mobile/scripts/mock-server-key-pair.ts:135-167 | Whatever the others do and however calls are answered, the loader throws if and only if a call failed whose error is not swallowed, or every attempt at the lock found it taken and no read gave a key; else it returns a key that it has read, or minted after its re-read and put in place |
| `KeyFileCalls.GivesUpAfterAttempts` | mobile/scripts/mock-server-key-pair.ts:53-89 | Without a failing call it throws only after exactly 51 attempts at the lock |
| `KeyFileCalls.CalmLoadMints` | mobile/scripts/mock-server-key-pair.ts:135-167 | With no valid file, a free lock, no interference and no fault it returns the pair it mints, in six calls, and leaves that pair in the file and the lock free |
| `KeyFileCalls.ValidFileIsReturned` | mobile/scripts/mock-server-key-pair.ts:142-145 | A valid file that is read gives its key at once, without an attempt at the lock |
| `KeyFileCalls.LoadLeaves` | mobile/scripts/mock-server-key-pair.ts:135-167 | A returned key is the one in the file; if the re-read under the lock does not fail on a valid file, a key held before is still there, and every change made is taking a free lock, releasing its own, or replacing a file that is not valid under its own lock; the lock is given up unless its removal failed |
| `KeyFileCalls.PermittedKeepsRely` | mobile/scripts/mock-server-key-pair.ts:135-167 | Every such change is one that all other processes can rely on |
| `KeyFileLoader.KeyDirectory.ReadKeyPair` | mobile/scripts/mock-server-key-pair.ts:34-51 | Makes a read of the protocol: a key read is the one in the file, and none is read exactly if the file is not valid or the read fails |
| `KeyFileLoader.KeyDirectory.OpenLock` | mobile/scripts/mock-server-key-pair.ts:55-60 | Makes an attempt at the lock: refused if the call fails, taken by this process exactly if the lock was free |
| `KeyFileLoader.KeyDirectory.AcquireKeyLock` | mobile/scripts/mock-server-key-pair.ts:53-89 | Makes the calls of the protocol up to the lock; ends with it, or with the key the file now holds, or refused, after at most 51 attempts, and never disturbs a valid file |
| `KeyFileLoader.KeyDirectory.RenameKeyFile` | mobile/scripts/mock-server-key-pair.ts:91-106 | Makes the renames of the protocol: the file holds the new key exactly if one succeeded, else what it held before |
| `KeyFileLoader.KeyDirectory.PersistKeyPair` | mobile/scripts/mock-server-key-pair.ts:108-124 | The same for writing and renaming the temp file |
| `KeyFileLoader.KeyDirectory.ReleaseKeyLock` | mobile/scripts/mock-server-key-pair.ts:126-133 | The lock is free exactly if its removal works; the file is untouched |
| `KeyFileLoader.KeyDirectory.LoadOrCreate` | mobile/scripts/mock-server-key-pair.ts:135-167 | Makes exactly the calls of the protocol, with its outcome, so that all results of `KeyFileCalls` hold of it: when it throws, what it returns, and what it leaves |
| `EditDistance.Levenshtein` | src/cli/command-suggestion.ts:49-71 | The two-row loop with swapped arrays computes the recursive edit distance |
| `EditDistance.ZeroIffEqual` | src/cli/command-suggestion.ts:49-71 | The distance is zero only between equal strings |
| `EditDistance.Symmetric` | src/cli/command-suggestion.ts:49-71 | The distance is symmetric |
| `EditDistance.Triangle` | src/cli/command-suggestion.ts:49-71 | The distance satisfies the triangle inequality |
| `EditDistance.DistanceIsFewestEdits` | src/cli/command-suggestion.ts:49-71 | The distance is the length of a shortest script of insertions, deletions and substitutions |
| `EditDistance.DistanceIsLowerBound` | src/cli/command-suggestion.ts:49-71 | No script that transforms one string into the other is shorter |
| `EditDistance.ShortestScript` | src/cli/command-suggestion.ts:49-71 | A script of exactly that length exists |
| `CommandSuggestion.DestructiveVerbs` | src/cli/command-suggestion.ts:20-30 | The verbs collected are exactly the final tokens of the paths and aliases of destructive commands |
| `CommandSuggestion.IntendsDestruction` | src/cli/command-suggestion.ts:35-42 | True exactly when some verb is at most one edit away |
| `CommandSuggestion.RankingIsBest` | src/cli/command-suggestion.ts:74-81 | The ranking keeps the at most three best labels one to three edits away, in order and without repetition, and leaves one out only for three that rank no worse |
| `CommandSuggestion.RankSorts` | src/cli/command-suggestion.ts:77-77 | The sort orders the entries and permutes them |
| `CommandSuggestion.ScoreSpec` | src/cli/command-suggestion.ts:94-107 | The labels of one command at the depth of the input join those seen, once each, with their distance |
| `CommandSuggestion.SuggestCommands` | src/cli/command-suggestion.ts:83-110 | The suggestions are the best of the labels on offer; a label only destructive commands have is on offer only if the last word is a near miss of a destructive verb |
| `SuggestionTerms.SuggestionsAreBest` | src/cli/command-suggestion.ts:35-110 | What it promises in terms of the table and edit distances alone: at most three labels, each one to three edits from the input, by distance and then collation; a label is a path of as many words as were typed, or the first word of a longer one when one was typed; a label only destructive commands have is shown only if the last word is within one edit of the last word of a destructive path; another such label is missing only if three rank no worse |
| `SuggestionTerms.JoinSplits` | src/cli/command-suggestion.ts:94-107 | A label is its words with one blank between them |
| `WindowsCommandLine.RoundTripIff` | native/windows-cli-launcher/OrcaCliLauncher.cs:78-127 | Parsing the built command line by the Microsoft C runtime rules gives back the script path and the arguments, if and only if none contains a NUL |
| `WindowsCommandLine.ParseEscaped` | native/windows-cli-launcher/OrcaCliLauncher.cs:101-126 | A quoted argument, from any number of held-back backslashes on, parses to its value and the parser stops where the argument ends |
| `WindowsCommandLine.ParsePlain` | native/windows-cli-launcher/OrcaCliLauncher.cs:91-99 | An argument left unquoted parses to itself |
| `WindowsCommandLine.QuoteArgument` | native/windows-cli-launcher/OrcaCliLauncher.cs:89-127 | The loops with their backslash counter produce the specified quoting |
| `WindowsCommandLine.BuildArguments` | native/windows-cli-launcher/OrcaCliLauncher.cs:78-87 | The loop over the arguments produces the specified command line |
| `WindowsCommandLine.WrittenAsIsIff` | native/windows-cli-launcher/OrcaCliLauncher.cs:89-127 | An argument is written as it is if and only if it is not empty and holds neither a quote nor white space |
| `WindowsCommandLine.QuotesAreEscaped` | native/windows-cli-launcher/OrcaCliLauncher.cs:89-127 | In what is quoted every quote of the argument is escaped with a backslash, and what comes before the closing quote does not escape it |
| `ReachableChunks.CollectReachableChunks` | config/build-plugins/plain-node-entry-guard.ts:75-98 | On any import graph the walk ends and returns exactly the chunks of the bundle that the entry reaches, each once |
| `ReachableChunks.AssertNoElectronRequire` | config/build-plugins/plain-node-entry-guard.ts:100-116 | Passes exactly when no reachable chunk requires electron, and otherwise names one that does |
| `ReachableChunks.FinishedIsExact` | config/build-plugins/plain-node-entry-guard.ts:82-96 | When the stack is empty the visited names are exactly the reachable ones |
| `TreeSearch.FirstDescendant` | native/computer-use-linux/runtime.py:589-609 | On every graph the loop ends, asks the predicate at most `max_nodes` times, and returns the first match in visiting order |
| `TreeSearch.VisitsAreBounded` | native/computer-use-linux/runtime.py:589-609 | On every graph the visited nodes are distinct, at most as many as the budget, and within the depth limit of the root |
| `TreeSearch.SearchIsFirstInPreorder` | native/computer-use-linux/runtime.py:589-609 | On a tree the result is the first match in recursive preorder among the nodes within the depth limit, of which the first `max_nodes` are looked at |
| `TreeSearch.SearchFindsReachableIff` | native/computer-use-linux/runtime.py:589-609 | On every graph, shared or cyclic, the search finds a match if and only if one is reachable, provided neither limit is below the number of nodes |
| `TreeSearch.DepthLimitHidesNothingIff` | native/computer-use-linux/runtime.py:595-609 | With budget enough, every node within the depth limit is looked at if and only if each node met at the limit, though a shorter way leads there, has only children that are looked at anyway |
| `TreeSearch.UnsharedLimitHidesNothing` | native/computer-use-linux/runtime.py:595-609 | It is so on every graph where no node with children is at the end of a path as long as the limit and of a shorter one too |
| `TreeSearch.LayeredSearchFindsIff` | native/computer-use-linux/runtime.py:589-609 | On graphs where all paths from the root to a node within the limit are of one length, such as trees and layered graphs, a match is found if and only if one lies within the limit |
| `TreeSearch.SharedNodeHidesMatch` | native/computer-use-linux/runtime.py:595-603 | A family of graphs on which a match within the depth limit is missed |
| `TreeRendering.RenderedIsPrefix` | native/computer-use-linux/runtime.py:402-441 | The capped walk renders exactly the first entries of the depth-limited outline |
| `TreeRendering.UntruncatedIsComplete` | native/computer-use-linux/runtime.py:402-407 | When truncation is not reported nothing of the tree has been cut |
| `TreeRendering.TruncationIsReal` | native/computer-use-linux/runtime.py:402-407 | Truncation is reported only when the records are used up or a node lies deeper than 64 |
| `RenderingTermination.WalkEndsIff` | native/computer-use-linux/runtime.py:402-441 | On every graph the recursion of the walk is bounded if and only if it comes, with room left, to no endless chain of skipped nodes |
| `RenderingTermination.EndlessIffCycle` | native/computer-use-linux/runtime.py:416-419 | Among finitely many nodes such a chain is endless exactly if it runs into a cycle of skipped nodes |
| `RenderingTermination.OwnChildNeverEnds` | native/computer-use-linux/runtime.py:416-419 | One such input: a quiet node that is its own only child |
| `TreeRendering.Renderer.Walk` | native/computer-use-linux/runtime.py:402-441 | Appends what the specification says, with records numbered by position and lines alongside, and reports truncation |
| `TreeRendering.Renderer.WalkAll` | native/computer-use-linux/runtime.py:438-439 | The same for the loop over the children |
| `TreeRendering.Renderer.Render` | native/computer-use-linux/runtime.py:443-444 | Record i carries index i and line i is its line; they are the first 1200 entries of the outline down to depth 64, where a quiet node with at most one child is skipped; all of it unless truncation is reported, which takes 1200 records or a deeper node |
| `TabCompaction.Rendering.CompactRenderedBrowserTabs` | native/computer-use-linux/runtime.py:447-478 | Deletes the inactive direct tab lines in place, inserts the marker, and drops their records, as the filter specifies |
| `TabCompaction.CompactionIsExact` | native/computer-use-linux/runtime.py:447-478 | The lines before the first tab stay, then comes one marker with the number deleted, then the lines that are not inactive tabs, in order; the records that go are those with the index of a deleted line; and this happens exactly when there are ten direct tabs, some active and some not |
| `TabCompaction.Rendering.Walk` | native/computer-use-linux/runtime.py:402-441 | The walk with compaction after the children of each node computes the specified page, of at most MAX_NODES records, which `BrowserWalk.WalkedIsRendered` and `StripNumbering.WindowWalked` describe |
| `BrowserWalk.WalkedIsRendered` | native/computer-use-linux/runtime.py:402-441 | As long as no rendered node has ten direct tabs below it, the walk with compaction appends exactly what the walk without it renders, numbered by position |
| `TabCompaction.Rendering.TabLineIndexes` | native/computer-use-linux/runtime.py:448-452 | The positions of the direct tab lines from the start line on, in order |
| `TabCompaction.Rendering.DeleteInactive` | native/computer-use-linux/runtime.py:464-474 | Deleting from the last tab to the first filters the lines, and collects the indexes and the number of those deleted |
| `TabCompaction.KeepIsExact` | native/computer-use-linux/runtime.py:467-474 | The kept positions are in order and exactly those of the lines not omitted |
| `TabCompaction.SelectedIsLast` | native/computer-use-linux/runtime.py:455-463 | Whether a line counts as selected is decided by the last record with its index |
| `RecordNumbering.UniqueIff` | native/computer-use-linux/runtime.py:408-408 | Any given number of further records, numbered by their count, repeats no number if and only if none of the next numbers is in use |
| `RecordNumbering.NumberingStaysUniqueIff` | native/computer-use-linux/runtime.py:408-408 | It stays so however many follow, if and only if every record is still numbered by its position |
| `RecordNumbering.CompactionUniqueIff` | native/computer-use-linux/runtime.py:447-478 | After a compaction of a page numbered by position, any given number of further records repeats no number if and only if the next numbers, counted from how many records are not those of inactive tabs, are not among the numbers of these |
| `RecordNumbering.CompactionKeepsNumberingIff` | native/computer-use-linux/runtime.py:447-478 | It repeats none however many follow, if and only if the compaction does not apply, or on the page before it no record stands behind that of an inactive tab without being that of one |
| `StripNumbering.WindowWalked` | native/computer-use-linux/runtime.py:402-478 | A window with a tab strip in front, and no ten direct tabs but in the strip: its rendering is the compacted strip and then the entries of the rest, as far as there is room |
| `StripNumbering.WindowUniqueIff` | native/computer-use-linux/runtime.py:402-478 | When the strip is compacted, this rendering has distinct numbers if and only if no number but those of inactive tabs is among the numbers given to the rest |
| `StripNumbering.StripUniqueIff` | native/computer-use-linux/runtime.py:402-478 | For a strip of ten or more tabs without children, some active and some not: if and only if the numbers of window, strip and active tabs are not among the next ones |
| `StripNumbering.OneActiveTabIff` | native/computer-use-linux/runtime.py:402-478 | With one active tab, if and only if it is the first, or fewer entries follow the strip than tabs stand in front of it |
| `StripNumbering.NumberIsRepeated` | native/computer-use-linux/runtime.py:402-478 | A window that repeats a number: ten tabs, the last one active, and nine nodes after the strip |
| `CliArgs.ParseArgs` | src/cli/args.ts:87-131 | The loop computes the specified parse |
| `CliArgs.CommandPathStartsAt` | src/cli/args.ts:71-85 | The cursor loop decides whether a command path starts at a token |
| `CommandLines.LineIsReadAsWritten` | src/cli/args.ts:87-131 | A line that begins with a command word is read as it is written, for any command paths: words, the 40 flags that never take a value, flags with a value behind `=` or as the next token, and flags followed by none |
| `CommandLines.LineIsParsedAsWritten` | src/cli/args.ts:62-131 | The parse of such a line holds its words in order, and for every flag the last value given, or for the two repeatable flags all values since it was last bare, and nothing else |
| `FlagSpellings.SpellingsAgreeIff` | src/cli/args.ts:98-127 | For any command paths, replacing a spaced pair `--k v` by `--k=v` leaves the readings of the line as they are if and only if the pair is consumed and no look-ahead of a leading flag decides differently |
| `FlagSpellings.SpellingsAgree` | src/cli/args.ts:98-127 | A consumed pair can be spelled with `=` without changing the parse, on lines that begin with a command word, without registered paths, or when the token before the pair is not a flag that could take a value |
| `FlagSpellings.SpellingCanChangeCommand` | src/cli/args.ts:71-119 | Otherwise the spelling can change the command, for the path `repo list` and any flags |
| `FlagSpellings.MovingAssignmentIff` | src/cli/args.ts:91-128 | For any command paths, moving `--k=v` past a word leaves everything else read as it was and the word a command word if and only if no flag waits for a value there, or the flag is released in front of the word and no look-ahead before it decides differently |
| `FlagSpellings.MovingKeepsParse` | src/cli/args.ts:91-128 | Under that condition the parse stays the same; where no look-ahead is at work, if and only if no flag waits for a value |
| `FlagSpellings.MovingCanChangeCommand` | src/cli/args.ts:71-119 | Otherwise the move can change the command |
| `ParsedSpellings.SpellingKeepsParseIff` | src/cli/args.ts:87-131 | On a line where no word occurs twice, the condition of `SpellingsAgreeIff` is exact for the parse too |
| `ParsedSpellings.MovingKeepsParseIff` | src/cli/args.ts:87-131 | So is that of `MovingAssignmentIff` |
| `ParsedSpellings.RepeatedWordHidesDifference` | src/cli/args.ts:87-131 | With a word that occurs twice, two lines can be read differently and still come to one parse |
| `RepeatedFlags.RepeatedFlagReadsBack` | src/cli/flags.ts:31-39 | For every command line and any command paths the reader of a repeatable flag gets, in order, the non-empty parts of the values that the line supplies since the flag was last read bare |
| `RepeatedFlags.RepeatedValuesRoundTrip` | src/cli/args.ts:62-69 | Spelled with `=`, any list of non-empty NUL-free values is read back as passed, for any command paths and after any command words |
| `RepeatedFlags.PairsRoundTripIff` | src/cli/args.ts:113-127 | As separate tokens such values are read back if and only if a command word comes first or none of them is a registered command of one word |
| `CliArgs.LeadingFlagLeavesCommandPath` | src/cli/args.ts:113-119 | A flag before a registered command path does not consume it, unless another registered path starts at its second word |
| `CliArgs.LeadingFlagKeepsSelector` | src/cli/args.ts:113-127 | A flag and its value in front of a registered path: the flag keeps the value, whatever it is named like, and the path survives whole |
| `CommandNormalization.NormalizeCommandPositionals` | src/cli/args.ts:238-272 | The loops over commands, their paths and the values compute the specified normalization |
| `CommandNormalization.BindIsExact` | src/cli/args.ts:256-267 | Flags given already stay, every other positional gets its value, and nothing else is added |
| `CommandNormalization.ReportedIff` | src/cli/args.ts:258-270 | When a command takes the words, a name is reported as a conflict if and only if it is one of the positionals the words hold a value for and was given as a flag too; none is reported exactly when none was; otherwise nothing is said |
| `CommandNormalization.ReportedInOrder` | src/cli/args.ts:260-261 | They are reported in the order of the positionals |
| `CommandNormalization.PositionalsAreFlags` | src/cli/args.ts:238-272 | The step of the next two results: where the same command takes both forms, values passed by position or by flag normalize to the same |
| `PositionalForms.TakenAsMeantIff` | src/cli/args.ts:238-255 | A path leads to its own command with every list of values, at most one for each positional, if and only if no path tried before it takes it as itself and positionals, or continues it within the number of its positionals |
| `PositionalForms.FormsAgreeIff` | src/cli/args.ts:238-272 | A path leads to its own command and its values may be passed by position or by flag, with any other flags, under exactly the same condition on the table |
| `PositionalForms.PathBecomesCanonical` | src/cli/args.ts:238-272 | An uncontested path or alias of a command with positionals or aliases becomes the path of the command, flags given stay, the values go to the other positionals, and nothing else is added |
| `CommandNormalization.NormalizingKeepsCommandIff` | src/cli/args.ts:238-279 | Normalizing the path or an alias of a command leads to that same command if and only if no earlier command takes the words as a shorter path with positionals, nor a later one where the command itself is passed over |
| `CommandNormalization.TableKeepsCommandsIff` | src/cli/args.ts:238-279 | A table leads all its paths and aliases to their commands if and only if it meets this for every one of them |
| `AwakeProtocol.BlockerIsNeverLost` | src/main/agent-awake-service.ts:212-230 | In every run, whatever calls throw, at most one blocker is in force and it is the one in `blockerId` |
| `AwakeProtocol.BlockerIsHeldIff` | src/main/agent-awake-service.ts:130-172 | After any history, a new mode, new statuses, a timer that is due or waking up, if no call fails, leave a blocker in force and on record in mode `on`, none in mode `off`, and in automatic mode one exactly if some agent observed in this runtime is working and was heard of at most two hours ago; that is what is published |
| `AwakeProtocol.DisposeReleases` | src/main/agent-awake-service.ts:122-128 | Disposing with calls that do not fail leaves no blocker and no timer |
| `AwakeProtocol.DeadlineIsEarliest` | src/main/agent-awake-service.ts:174-202 | The timer is set for the earliest expiry after now, if there is one |
| `AwakeProtocol.StableUntilDeadlineIff` | src/main/agent-awake-service.ts:160-202 | The eligible statuses stay the same until the timer fires if and only if none expires exactly at the refresh |
| `AwakeProtocol.EligibleShrinksAfterDeadline` | src/main/agent-awake-service.ts:160-202 | Past the deadline strictly fewer are eligible |
| `AwakeProtocol.HeldWithoutTimerIff` | src/main/agent-awake-service.ts:165-194 | In automatic mode the blocker is left held with no timer exactly when the last expiry is at the very moment of the refresh |
| `AwakeProtocol.PunctualTimerKeepsBlocker` | src/main/agent-awake-service.ts:195-198 | A stale timer that fires on the dot keeps the blocker and arms no further timer; one millisecond late it releases it |
| `AgentAwakeService.AgentAwakeService.Refresh` | src/main/agent-awake-service.ts:130-158 | Takes the refresh step: when no call fails, exactly the recorded blocker is in force if the mode is `on`, or automatic with some agent working, and none else; and that is published |
| `AgentAwakeService.AgentAwakeService.ScheduleStaleTimer` | src/main/agent-awake-service.ts:174-202 | The loop finds the deadline |
| `AgentAwakeService.AgentAwakeService.GetEligibleRunningStatusCount` | src/main/agent-awake-service.ts:160-163 | Counts the eligible statuses |
| `AgentAwakeService.AgentAwakeService.StartBlocker` | src/main/agent-awake-service.ts:212-230 | Takes the start step, with its checks before and after: a blocker in force is kept, when no call fails the recorded blocker is in force, and when no check fails none is recorded that is not |
| `AgentAwakeService.AgentAwakeService.StopBlocker` | src/main/agent-awake-service.ts:280-297 | Takes the stop step: a stop that works ends the recorded blocker, which is forgotten unless the check throws |
| `AgentAwakeService.AgentAwakeService.ReconcileBlocker` | src/main/agent-awake-service.ts:299-318 | Forgets a blocker known not to be in force; a check that throws keeps it |
| `ShellWords.TokenizeLeadingShellWords` | src/cli/codex-command-classification.ts:86-122 | With a limit of at least one the tokens are the first words of the unlimited tokenization |
| `ShellWords.RenderRoundTrip` | src/cli/codex-command-classification.ts:86-122 | Words without a single quote, rendered in single quotes and joined by blanks, are read back; only empty ones are lost |
| `ShellWords.StripShellLaunchPrefix` | src/cli/codex-command-classification.ts:141-170 | The two loops strip the assignments and the arguments of env as specified |
| `ShellWords.AssignmentsOnlyUseUpTheLimit` | src/cli/codex-command-classification.ts:271-307 | Leading texts that the tokenizer reads as one assignment each, quoted blanks and all, use up the token limit and do nothing else |
| `ShellWords.QuotedAssignmentReads` | src/cli/codex-command-classification.ts:86-122 | `NAME='value'` and `NAME="value"` are such texts, for every value without that quote |
| `ShellWords.IsShellAssignmentIff` | src/cli/codex-command-classification.ts:137-139 | An assignment is a name of letters, digits and underscores, not beginning with a digit, followed by `=` |
| `ShellWords.CharacterAfterWord` | src/cli/codex-command-classification.ts:106-115 | Behind a word white space ends it, and any other character but a quote goes on with it |
| `CommandClassification.StrippedAreEnvArguments` | src/cli/codex-command-classification.ts:147-168 | What is stripped behind `env` is a run of assignments, options and unset names, then at most an unset option whose name is missing, and what is left begins with none |
| `CommandClassification.EnvIsTransparentIff` | src/cli/codex-command-classification.ts:141-170 | With any assignments in front, and any arguments of its own, `env` leaves a command to be classified by the same tokens if and only if that does not begin, behind its assignments, with an option or another `env` |
| `CommandClassification.LaunchIsIgnoredIff` | src/cli/codex-command-classification.ts:271-307 | The same for texts in front of a command that the tokenizer reads as those words, within the limit of 32 |
| `CommandClassification.NestedEnvHidesCommand` | src/cli/codex-command-classification.ts:147-168 | Launched through two `env` Codex is not recognized, and through one it is |
| `CommandClassification.FindCodexSubcommand` | src/cli/codex-command-classification.ts:190-218 | The loop over positions finds the specified subcommand and the tokens after it |
| `CommandClassification.OptionsAreSteppedOver` | src/cli/codex-command-classification.ts:190-218 | Options in front, with any values, do not change which subcommand is found |
| `CommandClassification.OptionsKeepSession` | src/cli/codex-command-classification.ts:220-286 | They do not change whether a Codex command counts as a session |
| `CommandClassification.RenderedIsClassified` | src/cli/codex-command-classification.ts:271-276 | A command of at most 32 words, rendered in quotes, is classified by its words |
| `AgentSessions.CodexSessionIff` | src/cli/codex-command-classification.ts:220-307 | From any folder and behind any options, a codex command is a session for both classifiers, unless help or the version is asked for or the word is one of the 25 listed subcommands; for `login` and `cloud` unless one of their listed flags or children is there. No word, a missing value and a prompt behind `--` are sessions |
| `AgentSessions.OptionsThenTail` | src/cli/codex-command-classification.ts:190-218 | Every list of arguments is of the form this is said of: options, and then nothing, a flag without its value, `--`, a request for help or the version, or a word |
| `AgentSessions.ClaudeSessionIff` | src/cli/codex-command-classification.ts:288-307 | A claude command is a session if and only if none of its arguments is a flag for help, the version or printing, and it is never one of codex |
| `AgentSessions.OthersAreNoSession` | src/cli/codex-command-classification.ts:129-135 | No other program is either |
| `CommandClassification.ShouldUseRendererBackedCodexTerminal` | src/cli/codex-command-classification.ts:271-286 | Decides by the stripped tokens within the limit |
| `CommandClassification.ShouldUseRendererBackedInteractiveTerminal` | src/cli/codex-command-classification.ts:288-307 | The same for both agents |
| `IconQueue.CommandSettlesOnce` | src/main/app-icon.ts:136-208 | Whatever order callback, process events and deadlines come in, a bounded command resolves at most once, and exactly once when both deadlines have gone by, leaving no timer |
| `IconQueue.SettledIff` | src/main/app-icon.ts:149-208 | It has settled if and only if its callback has come, or the first deadline without a process to be killed, or else the end of the process or the second deadline after the first |
| `IconQueue.NewestRequestIsNeverSkipped` | src/main/app-icon.ts:214-219 | Commands are started in strictly increasing generations, and a drained queue has started the command of the last request |
| `IconQueue.DrainedShowsLastIff` | src/main/app-icon.ts:262-288 | A drained queue shows the icon requested last if and only if the command of that request took effect and no older one, given up on at its deadline, completed after it |
| `IconQueue.DrainedShowsLastUnlessFailed` | src/main/app-icon.ts:149-162 | Without deadlines, if and only if that command did not fail |
| `IconQueue.ShownNeverGoesBack` | src/main/app-icon.ts:262-288 | Without deadlines the icon shown never goes back to an older one |
| `IconQueue.StrayCanWin` | src/main/app-icon.ts:176-189 | With a deadline an older command can complete last and win |
| `IconQueue.BoundedCommand.Finish` | src/main/app-icon.ts:149-162 | Settles the command: resolves once if it had not settled, and otherwise changes nothing |
| `IconQueue.BoundedCommand.FallbackFires` | src/main/app-icon.ts:176-189 | Leaves the command settled, or listening with the forced fallback armed |
| `IconQueue.BoundedCommand.ForceFallbackFires` | src/main/app-icon.ts:164-187 | Leaves the command settled |
| `IconQueue.BoundedCommand.ChildIsGone` | src/main/app-icon.ts:185-186 | Settles a command that listens, resolving once |
| `IconQueue.DockIconPersistence.PersistMacDockIcon` | src/main/app-icon.ts:274-275 | Enqueues work under a generation newer than all before |
| `IconQueue.DockIconPersistence.BeginWork` | src/main/app-icon.ts:275-279 | Starts the command of the newest generation, or none |
| `ResetCredits.CreditsAreConserved` | mobile/scripts/mock-server-account-state.ts:139-193 | Between resets of the fixture the credits of an account and the distinct operations that reset it add up to its initial credits |
| `ResetCredits.OffersAreRedeemedOnce` | mobile/scripts/mock-server-account-state.ts:177-182 | No offer is redeemed under two keys |
| `ResetCredits.NoCreditNeverHappens` | mobile/scripts/mock-server-account-state.ts:178-185 | Neither the answer that no credit is left nor the refusal of an offer already taken ever occurs |
| `ResetCredits.RepeatingIsIdempotent` | mobile/scripts/mock-server-account-state.ts:157-166 | Repeating an accepted key with its scope at any later time returns the same outcome and changes nothing; with another scope it is refused |
| `ResetCredits.NewKeyResetsIff` | mobile/scripts/mock-server-account-state.ts:139-193 | After any history a key not used before resets if and only if it comes with the scope shown for the active account while that has its credit: credit and session use are gone, and only the record changes besides; with any other scope the offer is said to have changed, and nothing changes |
| `ResetCredits.MockAccounts.ConsumeMockCodexResetCredit` | mobile/scripts/mock-server-account-state.ts:139-193 | Takes the redeeming step in place and gives its answer; a refusal changes nothing and an outcome is on record |
| `ResetCredits.MockAccounts.ResetMockAccountState` | mobile/scripts/mock-server-account-state.ts:53-63 | Puts the fixture back |
| `ReleaseVersion.BumpUntilOpen` | mobile/fastlane/ios_release_version.rb:52-54 | The loop yields the first version above the current one whose train is open |
| `ReleaseVersion.Resolve` | mobile/fastlane/ios_release_version.rb:47-55 | Which of the requested, the current and the bumped version is chosen |
| `ReleaseVersion.EndsIff` | mobile/fastlane/ios_release_version.rb:39-54 | Against a fixed ceiling the loop ends if and only if the current train is not below that of the ceiling |
| `ReleaseVersion.LaterTrainNeverEnds` | mobile/fastlane/ios_release_version.rb:39-54 | Version 1.2.3 against the ceiling 1.3.0 is an input on which it cannot |
| `ReleaseVersion.ResolvesToLeast` | mobile/fastlane/ios_release_version.rb:39-54 | It then yields the least version of the train above both the current version and the ceiling |
| `ReleaseVersion.LessIsNumeric` | mobile/fastlane/ios_release_version.rb:28-45 | Versions compare as the numbers that their parts are digits of |
| `ReleaseVersion.MaxVersion` | mobile/fastlane/ios_release_version.rb:28-33 | The highest of the parsable versions, by numeric precedence |

## Left out

- The content of files: serialization of the view, base64 and the key pairs themselves; a stored view is a value or nothing, a key file is missing, malformed or valid.
- Directory creation and temp-file names: temp paths are told apart by generation, or by their random part, and never collide.
- Other programs changing the active-view file, and a person removing a key lock that is in use.
- A file-system call that takes effect and still reports failure, other than the power-save calls, where stopping may do either.
- Real time: timers are steps that may happen once armed; the debounce of 100 ms and the waits between retries carry no durations.
- The order of microtasks between a settled write and the code awaiting it: any interleaving is allowed, more than the event loop produces.
- KeyFileLoader.KeyDirectory.LoadOrCreate: takes the other processes to re-read a valid file under the lock without fail, the premise `ValidFileSurvivesIff` shows to be needed.
- `loadOrCreateMockServerKeyPair` without a key file, which mints a pair for itself.
- Strings are sequences of characters; a surrogate pair counts as two in the original.
- CommandSuggestion.SuggestCommands: takes `localeCompare` as any total preorder, and flag suggestions and the wording of next steps are not modelled.
- The parsing of the program name, which precedes the arguments on a Windows command line and follows a rule of its own.
- The regular expression that detects an electron import (a chunk either requires it or not), and the smoke run of the daemon.
- TreeSearch.FirstDescendant: takes node identity as given, where Python may reuse the identity of a collected wrapper object.
- TreeRendering.Renderer.Walk: takes a finite tree, as do the walk with compaction and its results, and leaves out `maxDepthReached`; on graphs only the end of the walk is decided (`WalkEndsIff`).
- Texts of rendered lines, summaries and roles: the walk takes the predicates it computes from them as attributes of the nodes, compaction those of the lines.
- The scaling loop for screenshots, bounded by its shrinking factor: easy beside the rest.
- The order of flags in the parsed map, validation of flags and the numeric flag readers.
- Lower-casing of other than ASCII letters in command words.
- macOS and Linux sleep assertions, listeners and logging of the awake service; its resume event is one more refresh.
- The three commands that clear an icon count as one bounded command of the queue.
- Claude accounts, the account snapshot and the exact bytes of a reset scope: scope keys are equal exactly when the scopes are.
- Reading and printing of version strings: versions are triples of numbers, and a string that is none is absent.
