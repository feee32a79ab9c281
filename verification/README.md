# Verified models of a control panel's hardest state

The repository is a self-hosted server control panel written in Go. This project models six of its
parts and proves what they promise, over every input, every history or every interleaving:

* **Environment replication** (`EnvSync`, `Fingerprints`, `Environments`, `Boot`, `Replication`, `Staleness`,
  `Overlaps`, `HookCalls`, `HookSettings`). Every pod copies a table of variables into its process environment. Triggers append one event per
  changed row, a cursor and a fingerprint let a poll skip work, and an audit repairs what they miss. `EnvSync` says
  what one sync, and any history of syncs, leaves in the environment; `Environments` is the manager object with the
  methods that update its fields, and `Boot` what its creation leaves behind. `Replication` interleaves database
  commits, pruning, queue messages, the clock, the phases of a poll and any number of reloads, split at their
  database reads and lock sections; `Staleness` bounds how old the rows in place can be, `Overlaps` says exactly
  when the environment is the newest table's, and `HookCalls` which configuration the reload hook has last; `HookSettings` says what that
  configuration holds.
* **Cloud Shell sessions** (`ByteRings`, `ShellSessions`, `SessionRuns`, `Words`). The scrollback ring, the session
  object with its lock sections as methods, and every interleaving of connection handlers, read loop, idle-timer
  callbacks and destroyers, split where the lock is released.
* **Install ownership** (`ProbePool`, `InstallOwnership`, `BrewSync`, `BrewRuns`). The worker pool that probes installed
  software, the install table with its operations, and the
  import of what Homebrew lists, as one piece and interleaved with other operations.
* **Linux and panel users** (`UserSync`). The two-way additive reconcile with its case folding and skips.
* **Registry paths and quoting** (`Segments`, `RegistryPaths`, `HubTags`, `ShellQuote`). The path a scaffold writes against the
  paths a host tries, the parser of image tags, and the shell quoter against a word lexer for section 2.2
  (Quoting) of the Shell Command Language in IEEE Std 1003.1.
* **Two loops** (`LineWriter`, `HumanBytes`). A line splitter over a chunked stream and the scaling of int64 sizes.

`Text`, `Options` and `Selections` hold what the parts share. Objects whose methods update fields in the source are
classes here; each method is proved equal to a function of the old state, and the theorems are about those functions.
Where a theorem speaks through such a function, a lemma beside it says in plain terms what the function gives.

Some promises one would expect do not hold of the code. For each there is a concrete input or run in which it
fails, and the exact condition under which it holds:

* a poll can end with a quiet revision check and old rows (`CursorCanSkip`, `ReloadDropsNewest`); the environment
  is then the newest table's iff that holds the entries of the rows the poll kept (`PollUpToDateIff`);
* requests and queue messages reload while a poll runs, and the poll can then drop newer rows or put older ones
  back (`ReloadDropsNewest`, `PollPutsOlderBack`); at any moment the environment is the newest table's iff that
  holds the entries of the rows last put in place (`UpToDateIff`), polls no reload overlaps never go wrong like that
  (`UndisturbedPolls`), and staleness stays bounded in all cases (`BoundedStaleness`);
* a sync calls the reload hook after its lock section, so the hook can be left with an older configuration than the
  environment (`OlderConfigHandedLast`), and no poll or audit repairs that (`NoPollRepairsHook`); the two agree iff
  the last call gave the configuration of the last lock section (`HookAgreesIff`), and always if no lock section
  runs while another sync's call is due (`OrderlyHookAgrees`);
* at creation the watcher records a fingerprint of rows it does not apply, so polls skip them
  (`EnabledStaysUnset`); they are in place iff environment and managed keys happen to agree with them
  (`BootAgreesIff`, `FailedInitAgreesIff`), and the reload that follows repairs this (`BootReloadEstablishes`);
* an import can take a software away that was made local after its row was read (`LocalInstallStolen`); it can iff
  it has judged the row already (`CanTakeIff`, `OnlyDoomedAreTaken`);
* an enabled variable whose value the operating system refuses keeps an older value (`RefusedValueIsStale`,
  `WholeHistory`);
* an idle callback can destroy the session under an attached client (`TimerDropsNewClient`); it can iff it had
  passed its check already (`TimerCanDropIff`, `TimerDropsOnlyCondemned`);
* live output can overtake the scrollback (`LiveOutputCanOvertake`); the client sees them in order iff nothing was
  sent between attach and replay or both repeat the same piece (`ReplayInOrderIff`);
* a token with a blank inside is found by the scan but never by the index (`BlankTokenIsMissed`, `IndexAgreesIff`);
* a panel user can be shadowed by an account that differs in case only (`ShadowedUserHasNone`,
  `UserHasAccountIff`);
* sanitizing a path segment is not idempotent (`SanitizeNotIdempotent`, `SanitizeTwiceIff`);
* a NUL inside a value lets two different tables share a fingerprint (`NulForgesRows`, `FingerprintDetermines`).

## Model

| member | source | states |
|---|---|---|
| EnvSync.NormalizeIdempotent | packages/environments/validate.go:11-16 | normalizing a variable name a second time, as every pin lookup does, changes nothing |
| EnvSync.NormalizeNameMeans | packages/environments/validate.go:11-16 | a normalized name is the trimmed one in capitals, with an underscore for every dash and blank |
| Text.TrimDropsBlanks | packages/environments/validate.go:12 | trimming drops blanks at the two ends and nothing else |
| Text.CasesCorrespond | packages/environments/validate.go:12 | upper and lower case correspond letter by letter, and nothing else is folded |
| EnvSync.SetenvMeans | packages/environments/sync.go:128-148 | setting changes exactly the variable named, unless the system refuses: an empty name, an equals sign in it, or a NUL; unsetting removes exactly it |
| HookSettings.HookReceives | packages/environments/sync.go:97-119 | each of the seven core settings handed to the hook is its pin, or the value of the last enabled row with its name, or empty |
| EnvSync.DesiredMeans | packages/environments/sync.go:101-117 | a variable is wanted exactly if some unpinned enabled row normalizes to it, and its value is that of the last such row |
| EnvSync.DisabledMeans | packages/environments/sync.go:106-112 | a variable is switched off exactly if some unpinned disabled row normalizes to it |
| EnvSync.ApplyReflects | packages/environments/sync.go:94-156 | re-applying the rows just applied changes neither the environment, the managed keys nor the fingerprint |
| EnvSync.SkipRefinesReapply | packages/environments/watcher.go:97-101 | for an injective hash, skipping a load whose fingerprint is the recorded one is the same as applying it, and the hook would be given the configuration it was given before |
| EnvSync.ReflectsShows | packages/environments/sync.go:128-153 | in a state that reflects some rows, enabled variables have the rows' values, disabled ones are unset, and the managed keys are exactly the enabled names |
| EnvSync.PinsHold | packages/environments/sync.go:88-92 | after any non-empty history of syncs a pinned variable holds its pin, whatever the rows say |
| EnvSync.UnmentionedKeepsBoot | packages/environments/sync.go:128-149 | after any history a variable no row ever mentioned has its boot value and is not managed |
| EnvSync.WholeHistory | packages/environments/sync.go:94-156 | after any history a variable some rows mentioned is set iff the last rows enable it and none disables it, to their value; if the system refuses that value, it is as the earlier rows left it |
| EnvSync.RefusedValueIsStale | packages/environments/sync.go:128-131 | the refused case occurs: two syncs after which a variable still has the first value though the last rows give another |
| Fingerprints.SortedIsUnique | packages/environments/sync.go:18-21 | a set of entries has one arrangement by strictly increasing name, so the digest does not depend on row order or on the sorting algorithm |
| Fingerprints.MessageInjective | packages/environments/sync.go:23-35 | the bytes hashed for NUL-free entries determine the entries |
| Fingerprints.FingerprintDetermines | packages/environments/sync.go:13-37 | tables with unique names and NUL-free fields have equal fingerprints iff they hold the same (name, value, disabled) triples, in any row order |
| Fingerprints.FingerprintDeterminesLoaded | packages/environments/sync.go:13-37 | for rows loaded in name order, equal fingerprints mean the same triples in the same order |
| Fingerprints.NulForgesRows | packages/environments/sync.go:24-35 | with a NUL inside a value one row has the fingerprint of two others, whatever the hash |
| Environments.ComputeFingerprint | packages/environments/sync.go:13-37 | the digest loop computes the hash of the rows sorted by name, field by field, also for no rows |
| Environments.Manager.ApplyLocked | packages/environments/sync.go:97-156 | for every order in which the maps are iterated, sets, unsets and pins leave the environment, managed keys and fingerprint the specification names, and nothing else of the manager changes |
| Environments.Manager.ApplySync | packages/environments/sync.go:94-164 | a sync no other overlaps ends with its lock section's state and, if a hook is registered, with the hook called with row values overridden by pins |
| Environments.Manager.SetHooks | packages/environments/sync.go:203-208 | registering a hook hands nothing out |
| Environments.SyncIdempotent | packages/environments/sync.go:94-164 | a second sync of the same rows changes nothing of the pod, the configuration handed out included |
| Environments.Manager.Reload | packages/environments/sync.go:190-201 | a successful load is applied, a failed one changes nothing |
| Environments.Manager.Poll | packages/environments/watcher.go:70-109 | the whole new state of a poll: skip, plain load or audit, each with its failed reads |
| Environments.PollMoves | packages/environments/watcher.go:70-144 | field by field: nothing moves without a successful load, which needs a newer event or an audit due after five minutes; then the cursor takes the id read at the end, the audit time moves only for an audit, and rows that differ are synced and handed to the hook |
| Environments.Manager.PollFull | packages/environments/watcher.go:111-137 | an audit compares, stamps its time and refreshes the cursor, and does none of it when the load fails |
| Environments.Manager.UpdateSyncCursors | packages/environments/notify.go:149-159 | the cursor becomes the newest event id read, or stays if the read failed |
| Environments.Manager.InitWatcherState | packages/environments/watcher.go:146-163 | fingerprint, cursor and audit time are recorded and the environment is not touched |
| Environments.WatcherStarts | packages/environments/watcher.go:146-163 | a watcher that could load starts from the id and time it read and the rows' fingerprint, and touches neither environment nor managed keys; one that could not changes nothing |
| Environments.New | packages/environments/environments.go:46-57 | a new manager has synced what the first load gave, if it succeeded, and then recorded a second load's fingerprint, the newest event id and the time |
| Environments.Manager.HandleSyncQueueMessage | packages/environments/queue.go:91-117 | a foreign message reloads first and then only raises the cursor; an own one, or one whose reload fails, changes nothing |
| Environments.MessageRaisesCursor | packages/environments/queue.go:109-112 | a message raises the cursor to at least its event, never lowers it, and changes nothing else |
| Replication.MaxIsLast | packages/environments/notify.go:85-111 | under any pruning the newest id in the table is the newest ever appended, and bounds every id ever appended |
| Replication.PruningKeepsNewest | packages/environments/notify.go:85-97 | pruning keeps the newest thousand events, or all if there are fewer |
| Replication.RunKeepsInv | packages/environments/watcher.go:70-144 | every reachable state, under every interleaving of a poll with any number of reloads, reflects a committed table under its fingerprint, with a sound log and cursor |
| Replication.CursorSound | packages/environments/notify.go:85-159 | over every run neither the newest event id nor the cursor ever decreases, and the cursor never exceeds the newest id |
| Replication.QuietMeansNothingWritten | packages/environments/notify.go:128-147 | the revision check is quiet iff the cursor names the newest event ever appended, and then no table was committed after that event |
| Replication.PhasesArePoll | packages/environments/watcher.go:70-137 | the interleaved phases of a poll, whichever reads fail and with anything happening between them that leaves the pod alone, leave the pod as the manager's poll does on the values read |
| Replication.ReflectsIff | packages/environments/sync.go:13-37 | in every reachable state the environment reflects exactly the loaded tables that hold the entries of the rows in place |
| Replication.LoadingPollAgreesIff | packages/environments/watcher.go:97-108 | in every reachable state a compare, applied or skipped, ends with the environment reflecting exactly the rows loaded iff they are not dropped: same fingerprint as at the poll's start while a reload put other rows in place |
| Staleness.BoundedStaleness | packages/environments/watcher.go:70-144 | at every moment of every timely run, whatever reloads overlap, the environment reflects a committed table that includes every commit older than one audit interval, one poll interval, two poll lengths and one reload |
| Staleness.SkippedPollIsRecent | packages/environments/watcher.go:79-90 | in every timely run a poll that loads nothing began less than one audit interval, one poll length and one reload after the rows in place were loaded |
| Staleness.DropsAfterReload | packages/environments/watcher.go:79-101 | in every timely run rows are only dropped for rows that a reload loaded at most one reload before the poll began |
| Staleness.BootReloadEstablishes | config/config.go:120-125 | the reload after hook registration establishes the invariant every run keeps and the premise of bounded staleness, whatever the pod held and whatever else is under way |
| Staleness.NewPodStartsRuns | packages/environments/sync.go:190-197 | a pod that has just synced the only table satisfies the premises of the theorems about runs |
| Overlaps.PollUpToDateIff | packages/environments/watcher.go:92-108 | from a poll's load to its cursor read, whatever happens but a reload taking effect, the check ends quiet, and the environment is the newest table's iff that holds the entries of the rows loaded or, if these were dropped, of those in place before |
| Overlaps.UpToDateIff | packages/environments/sync.go:94-156 | at any moment of any run the environment is the newest table's iff that holds the entries of the rows a poll or a reload last put in place |
| Overlaps.UndisturbedPolls | packages/environments/watcher.go:79-108 | while no reload takes effect, every compare leaves exactly its rows in place and the pod never goes back to an older version |
| Overlaps.CursorCanSkip | packages/environments/watcher.go:92-108 | from every reachable idle state a run leads to one where the check is quiet and the pod one commit behind; its environment is the newest table's iff the two commits left the same entries |
| Overlaps.ReloadDropsNewest | packages/environments/notify.go:51-53 | a run in which the table changes and changes back while a poll runs, a reload takes effect in between, and the poll ends quietly with the pod on rows no longer there |
| Overlaps.PollPutsOlderBack | packages/environments/notify.go:51-53 | a run in which a reload brings the pod up to date and the poll it overlaps then puts an older table back and ends quietly |
| HookCalls.HookAgreesMeans | packages/environments/sync.go:155-161 | in every reachable state the hook agrees with the rows in place iff it has the configuration of any table the environment reflects |
| HookCalls.HookAgreesIff | packages/environments/sync.go:155-161 | at any moment of any run the hook agrees with the rows in place iff the sync whose call came last gave the configuration of the sync whose lock section came last |
| HookCalls.OrderlyHookAgrees | packages/environments/sync.go:155-161 | in every run in which no lock section runs while another sync's call is due, the hook agrees whenever no call is due |
| HookCalls.LockKeepsHook | config/config.go:120-125 | a lock section with a hook registered and no call due, such as that of the reload at boot, establishes the premise of the former, whatever the hook had before |
| HookCalls.OlderConfigHandedLast | packages/environments/sync.go:155-161 | a run of two overlapping reloads that ends with all calls made, the environment the newest table's and the hook on the older table's configuration |
| HookCalls.NoPollRepairsHook | packages/environments/watcher.go:79-137 | from a state like that on, over any number of polls and audits without a commit or a reload, the hook is never called again |
| HookCalls.PortConfigs | packages/environments/sync.go:63-80 | two tables with one PORT row each give different configurations iff the ports differ |
| Boot.NothingToSyncIff | packages/environments/sync.go:128-153 | a sync would change neither environment nor managed keys iff pins and enabled variables have their values, disabled ones are unset and the managed keys are the enabled names |
| Boot.BootAgreesIff | packages/environments/environments.go:54-57 | no poll that loads the rows of the watcher's first fingerprint applies them; the pod reflects them iff environment and managed keys agree with them already; no configuration has been handed out |
| Boot.SameLoadsAgree | packages/environments/environments.go:54-57 | if the first sync loaded the rows the watcher did, the pod reflects them |
| Boot.FailedInitAgreesIff | packages/environments/environments.go:54-57 | after a failed first sync the pod comes out right iff no counted row is enabled, every disabled variable is unset and every settable pin has its value |
| Boot.EnabledStaysUnset | packages/environments/watcher.go:146-163 | if the first sync failed or a commit landed between the two loads, polls leave an enabled variable unset |
| ByteRings.LastNAppend | modules/cloudshell/sessions.go:283-291 | keeping the last n of what was kept, then appending, keeps the last n of everything |
| ByteRings.RingStep | modules/cloudshell/sessions.go:283-291 | storing one byte at the write position yields the last n bytes of the old contents followed by it, also at the wrap point |
| ByteRings.ByteRing.Write | modules/cloudshell/sessions.go:283-291 | the ring goes on holding exactly the last size bytes of everything ever written |
| ByteRings.ByteRing.Snapshot | modules/cloudshell/sessions.go:293-306 | the snapshot is the suffix of length min(total, size) of everything ever written |
| ByteRings.ReplayAfterWrites | modules/cloudshell/sessions.go:269-306 | any sequence of writes followed by a snapshot returns the last size bytes of their concatenation |
| ShellSessions.ManagedSession.CancelIdleLocked | modules/cloudshell/sessions.go:131-136 | no timer is left in the field |
| ShellSessions.ManagedSession.ScheduleIdle | modules/cloudshell/sessions.go:138-156 | exactly one timer is armed, whatever was there and whether or not the session is closed |
| ShellSessions.ManagedSession.Attach | modules/cloudshell/sessions.go:158-169 | an open session takes the sink, cancels the timer and returns the scrollback; a closed one refuses unchanged |
| ShellSessions.ManagedSession.DetachLocked | modules/cloudshell/sessions.go:171-182 | only the current sink detaches, and only then the caller is told to schedule the idle timer |
| ShellSessions.ManagedSession.Record | modules/cloudshell/sessions.go:202-205 | the chunk enters the ring and the sink chosen is the one attached in that same lock section |
| ShellSessions.ManagedSession.DestroyLocked | modules/cloudshell/sessions.go:226-235 | an open session closes, drops its sink and timer and makes the caller the winner; a closed one changes nothing |
| SessionRuns.NoLeakAndSingleClose | modules/cloudshell/sessions.go:138-182 | in every run a closed session has no sink, the terminal is closed at most once, and an open session once attached and now detached has an armed timer, a callback in flight or a detach about to schedule |
| SessionRuns.ClosedForever | modules/cloudshell/sessions.go:226-240 | in every run a closed session stays closed |
| SessionRuns.FireNeedsSchedule | modules/cloudshell/sessions.go:131-169 | in every run an idle timer that fires after an attach or a destroy was scheduled since: both cancel it |
| SessionRuns.LateCallsChangeNothing | modules/cloudshell/sessions.go:161-181 | a refused attach, a stale sink's detach and a second destroy leave the session as it is |
| SessionRuns.ClosedCanHaveTimer | modules/cloudshell/sessions.go:171-179 | a run in which a handler schedules the idle timer of a session closed since it left |
| SessionRuns.ResumeExactlyOnce | modules/cloudshell/sessions.go:158-209 | under every interleaving an attachment at offset p got the last min(p, size) bytes before p and then exactly the output from p to its end, in order, each byte once |
| SessionRuns.EarlyIsSentBefore | modules/cloudshell/ws.go:95-124 | the bytes that reached the client before the scrollback are exactly those the read loop sent it between its attach and its replay, at any time later |
| SessionRuns.ReplayInOrderIff | modules/cloudshell/ws.go:95-124 | after the replay the client has scrollback then live output iff nothing was sent between attach and replay, or that and the scrollback repeat one and the same piece |
| SessionRuns.LiveOutputCanOvertake | modules/cloudshell/sessions.go:202-208 | a run from a new session in which the client sees the newer byte before the scrollback |
| SessionRuns.CondemnedBefore | modules/cloudshell/sessions.go:143-155 | while somebody is attached no idle callback passes its check: one that has passed it at the end had passed it at the start |
| SessionRuns.TimerDropsOnlyCondemned | modules/cloudshell/sessions.go:143-155 | in every run an idle callback that destroys a session to which somebody is attached had passed its check by the first state of that attached stretch |
| SessionRuns.TimerCanDropIff | modules/cloudshell/sessions.go:143-155 | in every reachable state with a client attached, some continuation loses it to the idle timer while attached iff a callback has passed its check already |
| SessionRuns.TimerDropsNewClient | modules/cloudshell/sessions.go:143-155 | a run from a new session in which a second client attaches and loses the session to the first one's idle callback |
| SessionRuns.IdleDestroyCanDropAttachment | modules/cloudshell/sessions.go:143-155 | from every reachable open state with a condemning callback, a client can attach and then lose its session to that callback |
| ProbePool.Deterministic | packages/softwaresync/sync.go:224-261 | under every worker schedule a pool that finishes uncancelled has probed each target exactly once and holds what the host said about each |
| ProbePool.NeverStuck | packages/softwaresync/sync.go:224-257 | until the wait returns, some step other than a cancellation is always possible |
| ProbePool.PoolFinishes | packages/softwaresync/sync.go:224-257 | under every schedule a pool makes at most three steps per target and one to close, cancellations apart, and when no other step is left the wait returns |
| ProbePool.SettleDecides | packages/softwaresync/sync.go:263-276 | the last target with an id decides its flag: set iff the host lacks it |
| ProbePool.SettleKeeps | packages/softwaresync/sync.go:263-276 | an id no target carries keeps its flag |
| ProbePool.MissingInOrder | packages/softwaresync/sync.go:264-276 | the missing targets are those the host does not have, each once and in order |
| ProbePool.Reconciler.MarkOsMissing | packages/softwaresync/sync.go:117-127 | exactly the non-empty ids of the target are added to the two sets |
| ProbePool.Reconciler.ClearOsMissing | packages/softwaresync/sync.go:129-139 | exactly the non-empty ids of the target are removed from the two sets |
| ProbePool.Reconciler.Settled | packages/softwaresync/sync.go:259-289 | after any run of the pool, all or nothing: cancelled means no flag and no queue change, otherwise flags and queue are those of the host's answers, in target order |
| InstallOwnership.InstallStore.MarkSoftwareInstalledWithManager | models/softwareinstalled.go:73-99 | one row per software: created, overwritten or revived as an active install of the normalized manager |
| InstallOwnership.InstallStore.SetSoftwarePackageManager | models/softwareinstalled.go:102-116 | ownership changes only on a visible row, and nothing else of the row does |
| InstallOwnership.InstallStore.MarkSoftwareUninstalled | models/softwareinstalled.go:129-146 | an existing row, even a soft-deleted one, becomes a visible uninstalled row that keeps its version and manager |
| InstallOwnership.InstallStore.GetSoftwareInstalled | models/softwareinstalled.go:150-163 | exactly the rows not soft-deleted are found |
| InstallOwnership.InstallStore.ClearSoftwareInstalled | models/softwareinstalled.go:249-254 | a visible row becomes soft-deleted, anything else stays |
| InstallOwnership.NormalizeManagerMeans | models/softwareinstalled.go:57-64 | only the word brew, in any case and between any blanks, names brew; all else is local |
| InstallOwnership.VisibleMeans | models/softwareinstalled.go:150-163 | a row is found iff it is stored under a non-empty id and not soft-deleted |
| InstallOwnership.OwnerMoves | models/softwareinstalled.go:102-116 | an ownership change leaves hidden rows and other software alone, and everything but the manager of a visible row |
| InstallOwnership.HistoryOf | models/softwareinstalled.go:73-146 | after any history a software has a row iff it was ever installed, at the last install's version, uninstalled iff it was since, and hidden iff cleared since and not uninstalled after that |
| InstallOwnership.IntentSurvives | models/softwareinstalled.go:73-146 | after any history a software is actively owned by a manager iff its last mark was an install, not cleared since, and that manager is the last one given |
| InstallOwnership.SelectTargets | packages/softwaresync/sync.go:186-218 | the targets are those of the rows kept, in listing order |
| InstallOwnership.TargetsMeans | packages/softwaresync/sync.go:186-218 | a target is there iff a listed row not uninstalled, not brew-owned, of active software with a known version asks for it |
| InstallOwnership.TargetsInOrder | packages/softwaresync/sync.go:186-218 | there is one target for every row kept, in listing order |
| InstallOwnership.ProbedIff | packages/softwaresync/sync.go:186-218 | whatever the history, a version is probed iff it is that of the software's standing install, its owner is local, it exists and the software is active in the catalog |
| InstallOwnership.OnlyIntendedAreQueued | packages/softwaresync/sync.go:186-286 | whatever the history, only software whose last mark was an install and whose owner is local is queued, at the version that install named |
| BrewSync.BuildBrewTokenIndex | modules/brew/sync.go:178-196 | the index built by the loop, first row with a token first |
| BrewSync.FindSoftwareByBrewToken | modules/brew/switch.go:28-43 | the first active row with the folded token, none for an empty one |
| BrewSync.FindsFirst | modules/brew/switch.go:16-43 | the scan finds the first software that goes by the token: by its slug, or by its name if it has no slug |
| BrewSync.FindsNone | modules/brew/switch.go:16-43 | it finds nothing if no software goes by the token |
| BrewSync.IndexIsScan | modules/brew/sync.go:178-196 | for every non-empty blank-free token the index holds what the linear scan finds, for every other token nothing |
| BrewSync.IndexAgreesIff | modules/brew/switch.go:28-43 | for any token as typed the two agree iff the scan does not find a software whose token has a blank inside |
| BrewSync.BlankTokenIsMissed | modules/brew/sync.go:184-188 | a software named with a blank inside that the scan finds and the index does not |
| BrewSync.PickVersionIDForBrew | modules/brew/sync.go:198-221 | the first version that agrees with brew's up to a prefix, case apart, else the first version, else none |
| BrewSync.PickedVersion | modules/brew/sync.go:198-221 | the version is the first of which one begins with the other, blanks around and case apart; if none or brew reports none, the first; none only if there are none |
| BrewSync.MatchedMeans | modules/brew/sync.go:112-122 | a listed item stands for the first software that goes by its folded name, if that is blank-free and not empty |
| BrewSync.BrewImporter.ImportOne | modules/brew/sync.go:112-144 | one item: strangers, active local installs and software without versions change nothing, anything else becomes a brew install |
| BrewSync.BrewImporter.ImportItems | modules/brew/sync.go:111-152 | the first loop imports the items in order and collects the software they stand for |
| BrewSync.BrewImporter.SweepStale | modules/brew/sync.go:154-173 | in any row order, exactly the active brew rows not collected become uninstalled |
| BrewSync.BrewImporter.SyncHostInstalls | modules/brew/sync.go:93-176 | the whole table after an import |
| BrewSync.ListedIsInstalled | modules/brew/sync.go:126-144 | a listed software that is not actively local ends up actively brew's, at the version its last item picks |
| BrewSync.UnlistedIsSwept | modules/brew/sync.go:154-173 | a software no item stands for is marked uninstalled iff it was actively brew's, and otherwise left alone |
| BrewSync.ListedStays | modules/brew/sync.go:124-143 | an active brew row stays active while listed, even if no version of it can be recorded |
| BrewSync.LocalInstallsUntouched | modules/brew/sync.go:132-136 | no undisturbed import changes an active local row in any way |
| BrewSync.BrewRowsAreBacked | modules/brew/sync.go:154-173 | after an import every active brew row is backed by a listed token |
| BrewSync.ImportFixpoint | modules/brew/sync.go:93-176 | a second import of the same list changes no row |
| BrewSync.ImportIsOperations | modules/brew/sync.go:112-173 | an import is a history of brew installs and uninstalls, so the ownership theorems cover it |
| BrewRuns.AloneIsSynced | modules/brew/sync.go:93-176 | read by read and write by write, with nothing in between and the stale rows marked in any order, an import leaves the table of the atomic one |
| BrewRuns.OnlyDoomedAreTaken | modules/brew/sync.go:128-170 | in every run with any other operations in between, an import step that ends an active local ownership had read or listed the row before that ownership began |
| BrewRuns.CanTakeIff | modules/brew/sync.go:128-170 | an active local software can still be taken by the import while it is local iff its row is about to be written or listed as stale already |
| BrewRuns.LocalInstallStolen | modules/brew/sync.go:128-144 | a request installs a software locally between the import's read and its write, and the import makes it brew's |
| UserSync.ValidIsFolded | packages/linuxuser/linuxuser.go:505-522 | folding leaves a valid account name alone |
| UserSync.ValidUsernameMeans | packages/linuxuser/linuxuser.go:505-522 | a valid name has 1 to 32 characters from the given alphabet and begins with a letter or an underscore |
| UserSync.Syncer.IndexUsers | packages/usersync/sync.go:79-89 | the two indexes as the loop builds them, a later user over an earlier one |
| UserSync.ByUsernameMeans | packages/usersync/sync.go:79-85 | each folded username leads to the last user that has it |
| UserSync.ByLdapMeans | packages/usersync/sync.go:86-89 | each folded LDAP name leads to the last user that has it |
| UserSync.IndexesMean | packages/usersync/sync.go:153-159 | a key is in one of the two indexes iff some panel user has it, folded, as username or LDAP name |
| UserSync.Syncer.CreatePanelUserFromLinux | packages/usersync/sync.go:177-224 | a user is appended unless one collides by username, LDAP name or email, or the database refuses |
| UserSync.Syncer.ImportAccounts | packages/usersync/sync.go:91-108 | accounts unknown before the pass get users, in listing order, and the names known are the folded listing |
| UserSync.Syncer.ProvisionUsers | packages/usersync/sync.go:110-148 | the account table after walking the panel users in order |
| UserSync.Syncer.Sync | packages/usersync/sync.go:59-151 | both stores after a whole pass, the second half working on the users loaded before the first |
| UserSync.SyncIsAdditive | packages/usersync/sync.go:59-151 | no existing panel row and no existing account changes or goes away |
| UserSync.CreatedForUser | packages/usersync/sync.go:110-146 | an account is only created for a user of that name, by username or else LDAP name, who is neither deleted, disabled, suspended nor inactive, never for root, and with bash |
| UserSync.NobodyBarredGetsAccount | packages/usersync/sync.go:168-175 | no pass creates an account if everybody of that name is deleted, disabled, suspended or inactive |
| UserSync.AppendedIff | packages/usersync/sync.go:91-108 | a pass appends an active user with a local address exactly for the login accounts that nobody was known by as username, LDAP name or email, unless the database refuses |
| UserSync.AccountsAreKnown | packages/usersync/sync.go:91-108 | after a pass every syncable account, old or new, matches a panel row by username, LDAP name or email, or its creation was refused |
| UserSync.SyncFixpoint | packages/usersync/sync.go:59-151 | a second pass over any listing of what the first left changes neither store, whatever was refused |
| UserSync.UserHasAccountIff | packages/usersync/sync.go:110-148 | the first provisionable non-root user with a valid name gets or has an account iff there was one or no earlier user is named like an account differing in case only |
| UserSync.ShadowedUserHasNone | packages/usersync/sync.go:121-128 | with account "Bob" and users "Bob" and "bob", no pass ever creates "bob" |
| ShellQuote.EscapedReads | packages/softwarepkg/scaffold.go:556 | the escaped body, read inside single quotes, gives back every character, quotes included |
| ShellQuote.QuoteIsOneWord | packages/softwarepkg/scaffold.go:545-557 | before any separator the shell reads a quoted name as exactly one word, the trimmed name, except one with a NUL, which is no word, and one of digits before a redirection, which is its number |
| ShellQuote.QuotesIfNeeded | packages/softwarepkg/scaffold.go:545-557 | a name of letters, digits and -_.+ stays as it is, any other goes between single quotes, and so does an empty one |
| ShellQuote.QuoteInjective | packages/softwarepkg/scaffold.go:545-557 | two NUL-free names quote alike iff they are equal after trimming |
| Segments.SanitizeFixedIff | packages/softwarepkg/resolve.go:162-170 | the fixed points are exactly the trimmed lower-case texts without blanks, slashes, backslashes and double dots |
| Segments.SanitizesWords | packages/softwarepkg/resolve.go:162-170 | without dots and slashes, sanitizing trims, folds to lower case and turns blanks into dashes, character by character |
| Segments.SanitizeNotIdempotent | packages/softwarepkg/resolve.go:162-170 | two segments that sanitizing changes twice, one through dots that meet and one through a blank that comes to the front |
| Segments.SanitizeTwiceIff | packages/softwarepkg/resolve.go:162-170 | sanitizing twice is sanitizing once iff, before slashes and backslashes go, none stand alone between two dots and neither the first nor the last other character is a blank |
| RegistryPaths.TreePathInjective | packages/softwarepkg/scaffold.go:313-326 | slash-free segments can be read back from a path |
| RegistryPaths.TreeIsNotDefault | packages/softwarepkg/scaffold.go:313-326 | no distro's path is the default path |
| RegistryPaths.Layout | packages/softwarepkg/scaffold.go:313-326 | the path of every target, spelled out |
| RegistryPaths.ArchNames | models/softwaresversion.go:155-168 | the names a processor goes by are folded to one each, any other name is only trimmed and lower-cased |
| RegistryPaths.ResolveInstallPaths | packages/softwarepkg/resolve.go:34-70 | the paths added are the candidate paths, each at its first place |
| RegistryPaths.ResolveHasNoDuplicates | packages/softwarepkg/resolve.go:46-54 | no path is tried twice |
| RegistryPaths.TriedIffServes | packages/softwarepkg/resolve.go:34-70 | the path a scaffold writes for a target is tried by a host iff the target serves that host |
| RegistryPaths.NarrowerIsTriedFirst | packages/softwarepkg/resolve.go:56-68 | of two targets that serve a host the more specific one is tried first |
| RegistryPaths.TriedInOrder | packages/softwarepkg/resolve.go:56-68 | a host of known version and processor tries its own path, any processor's, any version's, the distro's and the default one, in this order |
| RegistryPaths.AliasIsServed | packages/softwarepkg/resolve.go:41 | a host tries the targets for what its processor is called in the registry, whichever alias it reports |
| HubTags.ParseContainerWSTag | packages/softwarepkg/hub.go:107-137 | the loop decides at the first known distro that opens the tag |
| HubTags.ParseInvertsNaming | packages/softwarepkg/hub.go:107-137 | a tag parses to (d, v) iff d is a known distro, v names a version and the folded tag is d-v |
| HubTags.KnownDistros | packages/softwarepkg/hub.go:112-115 | the twelve distros a tag can name |
| HubTags.NamesVersionMeans | packages/softwarepkg/hub.go:121-134 | after the distro anything names a version but nothing at all and digits and dots, or one of five words, with more behind a dash |
| HubTags.AppTagsAreRefused | packages/softwarepkg/hub.go:129-133 | a known distro's tag with something behind its version is refused |
| HubTags.DocumentedTags | packages/softwarepkg/hub.go:105-106 | the documented tags parse to the documented pairs |
| HubTags.HubTargets | packages/softwarepkg/hub.go:140-164 | one target per key, in the order the keys first come |
| HubTags.TargetsAreTags | packages/softwarepkg/hub.go:140-164 | the targets are those of the usable tags, each exactly once |
| HubTags.TargetsInOrder | packages/softwarepkg/hub.go:140-164 | there is one target, for any processor, for the first workspace tag of every distro and version, in tag order |
| HubTags.HubTargetsAreFirst | packages/softwarepkg/testinstall.go:142-155 | distinct targets have distinct install paths, and each is the first path tried for its own tag |
| LineWriter.FeedIsLossless | modules/codeserver/clone.go:175-182 | the cut lines and the remainder give back the stream, and none of them holds a newline |
| LineWriter.EmittedLine | modules/codeserver/clone.go:181-185 | a closed line is dropped iff it is blank, and else emitted with exactly the returns at its end removed |
| LineWriter.EmitsInOrder | modules/codeserver/clone.go:176-186 | lines are emitted in the order they are closed in |
| LineWriter.FeedAppend | modules/codeserver/clone.go:171-188 | cutting a stream in two pieces is cutting it whole |
| LineWriter.Writer.Write | modules/codeserver/clone.go:171-188 | after any write the lines emitted are the non-blank lines of the whole stream without trailing returns, and the buffer is what follows its last newline |
| LineWriter.WriteAll | modules/codeserver/clone.go:171-188 | lines and remainder depend on the concatenation of the writes only |
| HumanBytes.Scale | packages/machine/detect.go:480-494 | over all int64 the divisor is the power of 1024 that brings the count into [1, 1024), never overflows, and has the letter of its range |
| HumanBytes.UnitUnique | packages/machine/detect.go:488-492 | no other power fits, so the letter is determined |

## Left out

- Hashing: SHA-256 is a parameter; the lemmas that need it injective require that. Hex encoding is not modelled.
- Characters: letters fold, and blanks are recognised, as in ASCII; strings are not bytes in an encoding.
- Redis: revision counters, publishing and the subscription; only the database cursor is modelled, and queue
  messages are optional steps that carry the id of an event already appended. Decoding them is left out.
- Concurrency of reloads and polls: a sync's whole lock section is one step, and so is a call of the hook; what the
  hook does with the configuration is left out. One hook is registered at most once. The poll loop's timer and the
  length of polls and reloads are the hypothesis `Timely`.
- QuietMeansNothingWritten: rests on event ids becoming visible in increasing order, as in SQLite; concurrent
  Postgres transactions can commit a smaller id after a larger one, which `MaxIsLast` does not cover either.
- PollUpToDateIff: is about stretches in which no reload takes effect; for all others `UpToDateIff` has the condition.
- LocalInstallsUntouched: is about an import nothing overlaps; `BrewRuns` has the interleavings. Marking an install or
  an uninstall is one step there, although the source reads the row it saves.
- Rows: the table is what a load returns, so the module filter, soft deletes, groups, descriptions and the
  create, update and delete calls are left out; a commit is any new table with at least one event.
- Trigger text, event actions and timestamps, for SQLite and Postgres; a trigger is "append one larger id".
- Writes to the environment that bypass the sync (`EnsureCore`, `SetCore`); `WholeHistory` holds between them.
- Sorting: the standard library's sort is an insertion sort here; `SortedIsUnique` shows the algorithm does not matter.
- Terminals and sockets: the PTY, failing writes to a sink, frames other than binary output, resizing, activity
  times and the stored session rows. The list of sessions is one flag per session.
- Probing: what a probe finds is an arbitrary answer per target; the number of workers is arbitrary, and an
  enqueue hook is assumed registered. Logs and result counters are left out everywhere.
- Database errors in the install table and in the import; an import cut short is covered by `ImportIsOperations`.
  The unique key on the software id is the map's key. Switching managers and its queue are left out.
- Brew: the list it prints and the order of versions are inputs.
- UserHasAccountIff: speaks of the first user with a name; a later one with the same name finds what that one left.
- TriedIffServes: is about targets whose segments hold no slash, the only ones a path can tell apart.
- HubTargetsAreFirst: is about tags whose distro and version are fixed points of sanitizing, with a version.
- SyncFixpoint: takes the same refusals in both passes.
- New users' names, roles and passwords, groups, locking, and every account operation but lookup and creation.
- Package families, names and images of targets, the script builders, candidate slugs, raw URLs, the catalog
  index and the reading of the install file that the first existing path names.
- Printing a scaled size to one decimal, which is floating point.
- HTTP handlers, templates, containers, proxies and metrics: plumbing over libraries.
