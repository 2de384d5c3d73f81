# VRCFury package updater, modelled in Dafny

This project models the package updater of VRCFury (`VRCFuryUpdater`), a Unity
editor plugin. One update cycle does the following:

1. It fetches the registry document and rejects it if its package list is null.
2. It reads the installed packages from the host package manager.
3. It decides whether the updater must first replace itself, by comparing the
   installed and the remote `com.vrcfury.updater`.
4. Self-update: it downloads the new updater archive, adds it, and creates the
   "update all" marker.
5. Otherwise: it downloads every installed package whose first remote entry has
   another version string and an archive URL. It then creates the "updated"
   marker, adds all staged archives in one call, and shows the recompile dialog.

A static `updating` flag drops requests that arrive while a cycle is running.
An error boundary turns anything the cycle throws into one error dialog. That
dialog reports the cause left after `TargetInvocationException` wrappers are
peeled off.

Modules:

- `Wrappers` (`wrappers.dfy`): `Option` for C# references that may be null, and
  `Result` for host calls that may throw.
- `Packages` (`packages.dfy`): the `Repository`/`Package` records and the
  installed-package record. It also holds the planner: `FirstOrDefault`, the
  LINQ `Where` as `Filter`, the self-update test `SelfUpdateUrl` and the
  ordinary list `UrlsToAdd`. The ordinary list is built as the source builds
  it: a `Select` join, then three `Where` stages.
- `Causes` (`causes.dfy`): exceptions as a finite chain of inner links, the
  `GetGoodCause` loop, and its specification `GoodCause`.
- `Staging` (`staging.dfy`): staging paths. The n-th temporary path of the
  process is `Temp/UnityTempFile-<n>`, `DownloadTgz` appends `.tgz`, and a
  staged archive is added as `file:<path>`.
- `Cycle` (`cycle.dfy`): a cycle as a trace of effects. The effects are
  `FetchManifest`, `ListInstalled`, `Download(url, path)`, `CreateMarker(kind)`,
  `AddPackages(refs)` and `Dialog(title, message)`. An environment `Env` answers
  every outside call: the decoded registry document or the exception, the
  installed list or the exception, which downloads throw, and which batch adds
  throw. `RunCycle` is `UpdateAllUnsafe` as a function. `Guarded` adds the error
  boundary. The lemmas state the properties of both.
- `Updater` (`updater.dfy`): the class `VRCFuryUpdater`. Its fields are the
  `updating` flag, the temporary-path serial and the trace of effects performed
  so far. Its methods mirror `UpdateAll`, `ErrorDialogBoundary`,
  `UpdateAllUnsafe` and `DownloadTgz`. The `foreach` that fills
  `packageFilesToAdd` is a `for` loop. Each method is proved against the `Cycle`
  functions.

Four details of the code shape the model:

- Only a null package list is rejected (line 68). An empty list is accepted, and
  the cycle goes on with nothing to update.
- When nothing is pending, the cycle still creates the updated marker, makes the
  add call with an empty list and shows the recompile dialog (lines 105–110);
  see `EmptyPlanStillAdds`.
- On the ordinary path the marker is created before the add call (lines
  105–106). On the self-update path it is created after the add call (lines
  88–89).
- The self-update path creates the marker returned by `GetUpdateAllMarker`
  (line 89). The ordinary path creates the one returned by
  `GetUpdatedMarkerPath` (line 105). The model calls them `UpdateAllMarker` and
  `UpdatedMarker`.

## Model

| member | source | states |
|---|---|---|
| `Packages.FirstOrDefault` | com.vrcfury.updater/VF/Updater/VRCFuryUpdater.cs:74-75 | The result is null exactly when no element matches. Otherwise it is the element at the first matching position. |
| `Packages.Filter` | com.vrcfury.updater/VF/Updater/VRCFuryUpdater.cs:95-97 | `Where` never lengthens the list. |
| `Packages.FilterMembership` | com.vrcfury.updater/VF/Updater/VRCFuryUpdater.cs:95-97 | `Where` keeps exactly the elements that satisfy its predicate. |
| `Packages.FilterAppend` | com.vrcfury.updater/VF/Updater/VRCFuryUpdater.cs:95-97 | `Where` over a concatenation is the concatenation of the two filtered parts: it decides each element on its own and keeps list order. |
| `Packages.FilterSingleton` | com.vrcfury.updater/VF/Updater/VRCFuryUpdater.cs:95-97 | `Where` on one element keeps it exactly when the predicate holds. |
| `Packages.FilterNone` | com.vrcfury.updater/VF/Updater/VRCFuryUpdater.cs:95-97 | `Where` keeps nothing when no element satisfies its predicate. |
| `Packages.Join` | com.vrcfury.updater/VF/Updater/VRCFuryUpdater.cs:93-94 | The `Select` pairs the i-th installed package with the first remote entry of the same id, for every i. |
| `Packages.FindRemoteSpec` | com.vrcfury.updater/VF/Updater/VRCFuryUpdater.cs:75 | The remote lookup by id is null exactly when no entry has that id. Otherwise it is the entry at the first position with that id. |
| `Packages.FindLocalSpec` | com.vrcfury.updater/VF/Updater/VRCFuryUpdater.cs:74 | The installed lookup by name is null exactly when no package has that name. Otherwise it is the package at the first such position. |
| `Packages.SelfUpdateUrl` | com.vrcfury.updater/VF/Updater/VRCFuryUpdater.cs:74-81 | The self-update URL, or null when no self-update is due. When one is due, an installed `com.vrcfury.updater` exists, and the URL is the `latestUpmTargz` of a remote entry with that id. |
| `Packages.SelfUpdateUrlSpec` | com.vrcfury.updater/VF/Updater/VRCFuryUpdater.cs:74-81 | The self-update branch is taken if and only if four things hold: the first installed `com.vrcfury.updater` exists, the first remote entry with that id exists, their version strings differ, and the remote `latestUpmTargz` is non-null. The URL used is that remote entry's. |
| `Packages.UrlsToAdd` | com.vrcfury.updater/VF/Updater/VRCFuryUpdater.cs:93-97 | The ordinary list, built as a `Select` join and three `Where` stages. It has at most one entry per installed package, and every entry has a remote entry with a non-null archive URL. |
| `Packages.UrlsToAddCons` | com.vrcfury.updater/VF/Updater/VRCFuryUpdater.cs:93-97 | The join and its three `Where` stages decide each installed package on its own, in list order. |
| `Packages.UrlsToAddSpec` | com.vrcfury.updater/VF/Updater/VRCFuryUpdater.cs:93-97 | The installed packages acted on are exactly the pending ones, in installed-list order. Every action is an installed package paired with its first remote entry, which has another version and a non-null URL. Remote-only packages are never added. |
| `Packages.OrdinaryActionIff` | com.vrcfury.updater/VF/Updater/VRCFuryUpdater.cs:93-97 | An installed package gets an ordinary action if and only if it is pending. |
| `Packages.UnmatchedNeverTouched` | com.vrcfury.updater/VF/Updater/VRCFuryUpdater.cs:94-95 | An installed package that no remote entry shares an id with is never acted on. |
| `Packages.PendingSpec` | com.vrcfury.updater/VF/Updater/VRCFuryUpdater.cs:94-97 | A package is pending if and only if the first remote entry with its id has a different `latestVersion` and a non-null `latestUpmTargz`. |
| `Causes.GoodCauseSpec` | com.vrcfury.updater/VF/Updater/VRCFuryUpdater.cs:139-145 | The reported cause lies on the chain of inner exceptions. Every exception before it on the chain is a `TargetInvocationException` with an inner exception. The cause itself is not one. |
| `Causes.GoodCause` | com.vrcfury.updater/VF/Updater/VRCFuryUpdater.cs:139-145 | The reported cause, as a recursion on the inner link. It is never a `TargetInvocationException` that still has an inner exception. |
| `Causes.GoodCauseIdempotent` | com.vrcfury.updater/VF/Updater/VRCFuryUpdater.cs:139-145 | Unwrapping an already unwrapped cause changes nothing. |
| `Causes.GetGoodCause` | com.vrcfury.updater/VF/Updater/VRCFuryUpdater.cs:139-145 | The `while` loop returns `GoodCause(e)`. The result is on the inner chain of `e` and is not a wrapper with an inner exception. |
| `Causes.ChainStep` | com.vrcfury.updater/VF/Updater/VRCFuryUpdater.cs:140-141 | Following an inner link from a chain member stays on the chain. |
| `Staging.DigitsInjective` | com.vrcfury.updater/VF/Updater/VRCFuryUpdater.cs:114 | Distinct temporary-path serials give distinct names. |
| `Staging.TgzPathSpec` | com.vrcfury.updater/VF/Updater/VRCFuryUpdater.cs:114 | Every staging path ends in `.tgz`. Two requests share a path if and only if they are the same request. |
| `Staging.FileRefInjective` | com.vrcfury.updater/VF/Updater/VRCFuryUpdater.cs:88 | `"file:" + path` tells different paths apart. |
| `Cycle.DownloadAll` | com.vrcfury.updater/VF/Updater/VRCFuryUpdater.cs:100-103 | Downloading never moves the temporary-path serial backwards. |
| `Cycle.DownloadAllSucceeds` | com.vrcfury.updater/VF/Updater/VRCFuryUpdater.cs:99-103 | When no download throws, the i-th action is downloaded from its URL into the i-th fresh path. The i-th entry of `packageFilesToAdd` is `"file:"` plus that path. |
| `Cycle.DownloadAllStops` | com.vrcfury.updater/VF/Updater/VRCFuryUpdater.cs:100-103 | After a download throws, no later action is downloaded or staged. |
| `Cycle.DownloadAllOnlyDownloads` | com.vrcfury.updater/VF/Updater/VRCFuryUpdater.cs:100-103 | The loop only downloads, at most once per action. Its failure is always the failure of one action's download. |
| `Cycle.StagedPathsDistinct` | com.vrcfury.updater/VF/Updater/VRCFuryUpdater.cs:113-121 | The add list names pairwise distinct staging paths, each ending in `.tgz`. |
| `Cycle.RunCycle` | com.vrcfury.updater/VF/Updater/VRCFuryUpdater.cs:64-111 | One cycle as a trace of effects and what it throws. It never moves the temporary-path serial backwards. A cycle that throws nothing has done at least five effects: both reads, then at least three branch effects. |
| `Cycle.PlanBranch` | com.vrcfury.updater/VF/Updater/VRCFuryUpdater.cs:77-110 | After both reads, the cycle runs the self-update branch when one is due and the ordinary branch otherwise. The serial never moves backwards, and a successful branch does at least three effects. |
| `Cycle.SelfUpdateBranch` | com.vrcfury.updater/VF/Updater/VRCFuryUpdater.cs:84-90 | The self-update branch. An automated cycle keeps the serial. An interactive one takes exactly one temporary path. The branch does at most three effects: download, add and marker. |
| `Cycle.OrdinaryBranch` | com.vrcfury.updater/VF/Updater/VRCFuryUpdater.cs:99-110 | The ordinary branch over the planned list. The serial never moves backwards, and a successful branch ends with the recompile dialog. |
| `Cycle.Guarded` | com.vrcfury.updater/VF/Updater/VRCFuryUpdater.cs:124-137 | The cycle inside `ErrorDialogBoundary`. Nothing escapes it, and it keeps the cycle's effects as a prefix of its own. |
| `Cycle.ReadsComeFirst` | com.vrcfury.updater/VF/Updater/VRCFuryUpdater.cs:65-72 | Every download, add and marker of a cycle sits at position 2 or later, after the manifest fetch and the read of the installed list. |
| `Cycle.NullPackagesFail` | com.vrcfury.updater/VF/Updater/VRCFuryUpdater.cs:67-72 | A null package list throws "Failed to fetch packages from update server". Only the fetch has happened: the installed list has not been read and nothing has been downloaded. |
| `Cycle.CycleBranches` | com.vrcfury.updater/VF/Updater/VRCFuryUpdater.cs:64-111 | Once the installed list is read, the cycle runs exactly one branch, and the self-update test picks it. Any earlier failure throws and leaves the serial as it was. |
| `Cycle.AutomatedSelfUpdateFails` | com.vrcfury.updater/VF/Updater/VRCFuryUpdater.cs:77-86 | An automated cycle where the self-update condition holds throws "Updater failed to update to new version". It does so before any download, add or marker. |
| `Cycle.InteractiveSelfUpdate` | com.vrcfury.updater/VF/Updater/VRCFuryUpdater.cs:84-90 | The interactive self-update downloads once and adds only `"file:"` plus the updater's archive path. It then creates the update-all marker and stops: no ordinary download or add, and no recompile dialog. A failing download is rethrown right after the download. A failing add is rethrown after the download and the add, before the marker. |
| `Cycle.OrdinaryBranchSucceeds` | com.vrcfury.updater/VF/Updater/VRCFuryUpdater.cs:99-110 | Ordinary branch effect order: all downloads in list order, then the updated marker, then one add with one reference per action. The recompile dialog follows unless the add throws. |
| `Cycle.OrdinaryCycle` | com.vrcfury.updater/VF/Updater/VRCFuryUpdater.cs:93-110 | The same order for the whole cycle, over the planned list, when no self-update is due. |
| `Cycle.EmptyPlanStillAdds` | com.vrcfury.updater/VF/Updater/VRCFuryUpdater.cs:105-110 | With nothing pending, the cycle still creates the updated marker, adds an empty batch and shows the recompile dialog. |
| `Cycle.OrdinaryDownloadFails` | com.vrcfury.updater/VF/Updater/VRCFuryUpdater.cs:100-103 | If any action's download throws, the branch throws and has done nothing but downloads: no marker, no add, no dialog. |
| `Cycle.OrdinaryBranchShape` | com.vrcfury.updater/VF/Updater/VRCFuryUpdater.cs:99-110 | The ordinary branch never creates the update-all marker and never shows an error dialog. When it throws, it has shown no dialog. |
| `Cycle.SelfUpdateBranchShape` | com.vrcfury.updater/VF/Updater/VRCFuryUpdater.cs:84-90 | The self-update branch never creates the updated marker and shows no dialog. Its only add call carries a single reference. |
| `Cycle.BranchesExclusive` | com.vrcfury.updater/VF/Updater/VRCFuryUpdater.cs:77-110 | No cycle creates both markers. A cycle that creates the update-all marker shows no dialog and adds exactly one reference. |
| `Cycle.CycleDialogs` | com.vrcfury.updater/VF/Updater/VRCFuryUpdater.cs:64-111 | A cycle body never shows an error dialog. A body that throws has shown no dialog at all. |
| `Cycle.BoundaryReportsOnce` | com.vrcfury.updater/VF/Updater/VRCFuryUpdater.cs:124-137 | Nothing escapes the boundary. A failed cycle ends with exactly one dialog: "VRCFury Error", whose message is the prefix plus the message of the unwrapped cause. A successful cycle shows no error dialog. |
| `Updater.VRCFuryUpdater.constructor` | com.vrcfury.updater/VF/Updater/VRCFuryUpdater.cs:54 | The flag starts false. |
| `Updater.VRCFuryUpdater.UpdateAll` | com.vrcfury.updater/VF/Updater/VRCFuryUpdater.cs:55-62 | A request while `updating` is true changes nothing. Otherwise one guarded cycle runs, and `updating` is false afterwards whatever the cycle did. |
| `Updater.VRCFuryUpdater.ErrorDialogBoundary` | com.vrcfury.updater/VF/Updater/VRCFuryUpdater.cs:124-137 | Performs the cycle's effects, then one error dialog built from `GetGoodCause` if the cycle threw. |
| `Updater.VRCFuryUpdater.DownloadTgz` | com.vrcfury.updater/VF/Updater/VRCFuryUpdater.cs:113-122 | Takes the next fresh temporary path plus `.tgz` and records the download. It returns that path, or rethrows the download's failure. |
| `Updater.VRCFuryUpdater.UpdateAllUnsafe` | com.vrcfury.updater/VF/Updater/VRCFuryUpdater.cs:64-111 | Appends exactly the effects of `RunCycle` to the trace, and returns what it throws. |
| `Updater.VRCFuryUpdater.UpdateListed` | com.vrcfury.updater/VF/Updater/VRCFuryUpdater.cs:74-110 | Appends exactly the effects of `PlanBranch` to the trace: the self-update block when due, the ordinary block otherwise. |
| `Updater.VRCFuryUpdater.UpdateSelf` | com.vrcfury.updater/VF/Updater/VRCFuryUpdater.cs:82-90 | Performs exactly the self-update branch: download, add, then marker. |
| `Updater.VRCFuryUpdater.UpdatePackages` | com.vrcfury.updater/VF/Updater/VRCFuryUpdater.cs:99-110 | The `foreach` fills `packageFilesToAdd` one download at a time and stops at the first failure. The marker, the add and the dialog then follow, as in `OrdinaryBranch`. |

## Left out

- HTTP: the registry GET (line 65) and the archive GET (line 115) are not modelled. The decoded registry document, or the exception from fetching or decoding it, is an input.
- JSON decoding (line 67) is not modelled. A document that decodes to a null `Repository` would throw a null-reference exception at line 68; the model counts this among the fetch failures the environment reports.
- Host package manager: `AsyncUtils.ListInstalledPacakges` and `AsyncUtils.AddAndRemovePackages` are not part of this model. They are recorded effects whose failure the environment decides. The add outcome depends only on the reference list, and a download outcome depends only on its URL.
- `FileUtil.GetUniqueTempPathInProject` is modelled by a process-wide serial. The real allocator uses a GUID; the model keeps only the uniqueness it promises. Writing the archive bytes through `FileStream` is left out, and so are failures of the allocator and of the file write beyond the download failure.
- `Directory.CreateDirectory` for the markers is assumed not to fail. The marker path getters of `VRCFuryUpdaterStartup` are not part of this model; they are the two abstract marker kinds.
- Threading is left out: `Task.Run`, `AsyncUtils.InMainThread`, and the non-atomic check-then-set of `updating`. The guard is modelled sequentially.
- `Debug.Log` and `Debug.LogException` are left out, because logging changes no state the cycle uses. Only a dialog's title and message are modelled, not its rendering.
- Installed packages are assumed to have non-null names and versions. Elements of the registry's package list are assumed non-null. Null fields inside a registry entry are modelled.
- The menu items (lines 21–33, 48–51) hold no logic.
- UpdateAll: the model assumes that the error dialog cannot throw. In the code, `updating = false` (line 60) is not in a `finally`. If the dialog inside the boundary threw, `updating` would stay true, and every later `UpdateAll` would return at once. The model's `UpdateAll` always clears the flag.
- ErrorDialogBoundary: the error dialog shown inside `AsyncUtils.InMainThread` (lines 129–135) is assumed not to throw. So is the recompile dialog of `UpdateAllUnsafe` (line 108). Each is recorded as one `Dialog` effect.
- `Editor/VF/Inspector/VRCFuryEditor.cs` is inspector UI over the host's GUI toolkit and is not part of this model.
