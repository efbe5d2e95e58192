# A verified model of odf-cli

odf-cli is a command line tool for OpenShift Data Foundation. Most of it passes arguments on to `oc`, to
Kubernetes clients and to a library. This project models, in Dafny, the parts that carry logic of their own, and
proves what they are for:

- **CRD install and uninstall** (`CrdStore`, `CrdProcess`, `CrdGuarantees`, `CrdInstall`,
  `InstallProtocol`). The API server
  is a store of versioned objects in which one request is one atomic step. The commands are written as the source
  writes them, over a server object, and proved equal to a small process that makes one request at a time. Around
  every request other clients may do anything, and any request may be lost before or after it took effect.
  `InstallProtocol` runs any number of these processes interleaved in any order, and shows that each of them sees
  exactly a run of the sequential code.
- **The pipe between two processes** (`PipeHandoff`). `oc create` feeds `oc apply`: two children, two kernel
  pipes, two copying goroutines, a synchronous `io.Pipe`, and a main goroutine with a fixed order of waiting and
  closing, as one step machine.
- **The benchmark workflow** (`BenchmarkRun`, `PodListings`). Poll loop, log collection and cleanup over a cluster whose
  failures, listings, logs and leftovers of failed writes are inputs, and which records every attempt.
- **Text pipelines** (`Text`, `Lists`, `Resources`). Splitting, fields and trimming, the parsers built on them,
  and the set-based disk filter.
- **Decimal text, the OSD purge gate and durations** (`Decimal`, `PurgeGate`, `Durations`).
- **The NooBaa health check** (`Health`), **the Globalnet decision** (`Globalnet`), **CRD names** (`CrdNames`)
  and **the developer preview rewrite** of a command tree in the heap (`DevPreview`).

What comes from outside (server replies, other clients, failures, listings, file contents, the user's answer, the
clock) is an input of the model; nothing is assumed about it beyond what is stated with each result.

`dafny verify dfyconfig.toml` checks the whole project.

## Results worth reading first

1. `InstallProtocol.SomeInstallerCompletes`: however many installers race, one completes and all CRDs are in place,
   unless calls were lost. That fails once others may write or delete the CRDs: in `ADeleteCanStopEveryone` one
   delete stops the only installer. `SomebodyCompletesExactly` says for every run, deletes included, who completes:
   an installer does if and only if at each CRD its calls were answered and the CRD either was absent at the
   Create, or was still there at the Get and not written between Get and Update (`CrdGuarantees.Applies`).
   `RunsAreBounded` shows that every race ends.
2. `InstallProtocol.UpdateAmongOthers`: an update goes through if and only if nobody wrote the object since it was
   read, deleting and creating it again included. It rests on `CrdStore.VersionTellsWrites`, and on
   `InterleavingIsSolo`, which carries statements about the sequential code over to any interleaving;
   `ReadAndUpdateAmongOthers` states it as one run from the start.
3. `PipeHandoff.MaximalRunsDeliver`: every run is bounded, never stuck, and ends with `apply` having read exactly
   what `create` wrote.
4. `PurgeGate.PurgeOsd` on top of `Decimal.AtoiExactly` and `Decimal.OnlyPlainIsPrinted`: comparing printed text with
   typed text identifies the OSD, and every other spelling of its number, 007 or +7, goes to the prompt.
5. `Globalnet.GlobalnetExactly`: the decision is true exactly when the two clusters share an address.

The functions that contracts are written in are fixed in turn by lemmas that name only literals and built-in
operations: `CrdStore.ServeExactly` and `CrdGuarantees.ApplySucceedsExactly` for the protocol, `Text.SplitFirst`,
`Text.FieldsTakeToken` and the like for texts, `Decimal.AtoiOfNextDigit` and the like for numbers, and the lemmas
named `...Exactly` or `...ByLine` elsewhere.

Two places where the code does less than its name suggests, stated exactly:

- `formatDuration` is the duration rounded half up to seconds exactly below 9223372036.5 seconds; from there on
  rounding saturates and one second less is shown (`Durations.ShownIsNearest`).
- The benchmark's log loop panics exactly when a line of the pod listing has no slash, which a blank listing always
  has, and then does not delete the DaemonSet (`BenchmarkRun.PanicsOnLineWithoutSlash`,
  `PodListings.BlankListings`). A blank status listing counts as complete. Runs that fail after applying the
  DaemonSet leave it behind, too: only finished runs try to delete it (`BenchmarkRun.OnlyFinishedRunsDelete`).

## Model

| member | source | states |
|---|---|---|
| CrdStore.ReplayKeepsVersions | pkg/noobaa/crds.go:71-85 | whatever requests are served, no object carries a version newer than the clock and the clock never runs back |
| CrdStore.ServeExactly | pkg/noobaa/crds.go:71-85 | what is assumed of the server: Create refuses an existing object, Get, Update and Delete an absent one, Update a version that is not current; an accepted write stores the spec at a newer version |
| CrdStore.VersionTellsWrites | pkg/noobaa/crds.go:78-83 | after any requests an object carries the version read before exactly when none of them wrote or deleted it, and then it is the same object |
| CrdStore.StaleStaysStale | pkg/noobaa/crds.go:78-83 | once written, an object is gone or newer than all earlier versions for ever, so a version read before never becomes current again |
| CrdInstall.ApplyCRD | pkg/noobaa/crds.go:71-85 | for every behaviour of others and every failure, the code leaves the server and the unused turns as the one-request-at-a-time process does; its error is the reason of the first call that is lost, NotFound or Conflict when others deleted or wrote the CRD in time, and none in all other cases |
| CrdInstall.ApiServer.UpdateCRD | pkg/noobaa/crds.go:82-83 | an update carries the version stored in the object; one that carries none is refused and changes nothing, which is why the version is copied before |
| CrdInstall.InstallCRDs | pkg/noobaa/crds.go:29-41 | the loop over the CRDs is the same process over the whole list and ends with the error of the CRD it stops at; no error exactly when every CRD in turn goes through; the CRDs reported as installed are those before the stop, in order |
| CrdProcess.SoloByCrd | pkg/noobaa/crds.go:29-41 | the process over a list is the process over its CRDs one after the other until one fails |
| CrdInstall.UninstallCRDs | pkg/noobaa/crds.go:43-55 | deletes in order, passes over names that are not there, stops at any other error; final store, unused turns and error |
| CrdGuarantees.NoSilentOverwrite | pkg/noobaa/crds.go:78-84 | if anyone wrote the CRD between Get and Update, the update fails and leaves the store as the others left it; if nobody did, it replaces exactly this object with the given spec at a newer version |
| CrdGuarantees.SuccessMeansApplied | pkg/noobaa/crds.go:71-85 | when applying reports success, the store held exactly the given spec under the CRD's name right after the last call, whatever others did before |
| CrdGuarantees.CallTouchesOnlyItsCrd | pkg/noobaa/crds.go:71-85 | no call of the installer changes an object other than the CRD it is working on |
| CrdGuarantees.ApplySucceedsExactly | pkg/noobaa/crds.go:71-85 | the outcome in every case, lost calls included: applying succeeds if and only if its calls were answered and the CRD was absent at the Create, or still there at the Get and not written between Get and Update; with the store it leaves, and otherwise the error: the reason of the lost call, NotFound or Conflict |
| CrdGuarantees.LostCallMayLand | pkg/noobaa/crds.go:71-85 | a call that is lost stops the installer with its reason, and has changed the server exactly if the request arrived |
| CrdGuarantees.InstallGoesOn | pkg/noobaa/crds.go:29-41 | a list goes on with the next CRD when one went through, and stops with its error at the first that did not |
| CrdGuarantees.InstallSucceedsExactly | pkg/noobaa/crds.go:29-41 | installing a list succeeds if and only if each CRD in turn meets that condition |
| CrdGuarantees.UndisturbedInstall | pkg/noobaa/crds.go:29-41 | with nobody else writing: success puts every CRD in place; a stop at one CRD was a lost call, with all before it in place and it written or untouched; without lost calls it succeeds |
| CrdGuarantees.InstallIsIdempotent | pkg/noobaa/crds.go:29-41 | installing twice gives the same specs as installing once |
| CrdGuarantees.UndisturbedRemoval | pkg/noobaa/crds.go:43-55 | from any subset of the names present, removal deletes all of them and nothing else, or was stopped by a lost call with a prefix gone; without lost calls it succeeds |
| CrdGuarantees.RemovalDeletes | pkg/noobaa/crds.go:43-55 | whatever others do, one delete leaves the name absent, there or not before, and removal goes on; a lost one stops it and may have arrived |
| CrdGuarantees.RemovalFailsExactly | pkg/noobaa/crds.go:43-55 | removal fails exactly when a delete is lost, with the reason of the first lost one |
| CrdGuarantees.UninstallUndoesInstall | pkg/noobaa/crds.go:19-55 | uninstall after install leaves exactly the objects there were before the install less the two embedded CRDs, each with the same spec and version |
| InstallProtocol.SomeInstallerCompletes | pkg/noobaa/crds.go:29-41 | any number of installers, any interleaving, any initial store, outsiders that leave the listed CRDs alone: once all have stopped, one has completed and every CRD is in place, or one was stopped by a lost call; without lost calls one has completed |
| InstallProtocol.EmbeddedInstallCompletes | pkg/noobaa/crds.go:19-41 | for the two embedded CRDs and no fault but AlreadyExists or Conflict: one installer has completed and the store holds both embedded specs |
| InstallProtocol.OthersKept | pkg/noobaa/crds.go:29-41 | racing installers change no object but the CRDs of the list, whatever calls are lost |
| InstallProtocol.InvariantStep | pkg/noobaa/crds.go:71-85 | every event keeps: unless a call was lost, who failed on a CRD, or holds a stale version of it, was overtaken by an installer that put it in place |
| InstallProtocol.ADeleteCanStopEveryone | pkg/noobaa/crds.go:43-55 | a concrete run: one delete between Create and Get, and the only installer fails with the CRD absent |
| InstallProtocol.SomebodyCompletesExactly | pkg/noobaa/crds.go:29-41 | any interleaving and any requests of outsiders, deletes included: an installer has completed if and only if each of its CRDs met the condition of ApplySucceedsExactly in what the installer went through, so somebody has if and only if that holds for someone |
| InstallProtocol.RunsAreBounded | pkg/noobaa/crds.go:71-85 | whatever outsiders do in between, a run has no more installer calls than there was work at its start, and one with that many has stopped everybody |
| InstallProtocol.FreshWork | pkg/noobaa/crds.go:71-85 | that work is three calls for each CRD and installer |
| InstallProtocol.InterleavingIsSolo | pkg/noobaa/crds.go:71-85 | every interleaving with other installers and outsiders, seen by one installer, is a run of the sequential code: same position, same store, same continuations |
| InstallProtocol.UpdateAmongOthers | pkg/noobaa/crds.go:78-84 | in any interleaving, the update after a read succeeds exactly when no request of any other installer or outsider in between wrote the CRD, and otherwise fails and changes nothing |
| InstallProtocol.ReadAndUpdateAmongOthers | pkg/noobaa/crds.go:78-84 | the same for a run from the start that holds the read as one of its events; the read fails exactly when the CRD is not there |
| InstallProtocol.RunKeepsVersions | pkg/noobaa/crds.go:71-85 | no run brings a version back: objects stay at or below the clock, and the clock never runs back |
| PipeHandoff.InvariantStep | pkg/benchmark/benchmark_run.go:20-41 | every event keeps the invariant: nothing lost, duplicated or reordered, and each end is reached only after everything before it |
| PipeHandoff.MainFollowsProgram | pkg/benchmark/benchmark_run.go:27-41 | the main goroutine starts both children, waits for the first and its copier, closes the writer, waits for the second and its copier, and closes the reader, in this order; nothing else closes the writer |
| PipeHandoff.AppliedIsPrefix | pkg/benchmark/benchmark_run.go:23-41 | in every reachable state `apply` has read a prefix of what `create` writes, and all of it once it sees the end or main has finished |
| PipeHandoff.NeverStuck | pkg/benchmark/benchmark_run.go:27-41 | for any positive pipe and buffer sizes no reachable unfinished state is stuck |
| PipeHandoff.EveryEventProgresses | pkg/benchmark/benchmark_run.go:27-41 | every event moves bytes forward, or moves none and settles one control step for good |
| PipeHandoff.MaximalRunsDeliver | pkg/benchmark/benchmark_run.go:27-41 | a run has at most five events per byte and eleven more, and one that cannot go on has finished with exactly the output delivered |
| BenchmarkRun.WaitForPods | pkg/benchmark/benchmark_run.go:48-70 | over any stream of listings the loop stops at the first snapshot that is complete or cannot be taken, and stops if there is one |
| BenchmarkRun.PollingStopsAt | pkg/benchmark/benchmark_run.go:48-70 | among the polls up to the last, exactly the last one fails or shows a listing in which every line of at least three fields has Completed or Succeeded in the third |
| PodListings.AllPodsDone | pkg/benchmark/benchmark_run.go:55-63 | the flag with its early break says that every line of more than two fields shows Completed or Succeeded |
| PodListings.CompleteOfPrinted | pkg/benchmark/benchmark_run.go:55-63 | a printed status listing is complete exactly when every row of at least three cells has Completed or Succeeded in the third, whatever the spacing; trimming the whole text changes nothing |
| PodListings.CompleteExactly | pkg/benchmark/benchmark_run.go:55-63 | for any text: complete exactly when every line of at least three fields has Completed or Succeeded in the third |
| PodListings.PodNameOfListed | pkg/benchmark/benchmark_run.go:83 | from `kind/name`, or `kind/name/more`, the log loop takes the name |
| PodListings.LinesOfListing | pkg/benchmark/benchmark_run.go:82 | for any text: its lines are those between the first and the last character that is not white space |
| PodListings.PodsOfListing | pkg/benchmark/benchmark_run.go:82-83 | a printed name listing gives its lines in order, each with its name, with or without a final line break and with any white space around it |
| BenchmarkRun.CollectLogs | pkg/benchmark/benchmark_run.go:82-94 | attempts, outcomes and files for every pod up to the first line without a slash; a failed write leaves any text in the file or does not touch it |
| BenchmarkRun.RunBenchmarkWorkflow | pkg/benchmark/benchmark_run.go:15-104 | every run ends in one of three ways: failed at the first failing setup attempt with nothing attempted after it, finished, or panicked at a line without a slash; with trace, report and files of each |
| BenchmarkRun.RunsFollowThePlan | pkg/benchmark/benchmark_run.go:19-80 | every run attempts, in order, the four steps of the handover, applying the DaemonSet, the polls, listing the pods and making the directory; a failed run ends with the first attempt that fails and its error, and saves nothing |
| BenchmarkRun.LogsInOrder | pkg/benchmark/benchmark_run.go:82-103 | after that come only fetches and writes, each write right after the fetch of the same pod, pods in the order of the listing, and at the very end the deletion, if any |
| BenchmarkRun.FinishedRunHandlesEveryPod | pkg/benchmark/benchmark_run.go:82-103 | a run that reaches the logs fetched every log before the line it panics at exactly once and no other, tried to write exactly those fetched, reported for each pod whether its fetch failed, its write failed or it was saved, and if it finished attempted the deletion exactly once, last |
| BenchmarkRun.PanicsOnLineWithoutSlash | pkg/benchmark/benchmark_run.go:82-83 | a run that reaches the logs panics exactly when some line has no slash, at the first such line, and then never deletes |
| BenchmarkRun.ListedPodsAreHandled | pkg/benchmark/benchmark_run.go:82-103 | on a printed name listing, with or without a final line break and with any white space around it, a run that reaches the logs finishes, and the pods handled are exactly the listed ones in order, each under its name |
| BenchmarkRun.OnlyFinishedRunsDelete | pkg/benchmark/benchmark_run.go:15-104 | the deletion is attempted in finished runs and in no others |
| PodListings.BlankListings | pkg/benchmark/benchmark_run.go:55-63 | a blank listing counts as complete and splits into one line without a slash |
| BenchmarkRun.SavedLogsKept | pkg/benchmark/benchmark_run.go:82-94 | in `benchmark-logs/<name>.log` is, at the end, the log of the pod, or what its failed write left, unless a later line of the same name wrote the file again |
| BenchmarkRun.OtherFilesKept | pkg/benchmark/benchmark_run.go:82-94 | every file that no pod wrote is as before, absent ones included |
| Text.JoinOfSplit | pkg/benchmark/resources.go:103 | splitting at a character loses nothing and leaves the character in no piece |
| Text.SplitOfJoin | pkg/benchmark/resources.go:103 | joining any lines without the separator and splitting gives them back |
| Text.SplitFirst | pkg/benchmark/resources.go:103 | a piece without the separator and a separator in front of any text are split off as the first piece |
| Text.SplitWhole | pkg/benchmark/resources.go:103 | a text without the separator is one piece; with the row before, this fixes splitting on every text |
| Text.SpacesExactly | pkg/benchmark/resources.go:106 | white space is the six ASCII characters of Go's packages |
| Text.FieldsOfLine | pkg/benchmark/resources.go:106 | the fields of a printed line are its tokens, whatever the spacing |
| Text.FieldsSkipSpace | pkg/benchmark/resources.go:106 | white space in front of any text gives no field |
| Text.FieldsTakeToken | pkg/benchmark/resources.go:106 | a token at the start of any text, up to white space or the end, is the first field; with the row before, this fixes the fields of every text |
| Text.TrimOfPadded | pkg/benchmark/resources.go:133 | trimming a padded text gives back the text |
| Text.TrimSuffixExactly | pkg/benchmark/resources.go:158 | one trailing occurrence is taken off, and only if there is one |
| Lists.SelectIsSubsequence | pkg/benchmark/resources.go:164-178 | what a filter keeps are elements at increasing positions, all satisfying its condition |
| Lists.SelectIsComplete | pkg/benchmark/resources.go:164-178 | a filter keeps every element that satisfies its condition |
| Resources.ParseNicLines | pkg/benchmark/resources.go:151-162 | the loop collects the second fields, without one trailing colon, of the lines with more than one field |
| Resources.NicsByLine | pkg/benchmark/resources.go:151-162 | for any text, line by line: the second field, if there is one, without one colon at its end |
| Resources.NicRoundTrip | pkg/benchmark/resources.go:151-162 | rendering any non-empty, space-free names as `index: name: rest` lines with any spacing, some perhaps without the second colon or without a second field, and parsing gives the names in order, those ending in a colon included, with or without the final line break and for the empty listing; the filter then leaves exactly the physical ones |
| Resources.FilterPhysicalInterfaces | pkg/benchmark/resources.go:164-178 | the names kept are those at most 15 bytes long with none of the listed prefixes |
| Resources.IsPhysicalByCases | pkg/benchmark/resources.go:164-178 | the prefixes lo, br-, ovs-, ovn- and genev_sys, and more than 15 bytes, are what is excluded |
| Resources.GetNodeNics | pkg/benchmark/resources.go:141-149 | for any output: the physical names among those parsed, in order and with repetitions |
| Resources.ParseMountedDisks | pkg/benchmark/resources.go:102-112 | the test for an empty second field never matters: first fields of the lines with at least two fields |
| Resources.MountedByLine | pkg/benchmark/resources.go:102-112 | for any text, line by line: the first field of a line that has a second one |
| Resources.ParseLines | pkg/benchmark/resources.go:129-139 | the non-blank lines, trimmed |
| Resources.NonBlankByLine | pkg/benchmark/resources.go:129-139 | for any text, line by line: the trimmed line, unless nothing is left of it |
| Resources.FilterUnmountedDisks | pkg/benchmark/resources.go:114-127 | the map filled in place decides membership in the list: exactly the disks not among the mounted ones, in order |
| Resources.GetNodeDisks | pkg/benchmark/resources.go:75-100 | the disks of the first listing that the second does not show as mounted |
| Resources.NameRoundTrip | pkg/benchmark/resources.go:129-139 | parsing a printed name listing gives back its names |
| Resources.MountRoundTrip | pkg/benchmark/resources.go:102-112 | parsed as mounted are the first cells of the printed lines with at least two cells, in order |
| Resources.DiskPipelineRefines | pkg/benchmark/resources.go:75-139 | on all printed listings the text pipeline gives, in order and with multiplicity, the named disks that the second listing does not show as mounted |
| Resources.DisksConserved | pkg/benchmark/resources.go:114-127 | for any texts, reported and dropped disks together are the parsed disks as multisets |
| Decimal.AtoiOfPrint | pkg/rook/osd/osd.go:63 | printing any 64-bit integer and parsing the text gives it back |
| Decimal.AtoiExactly | cmd/odf/purgeosd/purge_osd.go:48-53 | a text is accepted for a number exactly when the number has 64 bits and the text is a fitting sign or none, any zeros, and the plain digits of the number |
| Decimal.AtoiOfOneDigit | cmd/odf/purgeosd/purge_osd.go:48-53 | each of the ten digits is accepted for its value |
| Decimal.AtoiOfNextDigit | cmd/odf/purgeosd/purge_osd.go:48-53 | a digit behind an accepted text makes ten times the number and the digit, and is refused exactly if that has more than 64 bits |
| Decimal.AtoiOfSign | cmd/odf/purgeosd/purge_osd.go:48-53 | a plus sign in front of an unsigned text changes nothing, a minus sign negates it |
| Decimal.AtoiOfFront | cmd/odf/purgeosd/purge_osd.go:48-53 | what is accepted stays accepted without its last digit |
| Decimal.AtoiNeedsDigits | cmd/odf/purgeosd/purge_osd.go:48-53 | after an optional sign come one or more digits and nothing else; with the rows before, this fixes parsing on every text |
| Decimal.OnlyPlainIsPrinted | cmd/odf/purgeosd/purge_osd.go:48-56 | among the spellings accepted for a number, its printed form is the one that is 0, or begins with a digit other than zero, perhaps behind a minus sign |
| PurgeGate.GateIdentifiesOsd | pkg/rook/osd/osd.go:52-67 | for a valid argument the comparison succeeds exactly when it spells the first safe id in ceph's reply, without a plus sign or superfluous zeros |
| PurgeGate.GatePassesOneArgument | pkg/rook/osd/osd.go:63-66 | one reply never lets two different arguments pass, and two plain spellings never name the same OSD |
| PurgeGate.PurgeOsd | cmd/odf/purgeosd/purge_osd.go:22-56 | when each outcome happens, both ways: invalid id exactly for texts that spell no 64-bit integer; unforced purge exactly for the plain spelling of the first safe id; for every other spelling, leading zeros and plus signs included, a forced purge after the confirmation and cancelled without it; the branch for a safe result with an error is never taken |
| Durations.ShownIsRounded | pkg/health/noobaa.go:146-149 | minutes and seconds shown are the rounded duration, with fewer than sixty seconds |
| Durations.FormatExactly | pkg/health/noobaa.go:146-154 | the text of every non-negative duration: whole seconds, halves rounded up and capped at 9223372036, as minutes and seconds from one minute on and as seconds below |
| Durations.FormatOfNegative | pkg/health/noobaa.go:146-154 | of a negative duration only the seconds within the minute are shown, with a minus sign if there are any |
| Durations.FloatsAgree | pkg/health/noobaa.go:146-149 | the way through floating point, rounded at every step, gives the same minutes and seconds as whole-number division |
| Durations.ShownIsNearest | pkg/health/noobaa.go:146-149 | the total shown is the duration rounded half up to seconds and within half a second of it, exactly below the point of saturation; above it one second less |
| Durations.ShownIsMonotone | pkg/health/noobaa.go:146-154 | a longer duration never shows less |
| Durations.FormatRoundTrip | pkg/health/noobaa.go:146-154 | reading the printed text gives the total shown |
| Durations.FiveMinutesShow | pkg/health/noobaa.go:62-69 | from five minutes on the text reads as at least 300 seconds |
| Health.IsContainerCrashLooping | pkg/health/noobaa.go:137-144 | finds whether any container is crash looping and names the first one |
| Health.Check | pkg/health/noobaa.go:39-113 | message, status and items in every case, in terms of the phase, its age and the pods when these are listed; one line for the phase and one for each pod in order |
| Health.OverallIsMaximum | pkg/health/noobaa.go:92-110 | the status is at least the phase's and every pod's, and equal to one of them |
| Health.OverallIgnoresOrder | pkg/health/noobaa.go:92-110 | lists with the same pods in any order give the same status |
| Health.OverallNeverFalls | pkg/health/noobaa.go:92-110 | more pods never improve the status |
| Health.CriticalExactly | pkg/health/noobaa.go:70-110 | critical exactly for a rejected phase, a crash-looping pod or a pending pod |
| Health.WarningExactly | pkg/health/noobaa.go:58-110 | a warning exactly when not critical and the phase is Creating, Connecting, Configuring or Verifying for five minutes or more; otherwise OK |
| Health.PhaseLineExactly | pkg/health/noobaa.go:56-76 | the line for the phase in every case; it begins with [WARN] in exactly those cases |
| Health.PodLineExactly | pkg/health/noobaa.go:99-110 | the line for a pod: crash looping, with the first such container, comes before pending, and any other phase is shown as it is |
| Health.PhaseWarningShowsFiveMinutes | pkg/health/noobaa.go:62-69 | every warning line about a phase shows at least five minutes |
| Globalnet.BlockIsRange | pkg/odf/dr/dr.go:86-87 | a block of RFC 4632, section 3.1, is the range of addresses, as numbers, from its prefix followed by zeros to its prefix followed by ones |
| Globalnet.NumbersAreOrdered | pkg/odf/dr/dr.go:86-87 | addresses are ordered as numbers by the first bit in which they differ |
| Globalnet.OverlapIsSharing | pkg/odf/dr/dr.go:86-87 | comparing the bits of two blocks up to the shorter prefix length decides whether some address of the family begins with both prefixes |
| Globalnet.GlobalnetExactly | pkg/odf/dr/dr.go:69-93 | fails exactly for one cluster given twice or not found, with the error of the first of these; otherwise true exactly when some address begins with the prefix of a block of each cluster |
| Globalnet.GlobalnetIsSymmetric | pkg/odf/dr/dr.go:69-93 | swapping the clusters changes neither failing nor the answer |
| Globalnet.TestClusters | pkg/odf/dr/dr_test.go:40-97 | the three clusters of the repository's test give false, true and false |
| CrdNames.ParseOfRender | cmd/odf/restore/crds.go:38-51 | every dot-free resource joined to a supported group is parsed back, with the group's version |
| CrdNames.RenderOfParse | cmd/odf/restore/crds.go:38-51 | whatever is accepted is such a pair and joins back to the input |
| CrdNames.NamesAreUnambiguous | cmd/odf/restore/crds.go:16-51 | accepted exactly if some pair joins to the text, and no two pairs join to the same text, although groups contain dots |
| CrdNames.ParseExactly | cmd/odf/restore/crds.go:16-51 | the answer for every text: by what stands before and after its first dot, the version of each of the six groups, and the two errors |
| DevPreview.AmendDescriptions | cmd/odf/devpreview/devpreview.go:33-48 | in place, on any finite tree of distinct commands: terminates, amends both descriptions of every command exactly once, changes nothing else |
| DevPreview.TreeIsEverythingBelow | cmd/odf/devpreview/devpreview.go:45-47 | the tree that is amended is the command, its children, theirs, and nothing else |
| DevPreview.Configure | cmd/odf/devpreview/devpreview.go:28-31 | the same, hiding the given command only and keeping the shape of the tree |
| DevPreview.AmendedKeepsText | cmd/odf/devpreview/devpreview.go:36-43 | the amended long text is the old one, or the amended short one, with its final line breaks replaced by one and the note; what it keeps of the old text is unique |
| DevPreview.NoticeOfPackage | cmd/odf/devpreview/devpreview.go:9-23 | which text is the suffix and which the note |

## Left out

- API server internals: finalizers, validation, admission, and updates that change nothing (which a real server answers without a new version). Every accepted write here takes a version newer than all before.
- Loading the embedded CRD files: their specs are inputs, and reading and YAML errors are not modelled.
- Process failures in the pipe: failing children and an `apply` that stops reading early. In `BenchmarkRun` the handover is four attempts that may fail.
- BenchmarkRun.RunBenchmarkWorkflow: starts from an empty trace and asks that some poll is complete or fails; otherwise the source polls for ever. Sleeping, file permissions and the words put in front of an error are not modelled.
- The command runs behind `getNodeDisks` and `getNodeNics`, their errors, and the JSON file: the outputs are inputs. That a disk with a mounted partition is excluded is not claimed; the code compares whole names.
- White space and letters outside ASCII: texts have one character per byte.
- Health.Check: category, name and clock are not modelled; the age is an input. A failed listing of the resources is the case `NotFound`, as in the source. `StatusError` is kept apart, as its order among the other statuses is defined in a library.
- Durations.FloatsAgree: binary64 arithmetic is any rounding with the three properties of `Binary64`, and Go's `Minutes` and `Seconds` are written out from what their library does.
- Durations.FormatOfNegative: the way through floating point is proved exact for non-negative durations only (`FloatsAgree`).
- Globalnet.GlobalnetExactly: blocks are values of 32 or 128 bits and a prefix length; parsing their text is not modelled, and `OverlappingSubnets` of the submariner library is stated as what it decides. Its error on malformed text would also read as true.
- The names of the NooBaa phases and the confirmation check are defined in libraries; the names are those of the constants used, the check is any predicate. The order in which a command lists its children is not modelled.
- The remaining commands, flags, prompts, logging, client construction, and the restore of deleted resources.
