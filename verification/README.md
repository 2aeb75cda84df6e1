# gogoo core in Dafny

A model of the pure core of gogoo, a Go toolkit over Google Cloud services.
It covers the Compute Engine manager's helpers in `gce/gcemanager.go`:
latest-snapshot selection, the tag attacher and detacher, the snapshot and
machine-type URL helpers, the three readiness probes, and the
mutate-then-wait operations NewVm, NewDisk, StopVm and StartVm. It also
covers the `utility` package's string-slice membership, qualified-item
filter, last split piece, IPv4 range check, and the confirm and retry
primitives as pinned down by their test.

Modules, one per concern:

- `Base`: `Option`, `Result` and `Completion`. `Completion` is `Blocked`
  when a caller waits on a channel that never receives a value.
- `Lex`: the lexicographic order of `bytes.Compare` on sequences of integers.
- `GoStrings`: Go's `strings.Index`, `Contains`, `Split` and `Join`, and
  Go's string order. Strings are compared by code point, which is the same
  as the UTF-8 byte order Go uses.
- `CollectionUtility`, `StringUtility`, `IpUtility`, `FlowUtility`: the
  `utility` package.
- `GceTypes`: snapshots, disks, operations and errors, reduced to the fields
  the core reads.
- `GceSnapshots`, `GceTags`, `GcePaths`: the pure helpers of the manager.
- `GceProbe`: the probe loop. It runs over a finite trace of ticks. Each tick
  holds the elapsed time in nanoseconds at the top of an iteration and what
  that iteration's read would return.
- `GceOrchestration`: NewVm, NewDisk, StopVm and StartVm. API outcomes and
  checker results are inputs.

Remote API calls are inputs: `Result`/`Option` values for their outcome. A
call that blocks on a probe or checker that never answers yields `Blocked`.

## Model

| member | source | states |
|---|---|---|
| CollectionUtility.InStringSlice | utility/collection_utility.go:9-17 | true exactly when some element of the slice equals `src`; so false on an empty slice |
| CollectionUtility.GetQualifiedItems | utility/collection_utility.go:19-32 | the count equals the number of items returned and never exceeds the source length; the items are the source items the qualifier accepts, in source order (the reference `Filter`) |
| CollectionUtility.FilterCounts | utility/collection_utility.go:24-29 | the filtered items are a sub-multiset of the source: each accepted value occurs as often as in the source, each rejected value not at all |
| CollectionUtility.FilterMembership | utility/collection_utility.go:24-29 | an item is among the filtered ones exactly when it is in the source and accepted |
| CollectionUtility.FilterAppend | utility/collection_utility.go:24-29 | filtering a concatenation filters each part and keeps them in order, which is what appending one item per iteration relies on |
| StringUtility.GetLastSplit | utility/string_utility.go:7-10 | with a non-empty separator the result never contains it; it is `src` when the separator is absent; otherwise `src` ends with the separator followed by the result; with an empty separator it is the last character; only `("", "")`, where Go indexes an empty slice, is excluded |
| StringUtility.LastSplitOfSpliced | utility/string_utility.go:7-10 | for a one-character separator, whatever follows the final separator is returned, whatever precedes it |
| StringUtility.MachineTypeUrlExample | utility/string_utility_test.go:10-12 | the test's machine-type URL yields `n1-highcpu-4` |
| GoStrings.Contains | gce/gcemanager.go:383 | strings.Contains is true for an empty substring and only when the substring is no longer than the string; ContainsOccurs gives the exact condition |
| GoStrings.Split | gce/gcemanager.go:552 | strings.Split with a non-empty separator yields at least one piece, so taking the last piece never indexes an empty slice |
| GoStrings.Join | gce/gcemanager.go:560 | strings.Join starts with its first part; JoinSplit and SplitJoin relate it to Split |
| GoStrings.Index | gce/gcemanager.go:383 | strings.Index: -1 or the position of an occurrence |
| GoStrings.IndexFirst | gce/gcemanager.go:383 | no occurrence lies before the position Index returns, and none at all when it returns -1 |
| GoStrings.ContainsOccurs | gce/gcemanager.go:383 | strings.Contains holds exactly when the substring occurs at some position, anywhere in the string |
| GoStrings.JoinSplit | gce/gcemanager.go:558-560 | joining the pieces of a split with the same non-empty separator gives back the original string |
| GoStrings.SplitJoin | gce/gcemanager.go:558-560 | splitting a join with a one-character separator absent from every part gives back the parts |
| GoStrings.SplitPartsFree | utility/string_utility.go:8-9 | no piece of a split contains the separator |
| GoStrings.SplitSingle | utility/string_utility.go:8-9 | a split yields one piece exactly when the separator does not occur |
| Lex.Compare | utility/ip_utility.go:18 | bytes.Compare yields -1, 0 or 1, and 0 exactly when the two byte sequences are equal |
| Lex.CompareMatchesPrecedes | utility/ip_utility.go:18 | bytes.Compare is -1, 0 or 1 as the first sequence precedes, equals or follows the second in lexicographic order, a proper prefix preceding its extensions |
| IpUtility.To4 | utility/ip_utility.go:12 | net.IP.To4 yields a 4-byte address exactly for 4-byte input and for the 16-byte IPv4-mapped form, and then it is the last four bytes |
| IpUtility.CheckIPInRange | utility/ip_utility.go:9-26 | false when the parse failed or To4 is nil; otherwise true exactly when the parsed form is neither before `start` nor after `end` in byte order, both bounds included |
| IpUtility.EmptyRangeRejectsAll | utility/ip_utility.go:18-25 | when `end` sorts before `start`, no input is in range |
| IpUtility.BoundsIncluded | utility/ip_utility.go:18-20 | each IPv4 bound of a non-empty range is inside it |
| IpUtility.MixedFormsExample | utility/ip_utility.go:11-18 | the comparison uses the parsed form: the 16-byte form of 10.0.0.5 is not inside 10.0.0.0 to 10.0.0.255 given in 4-byte form, though its 4-byte form is |
| FlowUtility.MultipleConfirm | utility/flow_utility_test.go:10-27 | true exactly when all of the first `n` answers are true; then the callback ran `n` times; otherwise it stopped at the first false answer |
| FlowUtility.RunUntilSuccess | utility/flow_utility_test.go:30-58 | true exactly when one of the first `n` answers is true; it stops at the first success; on failure it ran `n` times |
| FlowUtility.ConfirmRetryDual | utility/flow_utility_test.go:10-58 | confirming a predicate fails exactly when retrying its negation succeeds, after the same number of calls |
| FlowUtility.ConfirmAlwaysTrue | utility/flow_utility_test.go:11-21 | an always-true predicate is confirmed after exactly three calls |
| FlowUtility.ConfirmAlwaysFalse | utility/flow_utility_test.go:24-27 | an always-false predicate is not confirmed |
| FlowUtility.RetryLateSuccess | utility/flow_utility_test.go:33-44 | a callback that succeeds only after its fifth call fails within three attempts |
| FlowUtility.RetryThirdCallSuccess | utility/flow_utility_test.go:47-58 | a callback that first succeeds on its third call succeeds within three attempts |
| GceSnapshots.SortedIffNoInversion | gce/gcemanager.go:57 | a sequence is ordered by name exactly when no later snapshot is Less than an earlier one, which is what sort.Sort guarantees for BySnapshotName |
| GoStrings.AtMostIffNotLess | gce/gcemanager.go:57 | one name sorts no later than another exactly when the other is not `<` it |
| StringUtility.LastPieceSpec | utility/string_utility.go:7-10 | the last piece of a split is free of the separator, is the whole string when the separator is absent, and otherwise follows the final separator |
| GceSnapshots.SortByName | gce/gcemanager.go:53-57 | sorting by BySnapshotName yields a permutation of its input ordered by name |
| GceSnapshots.InsertByNameSorted | gce/gcemanager.go:53-57 | inserting a snapshot into a name-ordered sequence keeps it ordered |
| GceSnapshots.Matching | gce/gcemanager.go:381-386 | the kept snapshots are exactly those whose name contains the prefix anywhere |
| GceSnapshots.GetLatestSnapshot | gce/gcemanager.go:380-398 | an error, and only NoSnapshotFound, exactly when no name contains the prefix; otherwise a matching input snapshot whose name is at least every matching name |
| GceSnapshots.LatestSnapshotExample | gce/gcemanager_test.go:135-148 | with the test's three `zebra-rtc-alpha-snapshot-*` snapshots and prefix `alpha`, the one stamped 201503032021 is returned |
| GceTags.Attach | gce/gcemanager.go:324-329 | the existing tags, then every added tag in order, with no duplicates removed; the length is the sum of both lengths |
| GceTags.Detach | gce/gcemanager.go:338-347 | the detacher never lengthens the tag list and keeps it whole when nothing is to be removed; DetachContents and DetachAppend state what it keeps and in which order |
| GceTags.DetachContents | gce/gcemanager.go:338-347 | a tag is kept exactly when it is not in the removal list; a kept tag occurs as often as before, a removed one not at all |
| GceTags.DetachAppend | gce/gcemanager.go:338-347 | detaching from a concatenation detaches from each part in order, so kept tags keep their relative order |
| GceTags.DetachIdempotent | gce/gcemanager.go:338-347 | detaching twice gives the same tags as detaching once |
| GceTags.AttachKeepsDuplicates | gce/gcemanager.go:324-329 | attaching a tag that is already present duplicates it |
| GceTags.DetachRemovesAllOccurrences | gce/gcemanager.go:338-347 | every occurrence of a removed tag goes, the others stay |
| GceTags.AdjustTags | gce/gcemanager.go:301-318 | a failed GetVm is returned without calling SetTags; otherwise the generator's tag list is submitted and SetTags' operation or wrapped error returned |
| GceTags.AttachTags | gce/gcemanager.go:321-332 | a failed GetVm is returned as the error without calling SetTags; otherwise the submitted tags are the VM's tags followed by the added ones, so each added tag is found by InStringSlice, as the test asserts at gce/gcemanager_test.go:87, and SetTags' operation or its error is returned |
| GceTags.DetachTags | gce/gcemanager.go:335-350 | a failed GetVm is returned as the error without calling SetTags; otherwise the submitted list is the detacher's output, so no removed tag is found in it and every other existing tag is, as the test asserts at gce/gcemanager_test.go:203, and SetTags' operation or its error is returned |
| GcePaths.GetSnapshotOfDisk | gce/gcemanager.go:549-555 | the result has no `/`; it is the whole source snapshot when that has no `/`; otherwise the source ends with `/` and the result |
| GcePaths.SnapshotOfDiskExample | gce/gcemanager_test.go:113-126 | the test's disk, made from `global/snapshots/snapshot-test`, reports `snapshot-test` |
| GcePaths.PatchInstanceMachineType | gce/gcemanager.go:557-561 | the result is the machine type up to and including its last `/`, then the target; with a target free of `/` the result has as many segments, the same ones but the last, and the target last |
| GceProbe.Watch | gce/gcemanager.go:422-454 | the loop sends a value only at the first iteration that does not continue; false exactly when the elapsed time there is strictly over the timeout; true only on the target status; nothing when every iteration continues |
| GceProbe.DecidesUnique | gce/gcemanager.go:422-454 | at most one iteration ends the loop, so at most one value is sent |
| GceProbe.WatchReadyIff | gce/gcemanager.go:442-453 | true is sent exactly when the deciding iteration is within the deadline |
| GceProbe.WatchTimedOutIff | gce/gcemanager.go:426-431 | false is sent exactly when the deciding iteration is past the deadline |
| GceProbe.WatchStable | gce/gcemanager.go:422-454 | iterations after the one that sent a value are never looked at |
| GceProbe.ReadFailureKeepsPolling | gce/gcemanager.go:433-440 | a failed read within the deadline never ends the loop |
| GceProbe.ReadyAtTheDeadline | gce/gcemanager.go:426 | the deadline is strict: the target read at exactly the timeout still sends true |
| GceProbe.DeadlineForcesEmission | gce/gcemanager.go:426-431 | a trace that passes the deadline makes the probe send a value |
| GceProbe.ProbeVmRunning | gce/gcemanager.go:422-454 | nothing is sent exactly when every iteration of the trace is within 180 seconds without reading RUNNING; otherwise the first iteration that is past 180 seconds or reads RUNNING decides, sending false when it is past 180 seconds (the deadline is checked first) and true otherwise, on a RUNNING read |
| GceProbe.ProbeVmStopped | gce/gcemanager.go:457-489 | the same with status TERMINATED |
| GceProbe.ProbeDiskCreation | gce/gcemanager.go:492-522 | the same with status READY |
| GceProbe.DiskReadyOnThirdRead | gce/gcemanager.go:492-522 | two failed reads, then READY, sends true from the third iteration |
| GceOrchestration.AwaitProbe | gce/gcemanager.go:71-84 | an insert error is returned without waiting; otherwise nil exactly when the probe sends true, a timeout when it sends false, blocked when it sends nothing |
| GceOrchestration.NewVm | gce/gcemanager.go:68-85 | an insert error is returned; otherwise nil exactly when an iteration within 180 seconds first ends the loop reading RUNNING, a timeout exactly when the deadline ends it first |
| GceOrchestration.NewDisk | gce/gcemanager.go:211-235 | the same for the disk probe and status READY |
| GceOrchestration.MutateThenVerify | gce/gcemanager.go:114-127 | a request error is returned without consulting vcc; otherwise the operation when vcc passes, else no operation and vcc's error |
| GceOrchestration.StopVm | gce/gcemanager.go:114-127 | the Stop operation exactly when the request succeeded and vcc passed; a request error is returned without consulting vcc; after a successful request the call returns exactly when vcc does, and a failing vcc's error (possibly nil) is returned |
| GceOrchestration.StartVm | gce/gcemanager.go:153-166 | the same for Start |
| GceOrchestration.CheckerFailureWithoutError | gce/gcemanager.go:122-126 | a checker that fails with a nil error makes StopVm and StartVm return neither an operation nor an error |
| GceOrchestration.ProbeChecker | gce/gcemanager_test.go:151-160 | the test's checkers pass exactly when their probe sends true, and carry an error exactly when they fail |
| GceOrchestration.StopVmWithProbe | gce/gcemanager_test.go:150-162 | StopVm with the stopped-VM checker returns the operation exactly when TERMINATED is read within 180 seconds |
| GceOrchestration.StartVmWithProbe | gce/gcemanager_test.go:168-180 | StartVm with the running-VM checker returns the operation exactly when RUNNING is read within 180 seconds |

## Left out

- Remote Compute Engine calls (BuildGceService, Insert, Get, Delete, List,
  SetTags, Stop, Start, SetMachineType, Reset, AddInstances) are network
  calls; only their outcome enters the model, as an input.
- Real time, sleeps, goroutines and channels in the probes and in NewVm and
  NewDisk are replaced by a trace of ticks and a plain result. The sleep
  lengths between polls do not affect what is sent.
- Log calls and error message texts are not modelled. Errors are the
  constructors of `GceTypes.Error`.
- InitVmFromTemplate (text templates and JSON), GetNatIP and GetNetworkIP
  (field access on library structs) are not modelled.
- The other services (datastore, Cloud SQL, replica pool updater, Pub/Sub,
  storage, GCM), `main.go`, configuration loading, and the hashing, crypto,
  random and JSON helpers of the `utility` package are outside this model.
- net.ParseIP's textual parsing is not modelled; its result is an input.
- utility/flow_utility.go is not part of this model. Its test fixes only
  the four cases of the `FlowUtility` example lemmas; the rest of the two
  definitions is assumed, as listed below. The sleeping interval is not
  modelled. The callback is a function from call number to answer.
- FlowUtility.MultipleConfirm: assumed to stop calling at the first false
  answer, and to make exactly `n` calls when every answer is true; the test
  fixes the call count only for an always-true callback.
- FlowUtility.RunUntilSuccess: assumed to stop calling at the first true
  answer, and to make exactly `n` calls when every answer is false; the test
  does not observe the call count on failure.
- FlowUtility.MultipleConfirm and FlowUtility.RunUntilSuccess take `n` as a
  `nat`; a negative count in Go is not modelled.
- GceSnapshots.GetLatestSnapshot: Go's sort.Sort is not stable, so among
  snapshots sharing the greatest name the contract promises one of them,
  not which. The model sorts by insertion.
- GceSnapshots.GetLatestSnapshot: a nil entry in the snapshot slice would
  panic in Go; snapshots here are values.
- GcePaths.GetSnapshotOfDisk: a nil disk pointer would panic in Go; the
  model takes the disk as a value.
- GceTags.AdjustTags: a VM with nil Tags would panic in Go; the model takes
  the VM's tag items as a list.
- StringUtility.GetLastSplit: Go panics when both arguments are empty; the
  model excludes that call by precondition.
- GceOrchestration.ProbeChecker: the checkers' error messages are modelled
  as the single error `NotReady`.
- Strings are sequences of code points; Go strings are UTF-8 bytes. The
  order and the splitting on `/` agree for valid UTF-8 text.
