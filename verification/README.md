# Verified model of the node agent

A Dafny model of the parts of the agent where state, concurrency or arithmetic
decide whether it is right, with proofs. `dafny verify dfyconfig.toml` checks
everything.

| module | models | main results |
|---|---|---|
| `IDOrder`, `VMInfoSync`, `SyncFrames` | the VM inventory, its canonical listing, full and delta frames, the receiver's mirror | round trip, idempotence, minimal and unique deltas, exact condition for a delta to reach its target |
| `SyncProtocol` | the two sync loops, interleaved at every lock and send | drift and safety in every interleaving, and the exact condition safety needs |
| `SyncRuns` | runs of whole syncs with acknowledged, refused and applied-but-failed sends | exact drift per sync, healing, the log of acknowledged frames |
| `Scheduler` | the scheduler's methods on its three variables | each lock section is its step of the protocol, each method a whole sync of `SyncRuns` |
| `GRPCClient` | the retrying sink: a connection, three streams, five sends | handle bookkeeping, attempts, waits, delivery as if once |
| `Text`, `DomainConfig`, `Ledger`, `Admission`, `Controller` | decimal text, domain definitions, capacity sums, what an admission is worth, the four VM operations on a hypervisor that fails anywhere | define and read back, exactly when an admitted write keeps the ledger, the ledger over every run |
| `KeyedRuns`, `DeltaEngine`, `VMSamplers`, `CPUSnapshot` | counter and rate samplers | telescoping sums over whole histories, with the exact cases of equality |
| `Dmidecode`, `UUID` | the memory report parser, VM ids | parallel arrays equal the report's sections; ids are injective |

## Findings

* **Overlapping loops.** It is not true of every interleaving that the receiver
  holds what the agent believes. `SyncProtocol.OverlapWitness` gives a run from
  boot without a single failed send after which the agent believes `b` and the
  receiver holds `a`, until a full frame or a change to the same ids repairs it.
  The condition on a compute is exact: with no periodic sync in flight it may
  compute anything; between snapshot and delivery it must compute the snapshot
  again; between delivery and commit it must not change what the commit is going
  to record. `SyncProtocol.FreshnessExact` shows that a compute keeps every
  continuation consistent if and only if this holds. Computing nothing between a
  snapshot and its commit is a special case.
* **Failed but applied.** A send the receiver applied and the agent counts as
  failed leaves a quiescent agent wrong about the mirror
  (`SyncProtocol.AppliedFailureBreaks`). In every interleaving with fresh computes
  the mirror is wrong at most about the ids such frames put in doubt and no later
  frame cleared (`SyncProtocol.DriftFromBoot`). For whole syncs one after the other
  `SyncRuns.SyncOnceDrift` says exactly which ids are wrong, and
  `SyncRuns.HealedRun` that an acknowledged full frame repairs all of them.
* **Admission on wrapping sums.** Requests are added to what is used in 64 bits.
  A create or update that was admitted keeps the ledger within the node if and
  only if the true sums stay below 2^64 (`Admission.CreateExact`,
  `Admission.UpdateExact`); the amount stored can wrap around a second time, but
  that never saves it. `Admission.WrapAroundWitness` is a ledger and a valid
  request that is admitted and does not fit.
* **Admission on what could be read.** A domain whose configuration cannot be read
  at that moment is skipped, and so is one whose name differs from the updated one
  in white space only. Every admitted request that does not wrap around keeps the
  ledger if and only if the skipped domains hold nothing
  (`Admission.HiddenDomainsExact`); `Admission.HiddenDomainWitness` is a full node
  with one unread domain that admits another.
* **Rounding.** The ledger rounds each domain down to MiB. After an admitted create
  that hides at most 1023 KiB of each earlier domain
  (`Admission.AdmittedCreateFloor`), and a create that fills the node can meet the
  bound (`Ledger.FloorBoundTight`).
* **Node CPU percentages.** The total of a line of `/proc/stat` counts the fields
  after the eighth, the percentages do not. Total and idle therefore add up to 100
  only while those fields stand still (`CPUSnapshot.TotalPlusIdle`).
* **Counter differences.** A counter that restarts and overtakes its old value
  between two readings looks as if it had grown a little. What is accepted never
  exceeds what was counted, and is less exactly when a restart or a wrap-around, or
  a step without time, swallowed growth (`DeltaEngine.AcceptedAtMostTrue`).

## How the model is laid out

The receiver is not part of the repository. Its mirror takes the meaning the
protocol gives the sync modes: a full frame replaces, a delta upserts and then
removes. The transport (`GRPCClient.Network`) and libvirt (`Controller.Hypervisor`)
are environments whose methods choose their outcome freely within their contracts:
a unary call is refused, applied and then reported as failed, or acknowledged; a
hypervisor call that sets a value leaves the old or the new one whatever it
reports, and any single reading of a configuration may fail. Their ghost fields record what happened, refused calls included, so that the
methods above them can be held to it: a failure has to follow from one.

The Go maps are Dafny maps, and loops over them visit the keys in an arbitrary
order. `uint64` is a bounded type and every sum or product that can wrap around in
Go is written modulo 2^64. `float64` is `real`, and times are real seconds.

The documentation mentions a WebSocket sink besides gRPC, and
`proto/metrics.proto`; neither is in the code, and the model follows the code.

## Model

| member | source | states |
|---|---|---|
| VMInfoSync.BuildVMInfoMapFromLite | internal/model/vm_info_sync.go:30-52 | the map holds exactly the non-empty ids listed, each with the fields of its last metric and no disks or GPUs |
| VMInfoSync.BuildVMInfoMapFromRuntime | internal/model/vm_info_sync.go:54-76 | the same for runtime metrics, with the number of disks and the GPU count |
| VMInfoSync.InventoryOfList | internal/model/vm_info_sync.go:43-76 | that map is unique and files every entry under its own non-empty id; an entry with no later duplicate is kept |
| VMInfoSync.SortedVMInfosByID | internal/model/vm_info_sync.go:78-92 | for every iteration order the result is the one listing, strictly ascending by id with exactly the map's entries |
| VMInfoSync.ListingRoundTrip | internal/model/vm_info_sync.go:78-92 | rebuilding a map from its listing gives the map back if and only if every entry is filed under its own id |
| VMInfoSync.ApplyLookup | proto/vm/vm_info.proto:18-25 | what a receiver holds under each id after a frame: full replaces, delta upserts, then removes |
| VMInfoSync.ApplyIdempotent | proto/vm/vm_info.proto:18-25 | applying any frame twice is applying it once, on any mirror |
| VMInfoSync.ReplayCopies | internal/stream/grpc_client.go:348-400 | any positive number of copies of a frame amounts to one |
| IDOrder.SortedIDsUnique | internal/collector/scheduler.go:348-358 | an ascending list of a set of ids is unique, so the sort cannot show the iteration order |
| IDOrder.SortBy | internal/collector/scheduler.go:348-358 | a permutation, strictly ascending by key when keys are distinct |
| IDOrder.LessDecided | internal/collector/scheduler.go:348-350 | the first character on which two ids differ decides their order, and a proper prefix comes first |
| SyncFrames.FullFrameReplaces | internal/collector/scheduler.go:306-318 | a full frame takes every mirror to its inventory |
| SyncFrames.DeltaReachesCurrent | internal/collector/scheduler.go:341-363 | a delta from A to B takes a mirror to B if and only if the mirror already agrees with B wherever A does |
| SyncFrames.DeltaInterpolates | internal/collector/scheduler.go:341-363 | a mirror every id of which agrees with A or with B, absence included, ends as exactly B |
| SyncFrames.DeltaMinimal | internal/collector/scheduler.go:341-363 | every delta that takes A to B names all the ids this one names |
| SyncFrames.DeltaCanonical | internal/collector/scheduler.go:341-363 | upserts and removals strictly ascending, disjoint and nothing but the change; no other frame has this form |
| SyncFrames.NoFrameIffUnchanged | internal/collector/scheduler.go:337-363 | nothing is sent if and only if a frame was acknowledged and the maps are equal |
| SyncFrames.FrameForExact | internal/collector/scheduler.go:331-364 | a full frame marked as boot, ascending and complete, until one was acknowledged; then the canonical delta, or none if nothing changed |
| SyncFrames.AckedDeltaDrift | internal/collector/scheduler.go:284-292 | an acknowledged delta leaves exactly the disagreeing ids it does not name |
| SyncFrames.ErroredDeltaDrift | internal/collector/scheduler.go:284-286 | a delta applied but reported as failed adds exactly the ids it names to the disagreeing ones |
| SyncFrames.AckedFullDrift | internal/collector/scheduler.go:318-326 | an acknowledged full frame leaves no disagreement |
| SyncProtocol.StepKeepsWithin | internal/collector/scheduler.go:263-364 | every step of either loop with a fresh compute, failed sends applied or not, keeps the mirror right on all ids that the step does not leave in doubt |
| SyncProtocol.DriftRuns | internal/collector/scheduler.go:263-364 | so does every interleaving: with no sync in flight the mirror differs from the last acknowledged map only on ids put in doubt by applied failures and not cleared since |
| SyncProtocol.DriftFromBoot | internal/collector/scheduler.go:263-364 | in particular from boot, with nothing in doubt |
| SyncProtocol.StepKeepsInv | internal/collector/scheduler.go:263-364 | without applied failures a step leaves nothing in doubt |
| SyncProtocol.SafeRuns | internal/collector/scheduler.go:263-364 | in every interleaving with fresh computes and no applied failures the mirror equals the last acknowledged map whenever no sync is in flight |
| SyncProtocol.SafeFromBoot | internal/collector/scheduler.go:263-364 | in particular from boot, whatever the receiver held |
| SyncProtocol.StaleComputeBreaks | internal/collector/scheduler.go:297-329 | from a stale compute a run without failures of the receiver ends inconsistent |
| SyncProtocol.FreshnessExact | internal/collector/scheduler.go:263-364 | a compute keeps every continuation consistent if and only if it is fresh |
| SyncProtocol.OverlapWitness | internal/collector/scheduler.go:297-329 | from boot: runtime sync to a, snapshot of it, whole runtime sync to b, delivery and commit of the snapshot: last is b, mirror is a |
| SyncProtocol.AppliedFailureBreaks | internal/collector/scheduler.go:284-286 | an applied but failed runtime send always leaves a quiescent agent wrong about the mirror |
| SyncRuns.SyncOnceDrift | internal/collector/scheduler.go:263-329 | the exact set of disagreeing ids after one sync, for every outcome |
| SyncRuns.RunDrift | internal/collector/scheduler.go:263-329 | over any run from any mirror only frames applied but failed add disagreement |
| SyncRuns.HealedRun | internal/collector/scheduler.go:318-326 | after an acknowledged full frame the past no longer matters |
| SyncRuns.LogReplaysToLast | internal/collector/scheduler.go:288-292 | acknowledged frames start with a full one, no delta is sent before it, and replaying them onto any mirror yields the last acknowledged map |
| SyncRuns.RuntimeFrames | internal/collector/scheduler.go:331-364 | in any run, once a frame was acknowledged every runtime frame is a delta that mentions exactly the ids on which the last map and the new one differ |
| Scheduler.CloneVMInfoMap | internal/collector/scheduler.go:378-384 | a copy |
| Scheduler.CollectUpserts | internal/collector/scheduler.go:341-350 | for every iteration order, the upserts of the canonical delta |
| Scheduler.CollectRemoved | internal/collector/scheduler.go:352-358 | for every iteration order, the removals of the canonical delta |
| Scheduler.Scheduler.ComputeVMInfoDiff | internal/collector/scheduler.go:331-364 | records the map; when not yet synced answers full with all entries ascending; afterwards the canonical delta against the last map, and nothing exactly when they are equal; it is the compute step wherever the other loop stands |
| Scheduler.Scheduler.CommitRuntime | internal/collector/scheduler.go:288-292 | is the runtime commit step |
| Scheduler.Scheduler.TakeSnapshot | internal/collector/scheduler.go:298-308 | is the periodic snapshot step |
| Scheduler.Scheduler.CommitPeriodic | internal/collector/scheduler.go:322-327 | last becomes the latest map unless that is empty; it is the periodic commit step |
| Scheduler.Scheduler.SyncVMInfoFromMap | internal/collector/scheduler.go:263-294 | all that reaches the receiver is the full boot frame or the canonical runtime delta; last and synced change exactly on success, and a failure follows from a refused call; without interleaving it is one whole runtime sync of the protocol |
| Scheduler.Scheduler.SyncVMInfoPeriodic | internal/collector/scheduler.go:297-329 | all that reaches the receiver is the full listing of the latest map marked as periodic, nothing when it is empty; last changes exactly on success; without interleaving it is one whole periodic sync |
| Scheduler.Scheduler.CollectAndSendVM | internal/collector/scheduler.go:203-221 | syncs exactly the map of what was collected, once its metrics were accepted, and only when no runtime loop exists |
| Scheduler.Scheduler.CollectAndSendVMRuntime | internal/collector/scheduler.go:224-236 | the same for the runtime loop |
| GRPCClient.BackoffTotal | internal/stream/grpc_client.go:476-493 | k positive waits add up to backoff · k(k+1)/2, non-positive ones to k seconds |
| GRPCClient.BackoffsWaited | internal/stream/grpc_client.go:476-493 | the i-th wait of a send is i times a positive backoff, and a second otherwise |
| GRPCClient.WaitedTotal | internal/stream/grpc_client.go:476-493 | the waits one send asks for total at most backoff · n(n−1)/2 |
| GRPCClient.SoundCounts | internal/stream/grpc_client.go:129-190 | connections dialled equal those closed plus the live one, streams opened those half-closed plus the live ones, and no connection means no streams |
| GRPCClient.Client.ResetConn | internal/stream/grpc_client.go:457-474 | closes all that is open, each handle once |
| GRPCClient.Client.Close | internal/stream/grpc_client.go:129-151 | the same on shutdown |
| GRPCClient.Client.EnsureConn | internal/stream/grpc_client.go:153-190 | keeps an alive connection and its streams, replaces a shut one by a fresh one without streams |
| GRPCClient.Client.OpenStream | internal/stream/grpc_client.go:495-535 | opens one stream on the current connection or changes nothing |
| GRPCClient.Client.WaitRetry | internal/stream/grpc_client.go:476-493 | no wait after the last attempt, otherwise the attempt's multiple of the backoff; refuses only then or when interrupted |
| GRPCClient.Client.SendFrameWithRetry | internal/stream/grpc_client.go:192-346 | exactly maxRetries attempts, or one if that is not positive, unless one succeeds or a wait is interrupted; each failed attempt is one refused call; exactly one accepted message if and only if success; nothing open on failure |
| GRPCClient.Client.InvokeWithRetry | internal/stream/grpc_client.go:348-455 | the same number of attempts, each failed one a refused call; the frame lands any number of times up to the attempts, at least once on success, nothing else lands between, and the mirror is as after at most one application |
| GRPCClient.Client.SendNodeMetrics | internal/stream/grpc_client.go:85-90 | one accepted node message if and only if it reports success |
| GRPCClient.Client.SendVMMetrics | internal/stream/grpc_client.go:99-107 | the same for VM metrics; an empty list succeeds and sends nothing |
| GRPCClient.Client.SendVMRuntimeMetrics | internal/stream/grpc_client.go:109-120 | the same for runtime metrics, also without a configured method |
| GRPCClient.Client.SendNodeHardwareInfo | internal/stream/grpc_client.go:92-97 | acknowledged once if and only if it reports success, nothing but this payload lands, at most once an attempt, and the mirror is untouched |
| GRPCClient.Client.SendVMInfoSync | internal/stream/grpc_client.go:122-127 | success: the frame is applied, as if once; error: the mirror is unchanged or has it once, and without an interruption all maxRetries attempts were refused; no other frame lands |
| Text.TrimSpaceTrims | internal/libvirt/vm/control.go:51 | trimming leaves no outer white space and changes nothing that has none |
| Text.TrimSpaceCuts | internal/libvirt/vm/control.go:51 | what it cuts off at either end is white space only |
| Text.ParseUintFormat | internal/libvirt/vm/control.go:889-899 | printing and parsing a number gives it back if and only if it fits 64 bits |
| Text.NextDigit | internal/libvirt/vm/control.go:889-899 | decimal notation: a further digit multiplies by ten and adds its value |
| Text.OnlyDigits | internal/libvirt/vm/control.go:889-899 | text is a number if and only if it has nothing but decimal digits |
| Text.ContainsExact | internal/libvirt/metric/node/ram_linux.go:330-371 | one text contains another if and only if it begins with it somewhere |
| Text.FieldsNext | internal/libvirt/metric/node/ram_linux.go:330-371 | words are cut at white space |
| Text.SplitJoin | internal/libvirt/metric/node/ram_linux.go:240 | splitting into lines loses nothing and leaves no line break in a line |
| DomainConfig.ReadDomainConfig | internal/libvirt/vm/control.go:801-835 | memory comes first from memory and only if that gives none from currentMemory; the name falls back to the domain's; an unreadable vCPU count is zero |
| DomainConfig.CollectDisks | internal/libvirt/vm/control.go:818-823 | the non-blank disk paths in the order of the files, trimmed |
| DomainConfig.MemoryInBytes | internal/libvirt/vm/control.go:866-887 | whatever the unit, the result is that many whole MiB, by the bytes of the unit |
| DomainConfig.BuildReadsBack | internal/libvirt/vm/control.go:727-771 | the definition built for a request reads back as its trimmed name, vCPUs, MiB and one disk |
| DomainConfig.NormalisedReadsBack | internal/libvirt/vm/control.go:866-887 | a definition in KiB reads back rounded down to MiB, or as zero when it does not fit 64 bits |
| DomainConfig.NormalisedRequestReadsBack | internal/libvirt/vm/control.go:801-887 | after normalisation to KiB the request reads back the same if and only if ram · 1024 < 2^64 |
| Ledger.TotalSplit | internal/libvirt/vm/control.go:785-797 | the sums do not depend on the listing order and split over any subset |
| Ledger.AdmissionExact | internal/libvirt/vm/control.go:453-458 | writing what was admitted on wrapped sums, stored with its own wrap-around, keeps the ledger within the node if and only if the true sums stay below 2^64 |
| Ledger.AdmittedWriteFits | internal/libvirt/vm/control.go:176-199 | writing one or both values of an admitted request keeps the ledger within the node |
| Ledger.CreateFloorBound | internal/libvirt/vm/control.go:785-797 | after an admitted create over n domains the true KiB are at most the node's plus 1023 · n |
| Ledger.FloorBoundTight | internal/libvirt/vm/control.go:866-887 | n domains and a create that exactly fills the node meet that bound |
| Admission.CreateExact | internal/libvirt/vm/control.go:411-466 | with nothing hidden, the domain of an admitted create keeps the ledger within the node if and only if the request does not wrap around |
| Admission.UpdateExact | internal/libvirt/vm/control.go:159-199 | the same for an update, for its result and for every mixture of old and new values on the way there |
| Admission.WrapAroundWitness | internal/libvirt/vm/control.go:456-458 | a ledger of one domain and a valid create near 2^64 MiB that is admitted and breaks it |
| Admission.LegibleHidesNothing | internal/libvirt/vm/control.go:785-797 | with trimmed names and every configuration read nothing is hidden |
| Admission.HiddenDomainsExact | internal/libvirt/vm/control.go:785-797 | whatever was skipped, every admitted request that does not wrap around keeps the ledger if and only if the skipped domains hold nothing |
| Admission.HiddenDomainWitness | internal/libvirt/vm/control.go:785-791 | a full node whose one domain could not be read admits another |
| Admission.AdmittedCreateFloor | internal/libvirt/vm/control.go:453-458 | after an admitted create the true KiB are at most the node's plus 1023 for each earlier domain |
| Admission.ValidateCreateSpec | internal/libvirt/vm/control.go:554-568 | reports no fault if and only if name, vCPUs, memory and disk are all given |
| Controller.Controller.ReadAllocatedCapacity | internal/libvirt/vm/control.go:780-799 | the wrapping sums over exactly the domains whose reading did not fail in this call and that are not excluded, in any listing order |
| Controller.Controller.CheckAdmission | internal/libvirt/vm/control.go:411-466 | each rejection in exactly its case: CPU first, then memory, then storage |
| Controller.Controller.Refuse | internal/libvirt/vm/control.go:453-466 | admits exactly what fits the wrapped sums and the free storage, and otherwise says which of the three falls short |
| Controller.Controller.CreateVM | internal/libvirt/vm/control.go:48-125 | when the skipped domains hold nothing, the ledger holds after every call if and only if nothing was defined or the request does not wrap around; only an admitted valid new name changes anything; success means exactly the disk, the definition, autostart and the start as asked, in order; an error a proper prefix of them, after a refused call |
| Controller.Controller.UpdateVM | internal/libvirt/vm/control.go:127-227 | when the skipped domains hold nothing, the ledger holds after every call if the request does not wrap around, half-way failures and config-only fallbacks included, and once all is written only then; only the admitted domain changes, admitted with the requested amounts and with the current ones where none are asked for; success means exactly the requested values that differ were written, the vCPU count first; an error follows from a refused call |
| Controller.Controller.DeleteVM | internal/libvirt/vm/control.go:229-309 | the ledger holds; only the named domain goes, and it is gone on success; destroyed only when forced |
| Controller.Controller.MigrateVM | internal/libvirt/vm/control.go:311-401 | the ledger holds; only the named domain may go; success means a migration was acknowledged |
| Controller.Controller.ServeAll | internal/libvirt/vm/control.go:48-401 | in any run of the four operations in which every configuration could be read, the ledger holds after every single hypervisor call |
| KeyedRuns.ObservedIsPerKey | internal/libvirt/metric/node/delta_engine.go:26-45 | what a keyed sampler yields for a key depends on that key's readings alone, however others interleave |
| KeyedRuns.BaselineIsLast | internal/libvirt/metric/node/delta_engine.go:26-45 | the baseline of a key is its own last reading |
| DeltaEngine.Engine.ObserveCounter | internal/libvirt/metric/node/delta_engine.go:26-45 | accepts exactly when the key was read before, time passed and the counter did not fall, and then answers the differences to its last reading; always replaces that reading, and adds to that key's accepted total alone |
| DeltaEngine.LossExact | internal/libvirt/metric/node/delta_engine.go:26-45 | a counter that grows, restarts and wraps around loses nothing over some events if and only if every restart finds it at zero and no growth wraps |
| DeltaEngine.AcceptedAtMostTrue | internal/libvirt/metric/node/delta_engine.go:26-45 | for every such history the accepted deltas never exceed what was counted between first and last observation; equal exactly when between any two observations nothing was counted, or time passed and nothing was lost |
| DeltaEngine.AcceptedTelescopes | internal/libvirt/metric/node/delta_engine.go:26-45 | for readings that never fall they are at most last minus first, and exactly that when growth always took time |
| DeltaEngine.AcceptedSecondsTelescope | internal/libvirt/metric/node/delta_engine.go:26-45 | the seconds of a key's accepted deltas are at most the time from its first to its last reading, and all of it exactly when no reading after some time fell |
| VMSamplers.Reader.ComputeCPU | internal/libvirt/metric/vm/vm_metrics.go:275-296 | the nanoseconds since the VM's last reading by either cycle in percent of the 10^9 a second that all cores have, at most 100; the new reading becomes the baseline, and usage times the time since is what it adds to that VM's charge and no other's |
| VMSamplers.ShareReported | internal/libvirt/metric/vm/vm_metrics.go:275-296 | a share of what all cores can do in some time is reported as 100 times that share, and more as 100 |
| VMSamplers.Reader.ComputeLiteNetRates | internal/libvirt/metric/vm/vm_metrics.go:252-273 | each rate times the time since the VM's last lite sample is the growth of its own counter, none if it fell |
| VMSamplers.Reader.ComputeRuntimeRates | internal/libvirt/metric/vm/vm_metrics.go:356-377 | the same for all eight rates of a runtime sample, each by its own counter |
| VMSamplers.Reader.SampleLite | internal/libvirt/metric/vm/vm_metrics.go:104-114 | the lite cycle uses the shared CPU baseline |
| VMSamplers.Reader.SampleRuntime | internal/libvirt/metric/vm/vm_metrics.go:171-195 | the runtime cycle uses the shared CPU baseline |
| VMSamplers.UsageAnyOrder | internal/libvirt/metric/vm/vm_metrics.go:275-296 | in whatever order the two cycles' readings arrive, usage weighted by time exceeds the CPU seconds consumed by at most what readings fell; equal exactly when no rising step is capped or timeless |
| VMSamplers.UsageAtMostConsumed | internal/libvirt/metric/vm/vm_metrics.go:275-296 | in counter order it is at most the CPU seconds consumed, in percent of all cores; equal exactly when no step is capped or timeless |
| VMSamplers.RatesTelescope | internal/libvirt/metric/vm/vm_metrics.go:379-384 | every rate weighted by time adds up to at most last minus first, and to that when growth always took time |
| UUID.Layout | internal/libvirt/metric/vm/vm_metrics.go:455-466 | the 8-4-4-4-12 lower-case layout of section 4 of RFC 9562, two digits a byte in order |
| UUID.HexBytesAt | internal/libvirt/metric/vm/vm_metrics.go:455-466 | the two digits of each byte, its high half first, from 0123456789abcdef |
| UUID.ParseInverts | internal/libvirt/metric/vm/vm_metrics.go:455-466 | every 16-byte value can be read back from its text |
| UUID.DomainsDoNotCollide | internal/model/vm_info_sync.go:67-76 | distinct domains each keep their own entry in the inventory |
| Dmidecode.ScanFindsSticks | internal/libvirt/metric/node/ram_linux.go:264-327 | from any state the scan finds exactly the sections closed by another device or the end whose final size is not zero |
| Dmidecode.SectionYields | internal/libvirt/metric/node/ram_linux.go:264-327 | a device section yields the module its lines describe exactly when that has a size and no array header ends it; lines outside yield nothing |
| Dmidecode.LineKinds | internal/libvirt/metric/node/ram_linux.go:265-295 | which lines are headers, which report error correction, and how a property is split at its first colon |
| Dmidecode.PropertyFields | internal/libvirt/metric/node/ram_linux.go:296-321 | which key decides each field of a module, and which only fills it while it is empty |
| Dmidecode.SizeInBytes | internal/libvirt/metric/node/ram_linux.go:330-355 | a size is its number times the bytes of its unit |
| Dmidecode.SpeedInMHz | internal/libvirt/metric/node/ram_linux.go:357-371 | a speed is its number, whatever unit follows |
| Dmidecode.ReportFields | internal/libvirt/metric/node/ram_linux.go:252-260 | each column is the trimmed text of its field, or its default; the model falls back to the part number, the slot to its position |
| Dmidecode.FinalSize | internal/libvirt/metric/node/ram_linux.go:297-298 | a section's size is that of its last Size line |
| Dmidecode.Commit | internal/libvirt/metric/node/ram_linux.go:244-262 | appends one row to all eight arrays if the section is open and sized |
| Dmidecode.ParseLine | internal/libvirt/metric/node/ram_linux.go:264-323 | one line moves the parser as the scan prescribes |
| Dmidecode.ParseDmidecodeMemoryInfo | internal/libvirt/metric/node/ram_linux.go:238-328 | the parallel arrays hold exactly the report's sticks in order; error correction if and only if a line says so |
| Dmidecode.ParsedInfoIsCoherent | internal/libvirt/metric/node/ram_linux.go:238-328 | eight arrays of StickCount entries, positive sizes that sum to the total, slots and serials never blank |
| CPUSnapshot.ParseCPUCounters | internal/libvirt/metric/node/cpu_linux.go:207-248 | succeeds if and only if there are eight fields and all are numbers; each counter is the number in its position, and the total includes the extra ones |
| CPUSnapshot.Sampler.ComputeCPURealtime | internal/libvirt/metric/node/cpu_linux.go:15-91 | each percentage is its own counter's growth in percent of the total's, the total all but idle, capped; per core likewise; rates per second; zeros without a previous snapshot or without progress |
| CPUSnapshot.BusyUnclamped | internal/libvirt/metric/node/cpu_linux.go:40-58 | for two lines whose fields only grow no clamp bites: the busy shares add up exactly to the busy ticks over the growth of all fields |
| CPUSnapshot.TotalPlusIdle | internal/libvirt/metric/node/cpu_linux.go:40-58 | for two lines whose fields only grow, by less than 2^64 in all, total and idle are at most 100 together, and 100 exactly when no field after the eighth grew |
| CPUSnapshot.WrappedTotalWitness | internal/libvirt/metric/node/cpu_linux.go:40-58 | with more growth than that they can add up to 200 |

## Left out

- SyncProtocol.SafeRuns: asks for fresh computes and unapplied failures, because without them the claim is false; `FreshnessExact` and `AppliedFailureBreaks` say so exactly.
- Controller.Controller.CreateVM: the ledger clause is about calls whose skipped domains hold nothing, because otherwise the claim is false; `HiddenDomainsExact` says so exactly.
- Controller.Controller.ServeAll: a run with a failed reading promises nothing for the ledger, for the same reason.
- Controller.Controller.UpdateVM: the same; success is stated as calls acknowledged, not as values stored, because libvirt may report success for a value that only takes effect later.
- GRPCClient.Client.SendFrameWithRetry: stands for three loops that differ in the stream they use, and `InvokeWithRetry` for two that differ in the method.
- GRPCClient.Client.WaitRetry: a backoff beyond the range of a 64-bit duration is not modelled; the code uses one second and five attempts.
- Dmidecode.ParsedInfoIsCoherent: the total is the sum modulo 2^64, as in the code.
- Dmidecode.ParseDmidecodeMemoryInfo: the float grammar and the conversion of floats beyond 64 bits are parameters, because the language leaves the latter to the implementation.
- UUID.ParseInverts: the agent never reads ids back; the reader exists to show that nothing is lost.
- Node id and timestamp of a frame, and the choice of the node id: they do not reach the mirror.
- Aliasing of maps: maps are values, so that cloning protects against later writes is not captured.
- Timers, tickers, the error group, the per-loop health map and retry pacing of the loops: any order of steps is allowed instead.
- gRPC, TLS, tokens, JSON and XML text, libvirt's wire protocol and subprocesses: outcomes of environment methods.
- Elements of a domain definition that are not read back: operating system, devices, network, graphics.
- The default disk path, preparing a disk image, file system statistics and removing disks: a disk image is one call that works or not.
- Fields of an admission report that are only displayed, and the wrapping of error texts.
- Shutdown waiting and the arguments of a migration: only whether the domain goes matters here.
- IEEE rounding, NaN and infinities, and saturation of times: rates are exact reals.
- Lower-casing beyond ASCII and the two letters that lower-case into it: no unit or keyword needs more.
- Per-disk metrics, summing statistics by suffix, memory rates, GPU, disk and NIC discovery, reading /proc and /sys: they read files and devices or list what libvirt reports, without an invariant across calls.
- Concurrent use of the samplers and the sink: each holds one mutex for a whole call, so calls are taken one at a time.
