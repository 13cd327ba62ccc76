# Verification of the gateway's reconciliation and accounting engines

This project models, in Dafny, the parts of the gateway that drive kernel state toward
durable policy and that turn kernel counters into bounded history and quotas, and proves
properties of whole passes, runs and interleavings.

- **Blocked IPs** (`Observations`, `BindingEffects`, `BindingTable`, `BlockedIpPlan`,
  `LifecyclePlan`, `Convergence`, `OneRound`, `BlockedIpServices`, `BlockedIpRounds`,
  `PassSchedules`, `SnapshotRows`). Two passes edit the kernel's `blocked_ips` set and the
  binding rows by different rules. Each pass is a method over a mutable enforcement state whose calls may
  start failing at any point; it is proved equal to replaying a plan up to the first failure,
  and the plans carry the safety and convergence theorems, for rounds and for any schedule.
- **Traffic control** (`PriorityProbe`, `TcKernel`, `TrafficEnforcer`,
  `TrafficReconciliation`). Classes, filters and ingress redirects of two interfaces; every
  command may fail and then changes nothing. A counter of faults tells such failures from
  refusals that follow from the state, so the contracts say exactly when a command, a device
  or a whole reconciliation succeeds.
- **Traffic ledger** (`Ledger`, `TrafficRetention`, `RetentionConservation`,
  `RetentionLosses`, `TrafficHistory`, `HistoryCoverage`, `TrafficAccounting`,
  `CounterResets`, `TrafficPipeline`). Minute buckets, raw rows, hourly and daily rows and the history query,
  all measured against one ledger of bytes per instant, and the whole way from accepted
  counter to day total.
- **Quotas** (`Calendar`, `QuotaPeriods`, `QuotaLedger`, `QuotaService`, `QuotaNotices`). UTC
  periods on the Date functions of section 21.4.1 of ECMA-262, the period table against a
  ledger of recorded usage, and the threshold notices a run sends.
- **Smaller cores** (`Decimal`, `TrafficRate`, `Ipv4`, `DottedQuad`, `DhcpPools`,
  `PromiseLock`, `NftEnforcer`, `AgentScheduler`, `MacAddress`, `IdentityValidator`,
  `IdentityRows`, `IdentityTrust`).

The modules `SnapshotRows`, `IdentityRows` and `CounterResets`, and the lemmas named by text,
by rows or by fields, say what the operations decide in terms of their inputs alone.

`dafny verify dfyconfig.toml` checks the whole project.

Assumptions that the theorems name: DHCP gives each MAC one active IP and each IP one MAC
(`OneToOneLeases`, needed by `SharedLeaseNeverConverges`); the snapshot of leases,
neighbours, captures, devices and policies and the order of binding rows do not change
between the passes of a round; an interface starts with at most one filter per class
(`OnePerClass`), and shaped devices have distinct class ids (`ClassesAreDistinct`, needed by
`CollidingDevicesShareEverything`); samples are stamped at or after the current raw cutoff
and retention runs often enough that the new hourly cutoff does not pass the previous raw
cutoff (`IsLegal`; `EveryRunIsAccountedFor` and `DayIsKeptIffNothingSkipped` say exactly what
is lost otherwise); block records hold their own device's MAC or none, as all callers write
them (`HoldOwnMacs`).

Where the code does not do what it seems to promise, the model follows the code:

- One round of the two blocked-IP passes can leave an expected IP unblocked
  (`OneRoundIsNotEnough`); `OneRoundSufficesIff` says exactly when it does not.
- Retention that was down for more than 28 days drops the days in between
  (`CompleteRunLosesExactlyTheSkipped`; `LateRunLosesExactly` for a run that crashes).
- A history query over more than 48 hours misses what retention has not yet rolled, and
  partial hours and days at the borders of its parts; `HistoryIsCompleteIff` says exactly
  when it misses nothing.
- A quota reset that reads the clock on both sides of a period boundary fails when the
  earlier period has a row (`ResetFailsIffItStraddles`).
- Setup accepts prefixes 29 and 30, for which the rendered DHCP pools are not valid
  (`PoolsAreValidIffRoom`).
- A job that rejects stops the agent's loop with jobs waiting
  (`StallsIffRejectedWithJobsWaiting`); the requests the agent schedules catch their own
  errors.
- Turning the VPN guard on does not remove stale addresses from the VPN set
  (`WhatMendsTheMirror`), which an interrupted unblock leaves there
  (`FailedUnblockLeavesStale`) and nothing else does (`GuardMendsUnlessUnblockInterrupted`).
- A threshold notice is keyed by device, period start and percentage, so a daily and a weekly
  period that start together share it (`DailyAndWeeklyShareANotice`) and a reset does not
  bring it back (`ResetDoesNotBringTheNoticeBack`); `NoticeIsSentIffFirstReached` says
  exactly which call sends it.

## Model

| member | source | states |
|---|---|---|
| Convergence.TwoRoundsConverge | backend/src/application/enforcement/BlockedIpReconciliationService.ts:57-158 | From any kernel set and any bindings, two rounds of both passes reach a state in which neither pass makes a call, every expected IP is blocked, and every binding of a blocked, validated, hidden device sits at its leased IP or at an IP nobody leases. |
| Convergence.OneRoundIsNotEnough | backend/src/application/enforcement/BlockedIpReconciliationService.ts:144-146 | A concrete start from which one round leaves an expected IP unblocked: the kernel already held it, so no binding was recorded, and the lifecycle pass unblocked it. When exactly this happens is OneRound.OneRoundSufficesIff. |
| OneRound.OneRoundSufficesIff | backend/src/application/enforcement/IpBindingLifecycleService.ts:77-147 | One round leaves every expected IP blocked if and only if each expected IP the kernel held before it has no binding, or a settled one, or a binding that follows its device's lease to the IP and is not dropped by the blocked-IP pass: a condition on the state before the round. |
| OneRound.HeldIsKnownBefore | backend/src/application/enforcement/BlockedIpReconciliationService.ts:118-157 | Whether an expected, blocked IP is held through the lifecycle pass can be told before the blocked-IP pass runs. |
| OneRound.LifecyclePassKernel | backend/src/application/enforcement/IpBindingLifecycleService.ts:77-147 | An IP is blocked after a lifecycle pass exactly if a device is followed to it, or it was blocked before and has no binding or a settled one. |
| OneRound.PassRows | backend/src/application/enforcement/BlockedIpReconciliationService.ts:118-157 | The bindings after a blocked-IP pass are exactly those not dropped together with their IP, and one for each expected IP the kernel did not hold. |
| BlockedIpRounds.RunRound | backend/src/server.ts:142 | One run of each service with call budget left over is one round of both passes. |
| BlockedIpRounds.RunTwoRounds | backend/src/server.ts:142-144 | Two runs of each service that leave call budget over end in a state neither service changes, whatever kernel set and bindings they found. |
| Convergence.SharedLeaseNeverConverges | backend/src/application/enforcement/IpBindingLifecycleService.ts:56-75 | With two active leases on one IP the lifecycle pass exactly undoes the blocked-IP pass, for ever: the one-to-one assumption is needed. |
| Convergence.StepIsIdleIffSettled | backend/src/application/enforcement/IpBindingLifecycleService.ts:77-119 | The lifecycle pass makes no call for a binding exactly when the binding is settled. |
| Convergence.LifecyclePassSettles | backend/src/application/enforcement/IpBindingLifecycleService.ts:77-147 | One lifecycle pass leaves every binding settled, whatever the kernel set and the other bindings were. |
| Convergence.BlockedPassKeepsSettled | backend/src/application/enforcement/BlockedIpReconciliationService.ts:144-157 | Bindings that the blocked-IP pass records are settled, so it never gives the lifecycle pass new work. |
| Convergence.BlockedPassIsIdempotent | backend/src/application/enforcement/BlockedIpReconciliationService.ts:86-158 | A second blocked-IP pass makes no call, in whatever order the kernel lists its set. |
| Convergence.BlockedPassConverges | backend/src/application/enforcement/BlockedIpReconciliationService.ts:86-158 | Settled bindings and one blocked-IP pass are a state both passes leave unchanged. |
| PassSchedules.AnyScheduleConverges | backend/src/server.ts:142-144 | The passes in any order, one after another under the mutation lock, any of them cut short by a failing call: one whole lifecycle pass and one whole blocked-IP pass at any time after it reach a state that no later pass changes. |
| PassSchedules.SettledEverAfter | backend/src/application/enforcement/IpBindingLifecycleService.ts:77-147 | After one whole lifecycle pass every binding is settled for good, whatever passes follow and wherever they fail. |
| PassSchedules.StepKeepsSettled | backend/src/application/enforcement/BlockedIpReconciliationService.ts:144-157 | However far a pass gets, it leaves settled bindings settled and records only settled ones. |
| Convergence.ReplayKeepsRowsUnique | backend/src/infrastructure/database/PrismaBlockedDeviceRepository.ts:80-121 | Binding rows stay unique on device and IP whatever calls are made. |
| BlockedIpPlan.PassResult | backend/src/application/enforcement/BlockedIpReconciliationService.ts:86-158 | A successful pass yields exactly the initial set minus unexpected IPs with positive DHCP evidence plus the expected set; bindings appear only for expected IPs and vanish only at released ones. |
| BlockedIpPlan.ReleaseNeedsPositiveEvidence | backend/src/application/enforcement/BlockedIpReconciliationService.ts:124-141 | Every release names an active lease that contradicts the block: the bound device moved, or another MAC owns the IP. A missing lease or a quiet device releases nothing. |
| BlockedIpPlan.ExpectedIpNeverAbsent | backend/src/application/enforcement/BlockedIpReconciliationService.ts:118-149 | However far a pass gets before a call fails, an expected IP that was blocked stays blocked. |
| BlockedIpPlan.PartialPassIsOrderly | backend/src/application/enforcement/BlockedIpReconciliationService.ts:124-157 | However far a pass gets before a call fails, every binding it recorded has its IP blocked, and every binding it ended has its IP unblocked and not expected. |
| SnapshotRows.ExpectedByRows | backend/src/application/enforcement/BlockedIpReconciliationService.ts:57-114 | An IP is expected exactly when a blocked, validated, hidden device that is not behind an unconfirmed proxy has it by the last live lease row of its MAC, and the last usable neighbour row of the IP carries the device's MAC or its proxy's, or a capture names the MAC with no other source address. |
| SnapshotRows.BlockedByRows | backend/src/application/enforcement/BlockedIpReconciliationService.ts:57-158 | After a whole pass an IP is blocked exactly when the rows say so, or when it was blocked and no lease row contradicts its binding. |
| SnapshotRows.ReleasedByRows | backend/src/application/enforcement/BlockedIpReconciliationService.ts:118-142 | An IP is released exactly when it is not expected and the bound device's last lease row names another IP or the IP's last lease row names a MAC that is not the bound device's. |
| SnapshotRows.RecordedByRows | backend/src/application/enforcement/BlockedIpReconciliationService.ts:144-157 | An IP that was not blocked is recorded for the last device, in the order of the device rows, whose rows make it expected. |
| BlockedIpPlan.ExpectedOrder | backend/src/application/enforcement/BlockedIpReconciliationService.ts:86-108 | The expected IPs are exactly those some device proves present. |
| BlockedIpPlan.ExpectedDevices | backend/src/application/enforcement/BlockedIpReconciliationService.ts:87-107 | Each expected IP is kept with a device that expects it. |
| BlockedIpPlan.LastDeviceIsRecorded | backend/src/application/enforcement/BlockedIpReconciliationService.ts:87-107 | Of the devices that expect an IP the last one in the device rows is kept. |
| BlockedIpServices.BlockedIpReconciliationService.ReadLeases | backend/src/application/enforcement/BlockedIpReconciliationService.ts:59-69 | The lease loop builds both directions of the active, non-blank leases; a later lease replaces an earlier one. |
| BlockedIpServices.BlockedIpReconciliationService.ReadNeighbors | backend/src/application/enforcement/BlockedIpReconciliationService.ts:71-80 | The neighbour loop keeps the last usable entry of each IP. |
| BlockedIpServices.BlockedIpReconciliationService.ConfirmedIp | backend/src/application/enforcement/BlockedIpReconciliationService.ts:89-109 | The proof of presence that lets a leased IP be blocked on a device's behalf. |
| BlockedIpServices.BlockedIpReconciliationService.ComputeExpected | backend/src/application/enforcement/BlockedIpReconciliationService.ts:86-114 | The device loop computes the expected IPs in insertion order, the last device winning. |
| BlockedIpServices.BlockedIpReconciliationService.ReleaseIfStale | backend/src/application/enforcement/BlockedIpReconciliationService.ts:118-142 | One turn of the release loop performs exactly the planned calls, or a prefix of them up to the first failure: unblock first, then the binding. |
| BlockedIpServices.BlockedIpReconciliationService.ReleaseStale | backend/src/application/enforcement/BlockedIpReconciliationService.ts:118-142 | The release loop performs a prefix of the planned calls, all of them if none fails. |
| BlockedIpServices.BlockedIpReconciliationService.Install | backend/src/application/enforcement/BlockedIpReconciliationService.ts:147-157 | An IP is blocked before its binding is recorded. |
| BlockedIpServices.BlockedIpReconciliationService.InstallIfMissing | backend/src/application/enforcement/BlockedIpReconciliationService.ts:145-157 | An expected IP the kernel already holds gets neither call. |
| BlockedIpServices.BlockedIpReconciliationService.InstallMissing | backend/src/application/enforcement/BlockedIpReconciliationService.ts:144-158 | The install loop skips what the kernel holds and installs the rest in order, up to the first failure. |
| BlockedIpServices.BlockedIpReconciliationService.Reconcile | backend/src/application/enforcement/BlockedIpReconciliationService.ts:41-165 | The whole pass equals replaying the planned calls up to the first failure and uses up exactly that many; a pass that is already running makes none. |
| LifecyclePlan.PlanIsAdmissible | backend/src/application/enforcement/IpBindingLifecycleService.ts:77-147 | Every call of a pass is safe when it is made: no binding is recorded before its IP is blocked and no IP is unblocked while a binding remains. |
| LifecyclePlan.FaultLeavesBoundIpsBlocked | backend/src/application/enforcement/IpBindingLifecycleService.ts:95-147 | A fault after any single call leaves blocked every IP that carries an active binding and was blocked before, for any number of devices sharing an IP. |
| SnapshotRows.TurnByRows | backend/src/application/enforcement/IpBindingLifecycleService.ts:56-147 | A binding's turn by the lease rows alone: a live row of the binding's IP for another MAC ends it, else a live row of the device's MAC for another IP is followed, else no call is made. |
| SnapshotRows.PassFollowsTheLease | backend/src/application/enforcement/IpBindingLifecycleService.ts:119-147 | A managed device's binding is replaced by one at the IP of its last live lease row, which is blocked afterwards, whatever the other bindings are, unless a live row gives either IP to another MAC. |
| SnapshotRows.ClaimEndsTheBinding | backend/src/application/enforcement/IpBindingLifecycleService.ts:92-112 | A binding whose IP a live lease row gives to another MAC is ended, unless the device itself leases the IP now. |
| SnapshotRows.RunOutLeasesSayNothing | backend/src/application/enforcement/IpBindingLifecycleService.ts:56-119 | When all lease rows of the device's MAC and of the binding's IP have run out, the pass makes no call for the binding, which stays with its IP as it was. |
| BlockedIpServices.IpBindingLifecycleService.ReleaseBinding | backend/src/application/enforcement/IpBindingLifecycleService.ts:98-111 | The binding is released first, and the IP is unblocked only if the rows as they then are bind nobody there. |
| BlockedIpServices.IpBindingLifecycleService.Follow | backend/src/application/enforcement/IpBindingLifecycleService.ts:129-147 | The new IP is blocked and recorded before the old binding is released. |
| BlockedIpServices.IpBindingLifecycleService.Visit | backend/src/application/enforcement/IpBindingLifecycleService.ts:77-147 | One binding's branch performs exactly the planned calls or a prefix up to the first failure. |
| BlockedIpServices.IpBindingLifecycleService.VisitAll | backend/src/application/enforcement/IpBindingLifecycleService.ts:77-148 | The binding loop performs a prefix of the plan, all of it if no call fails. |
| BlockedIpServices.IpBindingLifecycleService.Reconcile | backend/src/application/enforcement/IpBindingLifecycleService.ts:40-158 | The whole pass equals replaying the plan up to the first failure and uses up exactly that many calls; a pass that is already running makes none. |
| BindingTable.BindingTable.ActiveBindings | backend/src/infrastructure/database/PrismaBlockedDeviceRepository.ts:34-40 | The active rows, in row order, as device and IP. |
| BindingTable.BindingTable.FindRow | backend/src/infrastructure/database/PrismaBlockedDeviceRepository.ts:54-62 | A row is found by its unique key exactly when one exists. |
| BindingTable.BindingTable.RecordBlock | backend/src/infrastructure/database/PrismaBlockedDeviceRepository.ts:5-22 | Two statements that may stop in between: the record is upserted with its MAC and reason, exactly unless another device's record holds the MAC, then the active row; a refusal, a stop in between or a blank IP leaves the active bindings alone. |
| BindingTable.OwnMacIsNeverTaken | backend/src/application/enforcement/BlockedIpReconciliationService.ts:151-156 | While every record holds its own device's MAC or none, the unique index never refuses a device its own. |
| BindingTable.BindingTable.Retire | backend/src/infrastructure/database/PrismaBlockedDeviceRepository.ts:91-119 | One active row becomes the released row of its key, merged with an older released row if there is one; no other binding changes. |
| BindingTable.BindingTable.ReleaseIp | backend/src/infrastructure/database/PrismaBlockedDeviceRepository.ts:80-121 | Exactly the device's binding at that IP is released and its reason kept. |
| BindingTable.BindingTable.ReleaseBlock | backend/src/infrastructure/database/PrismaBlockedDeviceRepository.ts:42-78 | An explicit unblock ends every binding of the device and no other. |
| BindingTable.FlippedActive | backend/src/infrastructure/database/PrismaBlockedDeviceRepository.ts:109-118 | Marking an active row released removes exactly its binding from the active ones. |
| BindingTable.MergedActive | backend/src/infrastructure/database/PrismaBlockedDeviceRepository.ts:103-108 | Merging into an older released row removes exactly the binding from the active ones. |
| BindingTable.MergedRows | backend/src/infrastructure/database/PrismaBlockedDeviceRepository.ts:103-108 | The merge keeps the unique key, the reason and every other row. |
| TrafficReconciliation.TrafficReconciliationService.Reconcile | backend/src/application/enforcement/TrafficReconciliationService.ts:34-157 | Without a command fault, with distinct classes, positive rates and room among the 65,436 priorities, the run is clean and ends in exactly the desired state: each validated device with an address has its own download and upload limit, or the throttle rate, on class, filter and redirect, and nobody else has a class. A device fails only for a rate that is not positive, a fault of its own commands or a lack of priorities; every other one reaches class, filter and redirect. A settled state is not disturbed even by failing commands; expected classes never disappear; the kernel is never asked to delete a referenced class. |
| TrafficReconciliation.ExactDownloadsAreInForce | backend/src/application/enforcement/TrafficReconciliationService.ts:92-100 | In the desired state the LAN class of every validated device with an address runs at a thousand times its download limit in thousandths of a megabit, or at the rounded throttle rate, with a filter for its address, and no other class exists. |
| TrafficReconciliation.ExactUploadsAreInForce | backend/src/application/enforcement/TrafficReconciliationService.ts:102-110 | The same on the IFB device for the upload limit, with the address's own packets redirected there. |
| TrafficReconciliation.TrafficReconciliationService.ReconcilePolicies | backend/src/application/enforcement/TrafficReconciliationService.ts:61-142 | The same, from the base state to the two pruning passes; it aborts only on a fault of the root's commands or a throttle rate that is not positive. |
| TrafficReconciliation.TrafficReconciliationService.ApplyAll | backend/src/application/enforcement/TrafficReconciliationService.ts:86-120 | Failures are captured device by device: the failed devices are exactly those with a rate that is not positive, a fault in their own turn or no free priority, and every other one is reached; a reading of the fault counter at every turn shows whose faults they were. |
| TrafficReconciliation.TrafficReconciliationService.ApplyNext | backend/src/application/enforcement/TrafficReconciliationService.ts:86-120 | One turn of the device loop: a device with nothing to enforce is passed over; another fails exactly for its own fault, rate or lack of room, and no reached device is disturbed. |
| TrafficReconciliation.TrafficReconciliationService.ApplyAndPrune | backend/src/application/enforcement/TrafficReconciliationService.ts:86-142 | The part whose failures are captured: without a fault and with a serviceable configuration it is clean, and a clean one ends in exactly the desired state. |
| TrafficReconciliation.TrafficReconciliationService.NoneFailed | backend/src/application/enforcement/TrafficReconciliationService.ts:86-120 | With positive rates, a device loop in which no device had a fault or lacked a priority has no failure. |
| TrafficReconciliation.RatesByFields | backend/src/application/enforcement/TrafficReconciliationService.ts:92-110 | A device to enforce can be served exactly if it is throttled or none of its limits is zero or less. |
| TrafficReconciliation.MeterBounds | backend/src/application/enforcement/TrafficReconciliationService.ts:111-119 | There are at most as many devices with a fault as faults, and none exactly if there was no fault. |
| TrafficReconciliation.TrafficReconciliationService.ApplyDevice | backend/src/application/enforcement/TrafficReconciliationService.ts:86-119 | Download first, then upload; it succeeds exactly when none of its commands has a fault, its rates are positive and there is room; a failure leaves every other device as it was. |
| TrafficReconciliation.TrafficReconciliationService.ApplyDownload | backend/src/application/enforcement/TrafficReconciliationService.ts:92-100 | A download step succeeds exactly without a fault, with a positive rate and a free priority, then the device's state is reached, and every other device keeps its own. |
| TrafficReconciliation.TrafficReconciliationService.ApplyUpload | backend/src/application/enforcement/TrafficReconciliationService.ts:102-110 | An upload step succeeds exactly without a fault, with a positive rate and free priorities, then class, filter and redirect are reached, and every other device keeps its own. |
| TrafficReconciliation.TrafficReconciliationService.Prune | backend/src/application/enforcement/TrafficReconciliationService.ts:122-142 | Both pruning passes run whatever became of the other, and both succeed exactly without a fault and with the IFB device there unless no upload is expected; they remove no expected class and no filter whose existing class is expected, and complete pruning of reached devices is exactness. |
| TrafficReconciliation.TrafficReconciliationService.PruneUploads | backend/src/infrastructure/enforcement/SingleInterfaceIfbTrafficEnforcer.ts:269-288 | It succeeds exactly without a fault and with the IFB device there unless no upload is expected; redirects that may stay are read back from surviving filters, so a shaped device keeps its redirect and no other redirect into the IFB device survives. |
| TrafficReconciliation.TrafficReconciliationService.ReconcileDownloadState | backend/src/infrastructure/enforcement/SingleInterfaceIfbTrafficEnforcer.ts:265-267 | It succeeds exactly without a fault; no expected class and no filter whose existing class is expected is removed; afterwards only expected classes and their filters remain. |
| TrafficReconciliation.TrafficReconciliationService.ReconcileUploadState | backend/src/infrastructure/enforcement/SingleInterfaceIfbTrafficEnforcer.ts:269-288 | It succeeds exactly without a fault and with the IFB device there unless no upload is expected; afterwards classes, filters and redirects are the expected ones. |
| TrafficReconciliation.TrafficReconciliationService.ClearBaseState | backend/src/infrastructure/enforcement/SingleInterfaceIfbTrafficEnforcer.ts:39-52 | With nothing to enforce and no fault the HTB tree and the IFB device are gone afterwards. |
| TrafficReconciliation.TrafficReconciliationService.Shape | backend/src/infrastructure/enforcement/SingleInterfaceIfbTrafficEnforcer.ts:194-200 | Root, class and filter in order; it succeeds exactly without a fault, with a positive rate and room for the filter; other classes and filters are untouched; a shaped class is not touched at all. |
| TrafficReconciliation.TrafficReconciliationService.LimitDownload | backend/src/infrastructure/enforcement/SingleInterfaceIfbTrafficEnforcer.ts:194-200 | It succeeds exactly without a fault, with a positive rate and room, and then the device's class has its rate and its filter is at its IP, the throttle overriding the limit. |
| TrafficReconciliation.TrafficReconciliationService.LimitUpload | backend/src/infrastructure/enforcement/SingleInterfaceIfbTrafficEnforcer.ts:202-210 | The same on the IFB device, then exactly one source redirect for the IP at a free priority. |
| TrafficReconciliation.CollidingDevicesShareEverything | backend/src/domain/value-objects/TcClassId.ts:16-25 | Two devices on one class can both be shaped exactly when they share rate and IP: distinct class ids are needed. |
| TrafficReconciliation.ClassOfPrefix | backend/src/domain/value-objects/TcClassId.ts:16-25 | A class id is a 16-bit value that is never 0 or 1. |
| TrafficReconciliation.FiltersOfExactState | backend/src/infrastructure/enforcement/SingleInterfaceIfbTrafficEnforcer.ts:290-323 | In an exact state every filter is some wanted device's own filter at its IP. |
| TrafficReconciliation.ExactStateIsNotPruned | backend/src/infrastructure/enforcement/SingleInterfaceIfbTrafficEnforcer.ts:290-323 | Pruning an exact state changes nothing. |
| TrafficEnforcer.EnsureRootState | backend/src/infrastructure/enforcement/SingleInterfaceIfbTrafficEnforcer.ts:59-74 | Succeeds exactly without a fault, with root qdisc and root class at the uplink rate; nothing else changes. |
| TrafficEnforcer.EnsureDeviceClass | backend/src/infrastructure/enforcement/SingleInterfaceIfbTrafficEnforcer.ts:76-103 | Succeeds exactly without a fault; the class is created or repaired, other classes keep their rates, and a class at the wanted rate is not touched. |
| TrafficEnforcer.EnsureFilter | backend/src/infrastructure/enforcement/SingleInterfaceIfbTrafficEnforcer.ts:105-144 | Succeeds exactly without a fault and with a free priority; the class's only filter is then at the wanted IP, a new one at the first free priority from the class's own; other classes' filters are untouched; a matching filter is not touched. |
| TrafficEnforcer.ClassPriority | backend/src/infrastructure/enforcement/SingleInterfaceIfbTrafficEnforcer.ts:54-57 | Classes below 32,000 prefer priorities of their own, from 100 on, and two classes one priority exactly when they differ by a multiple of 32,000. |
| TrafficEnforcer.MoveFilter | backend/src/infrastructure/enforcement/SingleInterfaceIfbTrafficEnforcer.ts:128-138 | The old filter goes before the new one comes at the given priority; a fault in between leaves other classes' filters alone. |
| TrafficEnforcer.CurrentFilter | backend/src/infrastructure/enforcement/SingleInterfaceIfbTrafficEnforcer.ts:111-119 | The class's filter is found exactly when there is one. |
| TrafficEnforcer.ClearClass | backend/src/infrastructure/enforcement/SingleInterfaceIfbTrafficEnforcer.ts:240-258 | Succeeds exactly without a fault; the filter goes before the class, so the kernel never refuses the deletion; other classes are untouched. |
| TrafficEnforcer.ClearUpload | backend/src/infrastructure/enforcement/SingleInterfaceIfbTrafficEnforcer.ts:234-238 | Succeeds exactly without a fault; then the device's redirect, filter and class are gone and nobody else's is. |
| TrafficEnforcer.ReconcileInterfaceState | backend/src/infrastructure/enforcement/SingleInterfaceIfbTrafficEnforcer.ts:290-323 | Stale filters, then stale classes, all of them exactly if there is no fault; whatever fails, expected classes and filters whose existing class is expected stay, and orphan filters go. |
| TrafficEnforcer.EnsureIfb | backend/src/infrastructure/enforcement/LinuxIfbManager.ts:23-29 | Succeeds exactly without a fault, and the IFB link exists then; redirects are untouched. |
| TrafficEnforcer.EnsureIngress | backend/src/infrastructure/enforcement/LinuxIfbManager.ts:118-122 | Succeeds exactly without a fault, and the ingress qdisc exists then; redirects are untouched. |
| TrafficEnforcer.EnsureUploadRedirect | backend/src/infrastructure/enforcement/LinuxIfbManager.ts:76-100 | Succeeds exactly without a fault and with a free priority, and then there is exactly one source redirect into the IFB device for the IP; an IP that had one never loses it; other redirects are untouched. |
| TrafficEnforcer.AddressPriority | backend/src/infrastructure/enforcement/LinuxIfbManager.ts:180-184 | An address prefers 100 plus the remainder by 30,000 of its characters read as a number to the base of 31, however long the text. |
| TrafficEnforcer.InstallRedirect | backend/src/infrastructure/enforcement/LinuxIfbManager.ts:93-99 | A missing redirect is added at the first free priority, exactly without a fault and if there is one. |
| TrafficEnforcer.RemoveUploadIp | backend/src/infrastructure/enforcement/LinuxIfbManager.ts:102-108 | Succeeds exactly without a fault; then the IP's source redirects into the IFB device are gone and others stay. |
| TrafficEnforcer.ReconcileUploadRedirects | backend/src/infrastructure/enforcement/LinuxIfbManager.ts:43-51 | Succeeds exactly without a fault; then of the redirects into the IFB device exactly the expected source redirects stay, and redirects elsewhere stay. |
| TrafficEnforcer.RemoveIfb | backend/src/infrastructure/enforcement/LinuxIfbManager.ts:65-74 | Succeeds exactly without a fault; redirects, ingress qdisc and link go in that order. |
| PriorityProbe.FindAvailable | backend/src/infrastructure/enforcement/SingleInterfaceIfbTrafficEnforcer.ts:166-188 | The first free priority in cyclic order from the base, and none exactly when all 65,436 are used; the ingress probe has the same form. |
| PriorityProbe.FirstFreeIsUnique | backend/src/infrastructure/enforcement/SingleInterfaceIfbTrafficEnforcer.ts:175-182 | The first free priority from a base is unique, so the probe's answer is determined. |
| PriorityProbe.FewUsedLeaveRoom | backend/src/infrastructure/enforcement/SingleInterfaceIfbTrafficEnforcer.ts:166-188 | Fewer than 65,436 used priorities always leave a free one. |
| PriorityProbe.CandidatesAreDistinct | backend/src/infrastructure/enforcement/SingleInterfaceIfbTrafficEnforcer.ts:175-182 | A full cycle never probes a priority twice and stays in range. |
| PriorityProbe.CandidatesCoverTheRange | backend/src/infrastructure/enforcement/LinuxIfbManager.ts:172-178 | A full cycle probes every priority. |
| RetentionConservation.EveryByteIsCountedOnce | backend/src/infrastructure/database/TrafficRetentionService.ts:44-108 | After any legal run of inserts and retention runs, each possibly crashing between any two statements, every device's bytes of every day, counted once across raw, hourly and daily rows, are the bytes inserted. |
| RetentionLosses.DayIsKeptIffNothingSkipped | backend/src/infrastructure/database/TrafficRetentionService.ts:50-72 | Without the spacing assumption: a complete run keeps a day's bytes if and only if nothing of that day lies between the previous raw cutoff and the new hourly cutoff. |
| RetentionLosses.CompleteRunLosesExactlyTheSkipped | backend/src/infrastructure/database/TrafficRetentionService.ts:50-107 | However long retention was down, a complete run keeps exactly the ledger without the skipped span. |
| RetentionLosses.CompleteRunBoundsTheTables | backend/src/infrastructure/database/TrafficRetentionService.ts:96-107 | After a complete run raw rows begin with the hour of 48 hours ago and hourly rows with the day of 30 days ago; no other raw or hourly row has gone and no daily row at all. |
| RetentionLosses.EveryRunIsAccountedFor | backend/src/infrastructure/database/TrafficRetentionService.ts:44-108 | After any run of inserts and retention runs, however far apart and wherever they crash, a day shows exactly the inserted bytes that no late run skipped and then deleted, without the still doomed ones once the day has a daily row. |
| RetentionLosses.LateRunLosesExactly | backend/src/infrastructure/database/TrafficRetentionService.ts:50-107 | A late run that crashes after n statements: the skipped bytes are gone once raw rows are deleted, and before that exactly on days that have a daily row. |
| RetentionLosses.SpacedRunsDoomNothing | backend/src/infrastructure/database/TrafficRetentionService.ts:44-108 | Where retention runs often enough nothing is doomed and no byte leaves the ledger. |
| RetentionLosses.RunsKeepTracked | backend/src/infrastructure/database/TrafficRetentionService.ts:44-108 | Over all ordered runs the doomed entries are whole raw rows whose hours have no row, and everything else meets the invariant. |
| RetentionConservation.RunsKeepInv | backend/src/infrastructure/database/TrafficRetentionService.ts:44-108 | Every legal event keeps the invariant that ties the three tables to the ledger. |
| RetentionConservation.RunKeepsInv | backend/src/infrastructure/database/TrafficRetentionService.ts:44-108 | A run crashing after any number of statements keeps the invariant. |
| RetentionConservation.RollHourlyKeepsInv | backend/src/infrastructure/database/TrafficRetentionService.ts:55-72 | The hourly rollup writes exact hours only. |
| RetentionConservation.RollDailyKeepsInv | backend/src/infrastructure/database/TrafficRetentionService.ts:77-94 | The daily rollup writes exact days only, one for every hourly row about to go. |
| RetentionConservation.PruneRawKeepsInv | backend/src/infrastructure/database/TrafficRetentionService.ts:96-98 | Deleting raw rows loses nothing that is not rolled. |
| RetentionConservation.PruneHourlyKeepsInv | backend/src/infrastructure/database/TrafficRetentionService.ts:100-107 | Deleting hourly rows loses nothing that is not in a daily row. |
| RetentionConservation.DayValueIsLedger | backend/src/infrastructure/database/TrafficRetentionService.ts:44-108 | Under the invariant a day's value is the ledger's sum. |
| RetentionConservation.InsertKeepsInv | backend/src/infrastructure/database/PrismaTrafficSampleRepository.ts:56-88 | Upserting a sample at or after the raw cutoff keeps the invariant. |
| TrafficRetention.TrafficRetentionService.RunUntil | backend/src/infrastructure/database/TrafficRetentionService.ts:44-108 | The four statements in order, stopping at a crash. |
| TrafficHistory.HistoryNeverCountsTwice | backend/src/infrastructure/database/PrismaTrafficSampleRepository.ts:90-167 | Returned rows account for pairwise disjoint spans of the window in time order, so their total never exceeds the bytes inserted. |
| TrafficHistory.HistoryIsSafeOnEveryRun | backend/src/infrastructure/database/PrismaTrafficSampleRepository.ts:90-167 | The same, disjointness included, for every store that legal runs from empty tables can leave behind. |
| TrafficHistory.ShortHistoryIsRaw | backend/src/infrastructure/database/PrismaTrafficSampleRepository.ts:99-110 | For spans up to 48 hours the answer is exactly the raw rows of the window, each once and in strictly ascending time. |
| TrafficHistory.DisjointRowsUndercount | backend/src/infrastructure/database/PrismaTrafficSampleRepository.ts:90-167 | Disjoint exact rows never add up to more than the ledger. |
| HistoryCoverage.HistoryIsCompleteIff | backend/src/infrastructure/database/PrismaTrafficSampleRepository.ts:90-167 | A query returns all bytes of its window if and only if each entry with bytes is in the last 48 hours, in a rolled hour that begins in the hourly part, or on a day with a daily row that begins in the window. |
| HistoryCoverage.HistoryAndMissed | backend/src/infrastructure/database/PrismaTrafficSampleRepository.ts:90-167 | What a query returns and what it misses are together exactly the bytes of the window. |
| HistoryCoverage.ShortHistoryIsComplete | backend/src/infrastructure/database/PrismaTrafficSampleRepository.ts:99-110 | Up to 48 hours nothing is ever missed. |
| HistoryCoverage.AnsweredByTheClock | backend/src/infrastructure/database/PrismaTrafficSampleRepository.ts:90-167 | Once the daily rows are written, the query's bounds and the time of the last retention run alone tell which entries it accounts for. |
| HistoryCoverage.MidnightHistoryIsComplete | backend/src/infrastructure/database/PrismaTrafficSampleRepository.ts:90-167 | Right after retention ran at midnight, a query of whole days misses nothing. |
| HistoryCoverage.RunWritesDailyRows | backend/src/infrastructure/database/TrafficRetentionService.ts:77-94 | A run that completes its second statement has written every daily row it owes. |
| TrafficAccounting.BufferRefinesDirectWriting | backend/src/application/monitoring/TrafficAccountingService.ts:142-277 | Over any run of samples with arbitrary timestamps, failed reads, resets, departures and failing writes, stored plus pending bytes equal writing each accepted delta at once, per device and minute. |
| TrafficAccounting.SessionTelescopes | backend/src/application/monitoring/TrafficAccountingService.ts:142-209 | A session without a reset totals exactly its last accepted counter minus its first. |
| TrafficAccounting.AcceptedBytesAreKept | backend/src/application/monitoring/TrafficAccountingService.ts:142-277 | Over any run, what is stored and pending for a device in any span grows by exactly the bytes accepted for its minutes, whatever writes fail. |
| TrafficAccounting.SessionIsCountedExactly | backend/src/application/monitoring/TrafficAccountingService.ts:142-209 | In a session without a reset the stored and pending bytes grow by exactly what the device's counter grew by. |
| CounterResets.ResetsAreCounted | backend/src/application/monitoring/TrafficAccountingService.ts:142-277 | Resets included, whatever reads and writes fail: the bytes accepted for a device are its last counter minus its first, plus what stood on the counter just before each decrease, for each direction on its own. |
| CounterResets.ResetsAreStored | backend/src/application/monitoring/TrafficAccountingService.ts:142-277 | The same of the stored and pending bytes in a span that has all minutes of the device's samples. |
| CounterResets.ReadingIsTaken | backend/src/application/monitoring/TrafficAccountingService.ts:142-209 | A successful reading becomes the counter unless it brings bytes while a bucket of another minute cannot be written, and then nothing changes. |
| CounterResets.CounterIsLastReading | backend/src/application/monitoring/TrafficAccountingService.ts:142-209 | Where every write works the counter is the last reading that succeeded. |
| CounterResets.FirstReadingCountsNothing | backend/src/application/monitoring/TrafficAccountingService.ts:150-160 | A first reading is only the start of counting. |
| CounterResets.CollectionForgetsTheUnseen | backend/src/application/monitoring/TrafficAccountingService.ts:87-140 | A collection keeps counters of the devices it observed alone. |
| CounterResets.BucketIsStoredWhenOver | backend/src/application/monitoring/TrafficAccountingService.ts:242-257 | A waiting bucket is stored once its minute is over, unless its write fails; otherwise it waits on. |
| TrafficPipeline.EveryAcceptedByteIsShown | backend/src/application/monitoring/TrafficAccountingService.ts:142-277 | Accounting and retention alternating in any way, with failing reads and writes and crashing runs: what the three tables show for a device's day plus what waits in its bucket is exactly what was accepted for the minutes of that day. |
| TrafficPipeline.WritesKeepInv | backend/src/infrastructure/database/PrismaTrafficSampleRepository.ts:56-88 | Writing any number of fresh buckets keeps the invariant that ties the tables to the ledger. |
| TrafficPipeline.StoredIsWritten | backend/src/application/monitoring/TrafficAccountingService.ts:211-257 | The buckets an event writes are exactly what its table gains. |
| TrafficAccounting.TrafficAccountingService.Collect | backend/src/application/monitoring/TrafficAccountingService.ts:87-140 | A collection is its samples in order, then the departures, then the expired buckets; a collection under way makes another do nothing. |
| TrafficAccounting.TrafficAccountingService.CollectDevice | backend/src/application/monitoring/TrafficAccountingService.ts:142-209 | One sample's effect on counters, buckets and table, including the failed read and the failed flush. |
| TrafficAccounting.TrafficAccountingService.AddToHistoryBucket | backend/src/application/monitoring/TrafficAccountingService.ts:211-240 | A delta joins its minute's bucket, or replaces a bucket that was flushed first. |
| TrafficAccounting.TrafficAccountingService.FlushExpiredHistoryBuckets | backend/src/application/monitoring/TrafficAccountingService.ts:242-257 | Every expired bucket whose write works is stored and removed; a failing one stays. |
| TrafficAccounting.FlushKeepsValue | backend/src/application/monitoring/TrafficAccountingService.ts:242-273 | Flushing moves bytes without changing any minute's total. |
| TrafficAccounting.AddKeepsValue | backend/src/application/monitoring/TrafficAccountingService.ts:211-240 | Adding a delta changes exactly its own minute by exactly the delta. |
| QuotaPeriods.PeriodsTile | backend/src/application/quota/QuotaService.ts:30-56 | Periods tile UTC time: start <= now < end, every instant of a period has that same period, and its end begins the next, for all three kinds and all instants. |
| QuotaPeriods.CalculatePeriod | backend/src/application/quota/QuotaService.ts:30-56 | Stepping two dates field by field gives exactly the period that the text names. |
| QuotaPeriods.PeriodsByText | backend/src/application/quota/QuotaService.ts:30-56 | By the text, in any letter case: 24 hours from midnight for daily, seven days from a Monday for weekly, and for every other text from date 1 of the instant's own month to date 1 of the next. |
| QuotaPeriods.DaysAndWeeks | backend/src/application/quota/QuotaService.ts:34-47 | A day runs from midnight to midnight and a week from Monday to Monday. |
| QuotaPeriods.Months | backend/src/application/quota/QuotaService.ts:48-54 | A month runs from its first to the next month's first, across year ends. |
| Calendar.DateStepsAreDays | backend/src/application/quota/QuotaService.ts:36-45 | Setting the date n days on moves the time by exactly n days, across month and year ends (section 21.4.1 of ECMA-262). |
| Calendar.CivilRoundTrip | backend/src/application/quota/QuotaService.ts:36-53 | Taking a day apart into year, month and date and putting it together gives the same day. |
| Calendar.CivilDateIsRecovered | backend/src/application/quota/QuotaService.ts:36-53 | Putting a civil date together and taking it apart gives the same date, leap days included. |
| Calendar.NextYear | backend/src/application/quota/QuotaService.ts:36-53 | The closed form for a year's first day is the running sum of year lengths. |
| Calendar.Epoch | backend/src/application/quota/QuotaService.ts:36-53 | Day 0 is Thursday, 1 January 1970. |
| Calendar.NextDay | backend/src/application/quota/QuotaService.ts:36-53 | From any day the next is the next date of the month, the first of the next month or New Year, by the Gregorian month lengths, and the next weekday. |
| QuotaLedger.UsageIsWhatWasRecorded | backend/src/application/quota/QuotaService.ts:100-162 | After any run from an empty table the used bytes of every device, type and period equal what was recorded for its instants since its last successful reset. |
| QuotaLedger.ReadingShowsTheLedger | backend/src/application/quota/QuotaService.ts:96-97 | Reading the quota after any run shows exactly that ledger entry under canonical bounds. |
| QuotaLedger.RecordingByFields | backend/src/application/quota/QuotaService.ts:100-116 | A recording adds its bytes, by direction, to the one period of its device and type that has its instant, and to no other. |
| QuotaLedger.RunIsCanonical | backend/src/application/quota/QuotaService.ts:100-218 | Every row's bounds stay the period of its own start over every run, even when a reset's two clock readings fall in different periods. |
| QuotaLedger.LookupNeverWipes | backend/src/application/quota/QuotaService.ts:210-218 | In a canonical table a lookup finds the row or adds an unused one; it never wipes, moves or fails. |
| QuotaLedger.CurrentIsKeyed | backend/src/infrastructure/database/PrismaQuotaPeriodRepository.ts:25-36 | The latest matching row is the one keyed by the instant's period, if there is one. |
| QuotaLedger.ResetFailsIffItStraddles | backend/src/application/quota/QuotaService.ts:153-159 | A reset fails exactly when its two clock readings fall in different periods and the first one's period already has a row. |
| QuotaLedger.ResetIsAllOrNothing | backend/src/application/quota/QuotaService.ts:147-174 | A failed reset changes nothing; a successful one leaves no usage in the period it was asked for. |
| QuotaLedger.AResetAtMidnightCanFail | backend/src/application/quota/QuotaService.ts:153-159 | A concrete table and two readings ten seconds apart for which the reset fails. |
| QuotaLedger.Current | backend/src/infrastructure/database/PrismaQuotaPeriodRepository.ts:25-36 | A matching row with the greatest start, and none exactly when no row matches. |
| QuotaService.QuotaPeriodTable.FindCurrent | backend/src/infrastructure/database/PrismaQuotaPeriodRepository.ts:25-36 | The loop over all rows returns the current row of the specification. |
| QuotaService.QuotaService.GetOrCreateCurrentPeriod | backend/src/application/quota/QuotaService.ts:210-218 | Find, create or move, as the table specification says. |
| QuotaService.QuotaService.RecordUsage | backend/src/application/quota/QuotaService.ts:100-116 | Negative usage is refused, no policy records nothing, otherwise one recording step that in a canonical table fails exactly when a notice fails to be stored; the thresholds its row has reached are then noticed up to that one, and the view shows the updated row. |
| QuotaService.QuotaService.GetQuota | backend/src/application/quota/QuotaService.ts:70-98 | One reading step that never fails in a canonical table; the view shows the current row. |
| QuotaService.QuotaService.ResetQuota | backend/src/application/quota/QuotaService.ts:147-162 | One reset step with its two clock readings; it succeeds exactly when the step does and shows no usage. |
| QuotaService.QuotaService.ClearQuota | backend/src/application/quota/QuotaService.ts:164-177 | One clearing step: an existing row is wiped, no row is created. |
| QuotaService.QuotaService.NotifyThresholds | backend/src/application/quota/QuotaService.ts:220-229 | Exactly the thresholds reached and not yet marked are marked and sent, up to one whose notice fails to be stored, which stays marked; it succeeds exactly when none fails, and no notice is ever sent twice. |
| QuotaNotices.NoticeIsSentIffFirstReached | backend/src/application/quota/QuotaService.ts:100-116 | Over every run of operations, with any notices failing to be stored, a call sends the notice of a device, period start and percentage if and only if it reaches the threshold by what has been recorded since the last successful reset, no notice of a lower percentage failed in it first, its own can be stored, and no earlier call got to it, whatever their period types and whatever was reset. |
| QuotaNotices.NoticeIsSentAtMostOnce | backend/src/application/quota/QuotaService.ts:220-229 | No notice is sent twice over any run. |
| QuotaNotices.FailedNoticeIsNeverSent | backend/src/application/quota/QuotaService.ts:224-227 | A notice that failed to be stored is never sent, by its own call or any other. |
| QuotaNotices.ReachedIsTried | backend/src/application/quota/QuotaService.ts:220-229 | While no notice fails, a call gets to every threshold it reaches. |
| QuotaNotices.MarkedIffReached | backend/src/application/quota/QuotaService.ts:220-229 | A notice is marked exactly when some earlier call reached its threshold and got to it. |
| QuotaNotices.ReachedByPercent | backend/src/application/quota/QuotaService.ts:221-223 | The reached thresholds are those of 80, 90 and 100 percent of a positive quota that the used bytes come up to. |
| QuotaNotices.DailyAndWeeklyShareANotice | backend/src/application/quota/QuotaService.ts:224-226 | On a Monday the weekly period reaches its threshold without a notice, because the daily period's went out under the same key. |
| QuotaNotices.ResetDoesNotBringTheNoticeBack | backend/src/application/quota/QuotaService.ts:147-162 | After a successful reset the period is used up to the same threshold again and no notice comes. |
| QuotaService.BuildView | backend/src/application/quota/QuotaService.ts:231-246 | Exhausted exactly when nothing remains; used and remaining make up an unexhausted quota. |
| TrafficRate.ParseOfFormat | backend/src/application/devices/DeviceService.ts:25-31 | Parsing the printed decimal of every positive rate gives the rate back. |
| TrafficRate.FormatOfParse | backend/src/application/enforcement/TrafficRateParser.ts:17-103 | Printing what was parsed gives every canonical accepted text back unchanged. |
| TrafficRate.FormatIsCanonical | backend/src/application/devices/DeviceService.ts:25-31 | A printed rate has no leading and no trailing zero. |
| TrafficRate.ParseIsExact | backend/src/application/enforcement/TrafficRateParser.ts:42-102 | A text is accepted exactly when it is a positive decimal of at most three places, and its rate is exactly a thousand times the number it denotes. |
| TrafficRate.SpaceByCode | backend/src/application/enforcement/TrafficRateParser.ts:17-40 | What is trimmed is exactly the white space and the line terminators of sections 12.2 and 12.3 of ECMA-262, by code. |
| TrafficRate.PrintsAlikeIffEqual | backend/src/application/enforcement/TrafficRateParser.ts:17-103 | Two accepted texts print alike exactly when they denote the same number. |
| Ipv4.MaskMembershipIsInterval | backend/src/infrastructure/network/DhcpNeighborIdentityValidator.ts:12-13 | 32-bit mask membership is interval membership for every prefix from 0 to 32. |
| Ipv4.MaskIsHighOnes | backend/src/application/setup/SetupService.ts:25 | The mask is a prefix of ones above zeros, the special case for 0 included. |
| Ipv4.ShiftsWrap | backend/src/application/setup/SetupService.ts:25 | A shift by 32 is a shift by nothing, which is why prefix 0 is a case of its own. |
| Ipv4.MaskedAddress | backend/src/application/setup/SetupService.ts:26 | Masking an address gives the start of its aligned block. |
| Ipv4.BlockBounds | backend/src/application/setup/SetupService.ts:28 | A subnet's range is aligned, contains its address and does not leave the address space. |
| Ipv4.OverlapIffShared | backend/src/application/setup/SetupService.ts:29 | Two subnets overlap exactly when they share an address. |
| Ipv4.OverlapIsNesting | backend/src/application/setup/SetupService.ts:29-30 | Overlapping subnets are nested. |
| DottedQuad.NumberRoundTrip | backend/src/application/setup/SetupService.ts:23-24 | Reading a printed address gives it back, for all 2^32 addresses. |
| DottedQuad.TextRoundTrip | backend/src/application/setup/SetupService.ts:23-24 | Printing a read address gives the text back exactly when no octet has a leading zero. |
| DottedQuad.CombinedIsSum | backend/src/infrastructure/network/DhcpNeighborIdentityValidator.ts:11 | Combining octets by shifts and ors is their sum by place, so both readers agree. |
| DottedQuad.AddressByText | backend/src/infrastructure/enforcement/NftEnforcer.ts:60-66 | A text is an address exactly when it is four numbers of one to three digits and at most 255 between points, and its value is their sum by place. |
| DhcpPools.PoolsAreValidIffRoom | backend/src/application/setup/SetupService.ts:133 | With a usable gateway, which every prefix up to 30 has, the pools are non-empty, usable, ascending and disjoint exactly up to prefix 28. |
| DhcpPools.PoolsCoverAllButGateway | backend/src/application/setup/SetupService.ts:133 | Up to prefix 28 the pools together are the tenth address to the one before broadcast, without the gateway. |
| DhcpPools.RenderPools | backend/src/application/setup/SetupService.ts:133 | The pool split, with its 32-bit wrap-around, pushes exactly the specified pools. |
| DhcpPools.DeriveGateway | backend/src/application/setup/SetupService.ts:32 | The highest usable own address, else the first host; none exactly from prefix 31 on. |
| DhcpPools.FirstHost | backend/src/application/setup/SetupService.ts:31-32 | The first address after the network's is usable exactly below prefix 31. |
| PromiseLock.OneAtATime | backend/src/application/enforcement/IpBindingMutationLock.ts:1-11 | Under every interleaving at most one operation is under way, all earlier callers are done and no later one has started. |
| PromiseLock.StartsInCallOrder | backend/src/application/enforcement/IpBindingMutationLock.ts:3-10 | Operations start in the order of the calls without skipping any. |
| PromiseLock.NeverStuck | backend/src/infrastructure/enforcement/NftEnforcer.ts:47-52 | While any caller is not done some operation can go on, whether earlier ones succeeded or failed. |
| PromiseLock.EveryStepIsProgress | backend/src/infrastructure/enforcement/NftEnforcer.ts:47-52 | Every step other than a call brings the end nearer, so the chain always drains. |
| PromiseLock.RunKeepsInv | backend/src/application/enforcement/IpBindingMutationLock.ts:1-11 | Each caller waits for its predecessor's promise in every reachable state. |
| PromiseLock.MutationLock.WithLock | backend/src/application/enforcement/IpBindingMutationLock.ts:3-8 | A caller may start at once exactly when every earlier caller has released. |
| PromiseLock.MutationLock.StartOperation | backend/src/application/enforcement/IpBindingMutationLock.ts:10 | When an operation starts, every earlier caller has released and no later one has started. |
| PromiseLock.MutationLock.SettleOperation | backend/src/application/enforcement/IpBindingMutationLock.ts:10 | However an operation ends, nobody may start before its caller has released, which it then can. |
| PromiseLock.MutationLock.ReleaseNext | backend/src/application/enforcement/IpBindingMutationLock.ts:10 | The release, after a failure as after a result, lets exactly the next caller start. |
| NftEnforcer.MirrorHoldsOnRuns | backend/src/infrastructure/enforcement/NftEnforcer.ts:132-177 | Whatever the sets were, after the firewall state is ensured and while no command fails, the VPN set equals the blocked set while the guard is on and is empty while it is off, at every lock release, rejected operations included. |
| NftEnforcer.WhatMendsTheMirror | backend/src/infrastructure/enforcement/NftEnforcer.ts:153-177 | After a fault, turning the guard off or ensuring the state mends the mirror; turning it on mends it exactly when nothing stale is left in the VPN set. |
| NftEnforcer.LastWordDecides | backend/src/infrastructure/enforcement/NftEnforcer.ts:243-280 | An address is blocked exactly when the last operation about it whose texts are well formed was a block, and is dropped on the VPN path too exactly while the guard is on, as it was last told. |
| NftEnforcer.GuardIsAsTold | backend/src/infrastructure/enforcement/NftEnforcer.ts:153-177 | After any run the guard is as it was last told; ensuring the firewall state turns it off. |
| NftEnforcer.AcceptedByText | backend/src/infrastructure/enforcement/NftEnforcer.ts:54-66 | An operation is accepted exactly when its address and MAC are well-formed texts. |
| MacAddress.MacByText | backend/src/infrastructure/enforcement/NftEnforcer.ts:54-58 | A MAC is six pairs of hexadecimal digits with colons in between. |
| NftEnforcer.LastWordOnMacDecides | backend/src/infrastructure/enforcement/NftEnforcer.ts:261-280 | A MAC is blocked exactly when the last operation with it was a block; a bad address does not matter to it, a bad MAC does. |
| NftEnforcer.RejectionsAreNoBlocks | backend/src/infrastructure/enforcement/NftEnforcer.ts:261-268 | A bad MAC blocks nothing, a good one with a bad address blocks the MAC alone, a bad address blocks nothing. |
| NftEnforcer.FailedUnblockLeavesStale | backend/src/infrastructure/enforcement/NftEnforcer.ts:253-259 | An unblock that fails in its second set leaves the address stale in the VPN set, where turning the guard on does not mend the mirror. |
| NftEnforcer.GuardMendsUnlessUnblockInterrupted | backend/src/infrastructure/enforcement/NftEnforcer.ts:153-177 | Over runs with any failures, turning the guard on mends the mirror at every point as long as no unblock was interrupted between its two sets. |
| NftEnforcer.InterruptedUnblockLeavesStale | backend/src/infrastructure/enforcement/NftEnforcer.ts:253-259 | An unblock interrupted between its two sets while the guard is on always leaves its address in the VPN set. |
| NftEnforcer.Enforcer.SetVpnBlockedIpGuardEnabled | backend/src/infrastructure/enforcement/NftEnforcer.ts:153-165 | Succeeds exactly without a command fault, and only then the guard flag changes; after a fault the VPN set lies between what it was and what it should be. |
| NftEnforcer.Enforcer.SyncBlockedIps | backend/src/infrastructure/enforcement/NftEnforcer.ts:161-162 | Succeeds exactly without a fault; every blocked address is added then and nothing is removed. |
| NftEnforcer.Enforcer.ClearVpnIps | backend/src/infrastructure/enforcement/NftEnforcer.ts:142-151 | Succeeds exactly without a fault, and the VPN set is empty then. |
| NftEnforcer.Enforcer.EnsureFirewall | backend/src/infrastructure/enforcement/NftEnforcer.ts:167-177 | Succeeds exactly without a fault, and then the VPN set is empty and the guard off; the blocked sets are untouched. |
| NftEnforcer.Enforcer.BlockIpUnlocked | backend/src/infrastructure/enforcement/NftEnforcer.ts:243-249 | Succeeds exactly without a fault and for a well-formed address: blocked set first, VPN set second; an address that is not well formed changes nothing. |
| NftEnforcer.Enforcer.UnblockIpUnlocked | backend/src/infrastructure/enforcement/NftEnforcer.ts:253-259 | Succeeds exactly without a fault and for a well-formed address: blocked set first, VPN set second; after a failure in between the VPN set still holds the address. |
| NftEnforcer.Enforcer.BlockDeviceLocked | backend/src/infrastructure/enforcement/NftEnforcer.ts:261-268 | Succeeds exactly without a fault and for a well-formed MAC and address: MAC first, then the address; a bad address fails after exactly the MAC was added. |
| NftEnforcer.Enforcer.UnblockDeviceLocked | backend/src/infrastructure/enforcement/NftEnforcer.ts:270-280 | Succeeds exactly without a fault and for a well-formed MAC and address: MAC first, then the address in both sets; a bad address fails after exactly the MAC was removed. |
| AgentScheduler.OneJobAtATime | backend/src/infrastructure/enforcement/EnforcementAgent.ts:55-56 | One job executes at a time in every run. |
| AgentScheduler.QueuesAreFifo | backend/src/infrastructure/enforcement/EnforcementAgent.ts:52-56 | Each queue is first in, first out, and each accepted job starts at most once. |
| AgentScheduler.BackgroundYields | backend/src/infrastructure/enforcement/EnforcementAgent.ts:54-56 | A background job starts only with the priority queue empty, and at most eight wait. |
| AgentScheduler.PriorityJobsAreTaken | backend/src/infrastructure/enforcement/EnforcementAgent.ts:56 | Over every run each priority job is started or waiting, in the order of scheduling; none is refused. |
| AgentScheduler.BackgroundJobIsTakenIff | backend/src/infrastructure/enforcement/EnforcementAgent.ts:56 | A background job is taken exactly while fewer than eight wait. |
| AgentScheduler.WaitingJobsAreDrained | backend/src/infrastructure/enforcement/EnforcementAgent.ts:55-56 | While no job rejects, waiting jobs always have an active drain. |
| AgentScheduler.StallsIffRejectedWithJobsWaiting | backend/src/infrastructure/enforcement/EnforcementAgent.ts:55 | A step stalls the scheduler exactly when it ends a rejected job's drain with jobs waiting. |
| AgentScheduler.StalledUntilNextAccepted | backend/src/infrastructure/enforcement/EnforcementAgent.ts:55-56 | A stalled scheduler goes on exactly when another job is accepted, so a full background queue refuses its own rescue. |
| AgentScheduler.AStallIsReachable | backend/src/infrastructure/enforcement/EnforcementAgent.ts:55-56 | Two jobs of which the first rejects stall it. |
| AgentScheduler.RunKeepsInv | backend/src/infrastructure/enforcement/EnforcementAgent.ts:52-56 | The flag says exactly whether one drain is active, and each queue's history is its starts followed by its waiters. |
| AgentScheduler.Scheduler.ScheduleJob | backend/src/infrastructure/enforcement/EnforcementAgent.ts:56 | A background job is refused exactly when eight wait; an accepted job always finds the loop running. |
| AgentScheduler.Scheduler.ResumeDrain | backend/src/infrastructure/enforcement/EnforcementAgent.ts:55 | The loop goes on exactly after a job that did not reject while jobs wait, and then one job executes; a rejection leaves it. |
| IdentityValidator.Validate | backend/src/infrastructure/network/DhcpNeighborIdentityValidator.ts:18-31 | One identity per MAC, each from the first neighbour that is about it, or unobserved from its lease; every live in-subnet lease is covered and nothing else is listed. |
| IdentityRows.IdentityByRows | backend/src/infrastructure/network/DhcpNeighborIdentityValidator.ts:8-30 | Every listed identity is what the rows say: the first usable neighbour row that tells of its MAC decides visibility, proxy, validation, source and deferral by its own MAC and the captures; without one the last lease row of the MAC leaves it unobserved. |
| IdentityRows.ListedByRows | backend/src/infrastructure/network/DhcpNeighborIdentityValidator.ts:18-30 | A MAC is listed exactly when a neighbour row tells of it or a lease row that has not run out names it. |
| IdentityValidator.ValidatedIffEvidence | backend/src/infrastructure/network/DhcpNeighborIdentityValidator.ts:25-27 | With one neighbour entry per address a leased device is validated exactly when the entry is its own or a capture confirms it. |
| IdentityValidator.ValidatedHasEvidence | backend/src/infrastructure/network/DhcpNeighborIdentityValidator.ts:24-28 | Validation never comes without a usable neighbour at the address. |
| IdentityValidator.ProxyIsNeverStatic | backend/src/infrastructure/network/DhcpNeighborIdentityValidator.ts:22-28 | A MAC that answers for another device's leased address is never listed as STATIC_ARP. |
| IdentityValidator.IdentityIsCoherent | backend/src/infrastructure/network/DhcpNeighborIdentityValidator.ts:26-30 | Source, proxy, visibility and deferral agree; no device is its own proxy. |
| IdentityValidator.ReadLeases | backend/src/infrastructure/network/DhcpNeighborIdentityValidator.ts:21 | Both lease maps hold the last live in-subnet lease of each key. |
| IdentityValidator.FindProxies | backend/src/infrastructure/network/DhcpNeighborIdentityValidator.ts:22 | The proxies are exactly the usable neighbours answering for another device's lease. |
| IdentityValidator.AddNeighbor | backend/src/infrastructure/network/DhcpNeighborIdentityValidator.ts:24-28 | One neighbour adds its leased device, or itself, or nothing. |
| IdentityValidator.AddUnobserved | backend/src/infrastructure/network/DhcpNeighborIdentityValidator.ts:30 | Leased devices no neighbour showed come last, unvalidated. |
| IdentityTrust.TrustSurvivesSilence | backend/src/domain/services/IdentityStateReconciler.ts:16-42 | Over any run of non-positive observations a confirmed or accepted proxy keeps its source, its validated flag and some proxy. |
| IdentityTrust.TrustYieldsOnlyToPositive | backend/src/domain/services/IdentityStateReconciler.ts:19-42 | A trusted record gives way to a positive observation and to no other. |
| IdentityTrust.StoredByFields | backend/src/domain/services/IdentityStateReconciler.ts:14-68 | What is stored after an observation, field by field, in the three cases of the merge. |
| IdentityTrust.SameProxyStaysValidated | backend/src/domain/services/IdentityStateReconciler.ts:44-65 | A validated record behind the same proxy is not invalidated by a non-positive observation. |
| IdentityTrust.MergingTwiceIsMergingOnce | backend/src/infrastructure/database/PrismaDeviceRepository.ts:21-28 | The discovery sync and the repository both merge; the stored record is the same as merging once. |
| IdentityTrust.ValidatorIsPositiveIffValidated | backend/src/domain/services/IdentityStateReconciler.ts:19-22 | What the validator reports is positive exactly when it is validated. |
| IdentityTrust.ConfirmedProxySurvivesEmptyCaptures | backend/src/domain/services/IdentityStateReconciler.ts:24-42 | Any number of readings without captures, in which the device has no neighbour entry of its own, never takes a proxy's trust away. |
| IdentityTrust.Reconcile | backend/src/domain/services/IdentityStateReconciler.ts:10-68 | A record stands exactly while it is trusted, or validated behind the same proxy, and nothing positive was seen: MAC, source and validated flag come from it and a known proxy is not forgotten. Otherwise the observation replaces everything; where and how the device was seen is always the observation's. |

## Left out

- Convergence.TwoRoundsConverge: assumes the binding rows come back in one fixed order, because the pass keeps the last row of an IP and the query has no order clause.
- BlockedIpServices.BlockedIpReconciliationService.Reconcile: a missing enforcement adapter and adapters without the optional block and unblock calls are not modelled; readings of leases, neighbours, captures and policies do not fail.
- BindingTable.BindingTable.RecordBlock: the time columns of a record are not modelled; callers other than the two passes are represented by the MAC and reason they pass.
- TrafficEnforcer.EnsureDeviceClass: the second attempt after an "already exists" answer is left out, because no other writer of tc state runs beside the reconciler in the model; EnsureFilter likewise.
- TrafficEnforcer.EnsureRootState: a root qdisc of another kind, which is replaced, counts as a missing one.
- TrafficReconciliation.TrafficReconciliationService.Reconcile: a failing read of devices or policies, before anything is changed, is not modelled; the throttle rate is a real number, so not-a-number and infinity are left out.
- TrafficReconciliation.ClassOfPrefix: the hash is an uninterpreted function; class ids are numbers, so the text normalisation of leading zeros is implicit.
- BlockedIpRounds.RunTwoRounds: a run that used up its budget exactly is not told from one whose next call failed, so convergence is promised when budget is left over.
- TrafficRetention.TrafficRetentionService.RunUntil: `date_trunc` is taken in UTC; the windows are the default 48 hours and 30 days.
- TrafficHistory.HistoryNeverCountsTwice: covers the query of one device; the query over all devices and the rate columns are not modelled.
- TrafficAccounting.TrafficAccountingService.Collect: live rates, accounting-rule repair, quota recording inside a sample and the flush on shutdown are not modelled.
- QuotaPeriods.CalculatePeriod: the limit of Date to 8.64e15 milliseconds is not modelled.
- QuotaService.QuotaService.RecordUsage: enforcing and clearing quota actions (throttle, block, notice of exhaustion) are not modelled, nor is the deletion of a device with its rows.
- QuotaNotices.NoticeIsSentIffFirstReached: the marks last as long as the process, so a run of calls is one process's.
- QuotaLedger.UsageIsWhatWasRecorded: operations run one after another; two lookups that race to create one row are not modelled.
- TrafficRate.ParseIsExact: covers text input; numbers are converted to text first and big integers pass through unchanged.
- DottedQuad.NumberRoundTrip: models the setup service's reader; the validator's reader also accepts other numeric spellings of an octet.
- DhcpPools.DeriveGateway: addresses are numbers; splitting off their prefix lengths is not modelled.
- NftEnforcer.MirrorHoldsOnRuns: operations are atomic because they hold the lock; table, chain and rule commands change no set, and one command stands for each group of them; trimming and lower-casing of addresses, NAT rules and auditing are not modelled.
- IdentityValidator.Validate: host names and client ids are not carried; the validator's own debouncing is off, as the server constructs it; MAC and IP texts are already trimmed and lower-cased.
- IdentityTrust.MergingTwiceIsMergingOnce: the repository's refusals of proxy MACs are not modelled.
- FirewallService, schedules and profiles also write the same rows and sets; their interleavings with the passes are not modelled.
- tc, nft and `ip` text, generated database code, HTTP routes, sockets, timers, file writes, health checks and notification delivery: input and output.
- The agent's command validators and the VPN configuration: long case analyses and record building without deeper properties.
