# oVirt VM policy-validation reconciliation, modelled in Dafny

This project models the engine that keeps each oVirt VM's cached policy
verdict up to date in the forklift controller's inventory
(`pkg/controller/provider/container/ovirt/watch.go`), together with the
record logic it relies on (`pkg/controller/provider/model/ovirt/model.go`).

The engine has three parts:

- **It decides when a verdict is stale.** A VM is stale when its
  `RevisionValidated` differs from its `Revision`, or when its
  `PolicyVersion` differs from the policy agent's version.
- **It submits stale VMs for re-evaluation.** Submission happens on
  Created/Updated events and in a periodic search. The search skips VMs
  already reported at their current revision.
- **It commits the results back in batches.** Each result passes a
  revision compare-and-discard gate. The record is written with
  `Revision - 1`, so the store's automatic increment brings it back to the
  submitted revision. As a result, `Validated()` holds for exactly that
  revision.

Four cascading invalidators zero `RevisionValidated` on the VMs that depend
on an updated Cluster, Host, NIC profile or Disk profile. The next search
then picks those VMs up.

Modules:

- `OvirtModel` (model.dfy): the records. A `Base` carries the primary key
  and the store-assigned revision. The `VM` keeps only its validation and
  relational fields.
- `Inventory` (inventory.dfy): the store.
  - `DB` holds a VM table keyed by primary key, plus the hosts and disks.
  - Every write increments the revision.
  - A `Tx` is a staged copy of the VM table. Its commit writes all of it or
    nothing.
  - Store failures come from a fixed fault oracle, `Faults`. Begin, list
    and commit failures are store-wide flags: either every such call fails
    or none does. Get and update failures are per VM id.
- `Policy` (policy.dfy): the policy agent as an oracle. Its version lookup
  may fail. It refuses submissions for some VM ids. It records the
  submissions it accepted.
- `ValidationSpec` (validation_spec.dfy): what the search, result
  recording and harvest loop compute, as functions. The lemmas about them
  live here.
- `InvalidationSpec` (invalidation_spec.dfy): the table each invalidator
  produces, as functions. The lemmas about them live here.
- `OvirtWatch` (watch.dfy): `VMEventHandler`. It is a class with the
  handler's `reported` map and `lastSearch` time, and the harvest loop's
  `batch`, `delay` and `mark`.
  - Each iteration of the two long-running loops is one step method. The
    step takes its wakeup (a timer, a message, or a closed channel) and an
    integer nanosecond clock.
  - Cancellation is a boolean flag.
- `OvirtInvalidators` (invalidators.dfy): the four invalidator classes. Their
  loops update the staged table in place.

Each method is proved against the function in the spec modules that says
what it computes. The properties promised by the source are proved as
lemmas about those functions.

## Model

| member | source | states |
|---|---|---|
| OvirtModel.PkIdentifies | pkg/controller/provider/model/ovirt/model.go:38-48 | `Pk()` and `String()` are both the ID: two records have the same key exactly when they have the same ID |
| OvirtModel.ValidatedByRevision | pkg/controller/provider/model/ovirt/model.go:156-160 | `Validated()` holds exactly when `RevisionValidated == Revision`; zeroing `RevisionValidated` on a VM with a positive revision makes it not validated |
| OvirtModel.SameContentFields | pkg/controller/provider/model/ovirt/model.go:119-154 | content equality ignores the `eq:"-"` fields: it is equality of ID, name, description, revision, cluster, host, disk attachments and NICs |
| Inventory.Written | pkg/controller/provider/model/ovirt/model.go:34-35 | a stored write raises the revision by exactly one and changes nothing else (the `incremented` tag) |
| OvirtWatch.VMEventHandler.Reset | pkg/controller/provider/container/ovirt/watch.go:82-85 | `reported` becomes empty and `lastSearch` becomes now; nothing else changes |
| OvirtWatch.VMEventHandler.Started | pkg/controller/provider/container/ovirt/watch.go:89-96 | a started handler is not canceled, has no reported events, and its harvest loop is at its start state |
| OvirtWatch.VMEventHandler.Created | pkg/controller/provider/container/ovirt/watch.go:103-114 | nothing once canceled or when the VM is validated; otherwise the VM is submitted at its revision, and an event `{id, revision}` is reported exactly when the agent accepted it |
| OvirtWatch.VMEventHandler.Updated | pkg/controller/provider/container/ovirt/watch.go:121-132 | the same decision as Created, for the updated VM |
| OvirtWatch.VMEventHandler.End | pkg/controller/provider/container/ovirt/watch.go:142-147 | ending the watch cancels the handler and leaves its other state unchanged |
| OvirtWatch.VMEventHandler.RunStart | pkg/controller/provider/container/ovirt/watch.go:164-170 | the search loop starts with one search and then a reset |
| OvirtWatch.VMEventHandler.RunStep | pkg/controller/provider/container/ovirt/watch.go:171-185 | a reported event is stored as `reported[id] = revision`; a search runs exactly when more than the interval has passed since `lastSearch`, sees the events stored so far, and is always followed by a reset; a closed input channel ends the loop with no change |
| OvirtWatch.VMEventHandler.List | pkg/controller/provider/container/ovirt/watch.go:227-261 | the agent gains exactly `SearchEffect`: nothing if the version lookup fails, the handler is canceled or the query fails; otherwise one submission for each stale VM that is not suppressed and not refused |
| ValidationSpec.SearchExactly | pkg/controller/provider/container/ovirt/watch.go:237-258 | a search submits a task exactly for each stored VM with `Revision != RevisionValidated` or `PolicyVersion != version`, at its current revision, unless `reported[id]` equals that revision; a report of another revision does not suppress |
| ValidationSpec.SearchStep | pkg/controller/provider/container/ovirt/watch.go:248-260 | visiting one more row adds its submission once, unless the row is suppressed or refused |
| ValidationSpec.SearchSubmitsOnce | pkg/controller/provider/container/ovirt/watch.go:248-260 | a search submits each VM at most once: two submissions with the same VM id are the same submission |
| ValidationSpec.StaleRowsTable | pkg/controller/provider/container/ovirt/watch.go:237-243 | the search query yields stored VMs unchanged, under their own keys |
| OvirtWatch.VMEventHandler.Validate | pkg/controller/provider/container/ovirt/watch.go:276-293 | submits the rule path with the VM's ID and revision; succeeds exactly when the agent accepts it |
| ValidationSpec.CommitTask | pkg/controller/provider/container/ovirt/watch.go:310-332 | one result changes at most the VM it names; every VM keeps its key and its content (everything except the `eq:"-"` fields) |
| ValidationSpec.RecordedIsValidated | pkg/controller/provider/container/ovirt/watch.go:321-328 | the self-mutation compensation: after writing `Revision-1` and the store's increment, the stored VM has `Revision == RevisionValidated ==` the submitted revision, so `Validated()` holds, and it carries the task's version and concerns |
| ValidationSpec.DiscardedResult | pkg/controller/provider/container/ovirt/watch.go:310-332 | a result whose task failed, whose get or update fails, or whose revision is superseded leaves the table untouched |
| ValidationSpec.ApplyBatch | pkg/controller/provider/container/ovirt/watch.go:310-341 | a batch applied in order keeps every key and every VM's content |
| ValidationSpec.ValidatedEffect | pkg/controller/provider/container/ovirt/watch.go:297-347 | an empty batch, a failed begin or a failed commit leaves the table as it was |
| ValidationSpec.BatchKeepsTable | pkg/controller/provider/container/ovirt/watch.go:310-341 | recording results keeps every VM under its key with a non-negative revision |
| ValidationSpec.BatchLeavesValidated | pkg/controller/provider/container/ovirt/watch.go:310-341 | every VM a batch changes ends validated: recording a verdict never makes a VM look stale |
| ValidationSpec.BatchSkipsSuperseded | pkg/controller/provider/container/ovirt/watch.go:311-323 | a VM for which no error-free task carries its current revision is left untouched |
| ValidationSpec.BatchRecordsLastVerdict | pkg/controller/provider/container/ovirt/watch.go:310-341 | when the last task for a VM carries its current revision and nothing fails for it, the committed VM holds that verdict and is validated at the submitted revision |
| OvirtWatch.VMEventHandler.Validated | pkg/controller/provider/container/ovirt/watch.go:297-347 | the store's VM table becomes `ValidatedEffect` of the batch; the table stays well formed |
| OvirtWatch.VMEventHandler.RecordTask | pkg/controller/provider/container/ovirt/watch.go:310-332 | one loop iteration stages exactly `CommitTask` of the task |
| ValidationSpec.HarvestIteration | pkg/controller/provider/container/ovirt/watch.go:203-220 | an arriving task is appended and shortens the delay; a flush happens exactly when the time since `mark` exceeds the delay or the batch is past MaxBatch; after a flush the batch is empty, the delay long and the mark now; the batch never holds more than MaxBatch tasks between iterations, and a flush hands over at most MaxBatch+1 |
| OvirtWatch.VMEventHandler.HarvestStep | pkg/controller/provider/container/ovirt/watch.go:203-220 | the loop state moves as `HarvestNext` says, a flushed batch is recorded by Validated, and the harvest invariant is kept |
| ValidationSpec.FeedAppend | pkg/controller/provider/container/ovirt/watch.go:203-220 | feeding two bursts one after the other is feeding their concatenation |
| ValidationSpec.BurstAccumulates | pkg/controller/provider/container/ovirt/watch.go:205-214 | within the short delay, arrivals accumulate with no flush while the batch stays within MaxBatch |
| ValidationSpec.BurstOverflows | pkg/controller/provider/container/ovirt/watch.go:214-218 | within the short delay, the arrival that takes the batch past MaxBatch flushes it, and no earlier one does |
| ValidationSpec.Burst2000 | pkg/controller/provider/container/ovirt/watch.go:37-41 | 2000 results right after a flush: the 1025th arrival flushes 1025 tasks, and 975 stay batched with the short delay |
| InvalidationSpec.Invalidated | pkg/controller/provider/container/ovirt/watch.go:531-541 | after n writes with `RevisionValidated` zeroed, the revision has risen by n and the VM is not validated; nothing else changes |
| InvalidationSpec.WriteZeroed | pkg/controller/provider/container/ovirt/watch.go:535-536 | one more update with `RevisionValidated` zeroed is one more write |
| InvalidationSpec.HostStep | pkg/controller/provider/container/ovirt/watch.go:463-466 | updating a VM on the host writes its final invalidated value under its own key |
| InvalidationSpec.HostInvalidation | pkg/controller/provider/container/ovirt/watch.go:445-477 | host invalidation makes exactly the VMs on the host stale, with `RevisionValidated` 0 and the revision one higher; every other VM is unchanged |
| OvirtInvalidators.HostEventHandler.UpdateVMs | pkg/controller/provider/container/ovirt/watch.go:463-470 | the loop succeeds exactly when no VM on the host fails to update; it then stages `HostInvalidated` |
| OvirtInvalidators.HostEventHandler.Validate | pkg/controller/provider/container/ovirt/watch.go:445-477 | commits exactly when begin, list, every update and commit succeed; the table is then `HostInvalidated`, and otherwise unchanged |
| InvalidationSpec.ClusterStep | pkg/controller/provider/container/ovirt/watch.go:411-414 | running one more host of the cluster commits as it would on the original table, since earlier hosts changed none of its VMs |
| InvalidationSpec.ClusterDone | pkg/controller/provider/container/ovirt/watch.go:400-415 | once every host of the cluster has run, the table is `ClusterInvalidated` |
| InvalidationSpec.ClusterReachesVMs | pkg/controller/provider/container/ovirt/watch.go:400-415 | without store failures, cluster invalidation makes every VM on a host of the cluster stale and changes no other VM |
| OvirtInvalidators.ClusterEventHandler.ValidateHosts | pkg/controller/provider/container/ovirt/watch.go:411-414 | each listed host runs the host procedure in its own transaction |
| OvirtInvalidators.ClusterEventHandler.Validate | pkg/controller/provider/container/ovirt/watch.go:400-415 | nothing changes when listing the hosts fails; otherwise the table becomes `ClusterInvalidated` |
| InvalidationSpec.NicWritesPositive | pkg/controller/provider/container/ovirt/watch.go:531-541 | a VM is written at least once exactly when one of its NICs references the profile |
| InvalidationSpec.NicInvalidation | pkg/controller/provider/container/ovirt/watch.go:507-548 | NIC-profile invalidation makes stale exactly the VMs with a NIC referencing the profile, and leaves every other VM unchanged |
| OvirtInvalidators.NICProfileHandler.UpdateNics | pkg/controller/provider/container/ovirt/watch.go:531-541 | the inner loop updates the VM once per matching NIC and fails exactly when the VM has a match and its update fails |
| OvirtInvalidators.NICProfileHandler.UpdateVMs | pkg/controller/provider/container/ovirt/watch.go:525-542 | the outer loop succeeds exactly when no affected VM fails to update; it then stages `NicInvalidated` |
| OvirtInvalidators.NICProfileHandler.Validate | pkg/controller/provider/container/ovirt/watch.go:507-548 | commits exactly when begin, iterate, every affected update and commit succeed; the table is then `NicInvalidated`, and otherwise unchanged |
| InvalidationSpec.AttachmentWritesPositive | pkg/controller/provider/container/ovirt/watch.go:623-633 | a VM is written at least once exactly when one of its attachments is to an affected disk |
| InvalidationSpec.DiskInvalidation | pkg/controller/provider/container/ovirt/watch.go:578-640 | disk-profile invalidation makes stale exactly the VMs attached to a disk with the updated profile, and leaves every other VM unchanged |
| OvirtInvalidators.DiskProfileHandler.AffectedDisks | pkg/controller/provider/container/ovirt/watch.go:587-607 | the first loop collects exactly the disks whose profile is the updated one |
| OvirtInvalidators.DiskProfileHandler.UpdateAttachments | pkg/controller/provider/container/ovirt/watch.go:623-633 | the inner loop updates the VM once per attachment to an affected disk and fails exactly when the VM has such an attachment and its update fails |
| OvirtInvalidators.DiskProfileHandler.UpdateVMs | pkg/controller/provider/container/ovirt/watch.go:617-634 | the second loop succeeds exactly when no affected VM fails to update; it then stages `DiskInvalidated` |
| OvirtInvalidators.DiskProfileHandler.Validate | pkg/controller/provider/container/ovirt/watch.go:578-640 | commits exactly when begin, both iterations, every affected update and commit succeed; the table is then `DiskInvalidated` over the profile's disks, and otherwise unchanged |

Two behaviours are modelled as the code has them:

- The harvester flushes when `len(batch) > MaxBatch` (watch.go:214). A
  flushed batch can therefore hold 1025 tasks. In a 2000-task burst the
  first flush carries 1025 tasks and the remainder is 975.
- The oVirt handler submits its tasks with the rule path
  `/v1/data/io/konveyor/forklift/vmware/validate` (watch.go:278). The model
  keeps that constant as written.

The NIC-profile and disk-profile invalidators call `tx.Update` once per
matching NIC or attachment (watch.go:531-541, 623-633). In the model a VM's
revision therefore rises by the number of matches, not by one.

## Left out

- Goroutines, channels, `time.After`, the context and the `recover()` in `report`: each loop iteration is a step method with an explicit wakeup, cancellation is a flag, and a reported event is the value `Created`/`Updated` return rather than a channel send.
- The `canceled()` check inside the search loop (watch.go:251): in a sequential model the flag cannot change during a search, and a search on a canceled handler submits nothing anyway.
- `run` and `harvest` read the clock again for `reset` and `mark`; the model uses the step's `now` for both.
- The policy agent's evaluation, `workload()`, `web.Workload.Expand` and `Link`: the agent is an oracle that accepts or refuses a submission, and completed tasks reach the harvester as inputs.
- The libmodel store internals (SQL predicates, iterators, detail levels, `tx.End()`): the store is maps with increment-on-update and all-or-nothing commit. The order in which a listing yields rows is not modelled, so each loop over a listing visits the rows in an unspecified order.
- Detail levels: every listing yields complete stored records. The host handler lists VMs without `Detail: model.MaxDetail` (watch.go:455-459) and writes each listed VM back whole (watch.go:466); HostInvalidation's "every other field unchanged" holds under this abstraction, and the model does not capture a host-handler write that drops fields a lower detail level leaves unloaded.
- Faults: begin, list and commit failures are store-wide flags rather than per call. The model therefore cannot express one host's transaction failing to begin or commit while another host's commits (watch.go:411-414), a host listing that succeeds followed by a failing VM listing for one host (watch.go:402, 455), or one harvest commit failing while a later one succeeds. Per-host and per-flush outcomes differ only through the per-VM get and update faults.
- Logging, the `Error` handlers, the `Updated` wrappers of the invalidators (only a type cast around `validate`), and every descriptive field of the records (CPU, memory, devices, names of networks and storage domains).
- The hosts and disks of the store are fixed in the model: no modelled operation writes them.
- `int64` width of `Revision` and `RevisionValidated`: revisions are unbounded integers, and the store invariant keeps them non-negative, so the `Revision-1` write never wraps.
- `Concern` is an opaque value; its structure belongs to the policy rules.
- DataCenter, Network and StorageDomain records are not read by the engine and are not modelled.
