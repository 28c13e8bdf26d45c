/**
 * What the cascading invalidators do to the store's VM table
 * (the validate methods of ClusterEventHandler, HostEventHandler,
 * NICProfileHandler and DiskProfileHandler in
 * pkg/controller/provider/container/ovirt/watch.go). They only zero
 * `revisionValidated`; the next search picks the VMs up.
 */
module InvalidationSpec {
  import opened OvirtModel
  import opened Inventory

  /**
   * A VM after `writes` updates that each zero `revisionValidated`: every
   * update increments the revision, so it rises by `writes`.
   */
  function Invalidated(vm: VM, writes: nat): (r: VM)
    ensures writes == 0 ==> r == vm
    ensures writes > 0 ==> r.revisionValidated == 0
    ensures r.base.revision == vm.base.revision + writes
    ensures writes > 0 && vm.base.revision >= 0 ==> !r.Validated()
    ensures r.(revisionValidated := vm.revisionValidated).WithRevision(vm.base.revision) == vm
  {
    if writes == 0 then vm else vm.(revisionValidated := 0).WithRevision(vm.base.revision + writes)
  }

  /** One more update with `revisionValidated` zeroed is one more write. */
  lemma WriteZeroed(vm: VM, writes: nat)
    ensures Written(Invalidated(vm, writes).(revisionValidated := 0)) == Invalidated(vm, writes + 1)
  {
  }

  /**
   * The staged table part-way through an invalidation: the VMs in `done`
   * already have their final value in `target`, the others are unchanged.
   */
  function Staged(vms: map<string, VM>, done: set<string>, target: map<string, VM>): (r: map<string, VM>)
    requires vms.Keys == target.Keys
    ensures r.Keys == vms.Keys
  {
    map id | id in vms :: if id in done then target[id] else vms[id]
  }

  /** Staging nothing leaves the table as it was. */
  lemma StagedStart(vms: map<string, VM>, target: map<string, VM>)
    requires vms.Keys == target.Keys
    ensures Staged(vms, {}, target) == vms
  {
  }

  /** Finishing one more VM stages its final value; the VMs not yet finished are as they were. */
  lemma StagedStep(vms: map<string, VM>, done: set<string>, target: map<string, VM>, id: string)
    requires vms.Keys == target.Keys && id in vms
    ensures id !in done ==> Staged(vms, done, target)[id] == vms[id]
    ensures Staged(vms, done + {id}, target) == Staged(vms, done, target)[id := target[id]]
  {
  }

  /** Once every VM the target changes is staged, the staged table is the target. */
  lemma StagedDone(vms: map<string, VM>, done: set<string>, target: map<string, VM>)
    requires vms.Keys == target.Keys
    requires forall id :: id in vms && id !in done ==> target[id] == vms[id]
    ensures Staged(vms, done, target) == target
  {
  }

  /** A store failure common to every invalidator: begin, list/iterate or commit. */
  predicate TxFails(f: Faults) {
    f.begin || f.list || f.commit
  }

  // ---------------------------------------------------------------------
  // Host

  /** The VMs whose host reference is `host`. */
  function VMsOnHost(vms: map<string, VM>, host: string): set<string> {
    set id | id in vms && vms[id].host == host
  }

  /** The VMs on the host are exactly the rows a host query lists. */
  lemma VMsOnHostListed(vms: map<string, VM>, host: string)
    ensures VMsOnHost(vms, host) == VMsOf(vms, host).Keys
  {
  }

  /** Every VM on the host updated once with `revisionValidated` zeroed. */
  function HostInvalidated(vms: map<string, VM>, host: string): map<string, VM> {
    map id | id in vms :: if vms[id].host == host then Invalidated(vms[id], 1) else vms[id]
  }

  /** The host's transaction commits: no store failure, and no VM on the host fails to update. */
  predicate HostCommits(vms: map<string, VM>, host: string, f: Faults) {
    !TxFails(f) && VMsOnHost(vms, host) !! f.update
  }

  /**
   * Host invalidation makes exactly the VMs on the host stale (with
   * `revisionValidated` zero) and leaves every other VM as it was.
   */
  lemma HostInvalidation(vms: map<string, VM>, host: string, id: string)
    requires VMTable(vms) && id in vms
    ensures var r := HostInvalidated(vms, host);
      && r.Keys == vms.Keys && VMTable(r)
      && (vms[id].host == host ==>
            r[id].revisionValidated == 0 && !r[id].Validated() && r[id].base.revision == vms[id].base.revision + 1)
      && (vms[id].host != host ==> r[id] == vms[id])
  {
  }

  /** Invalidating one VM on the host is one update with `revisionValidated` zeroed, under its own key. */
  lemma HostStep(vms: map<string, VM>, host: string, id: string)
    requires VMTable(vms) && id in vms && vms[id].host == host
    ensures vms[id].(revisionValidated := 0).base.Pk() == id
    ensures Written(vms[id].(revisionValidated := 0)) == HostInvalidated(vms, host)[id]
  {
    WriteZeroed(vms[id], 0);
  }

  /** Host invalidation keeps every VM under its key with a non-negative revision. */
  lemma HostInvalidatedTable(vms: map<string, VM>, host: string)
    requires VMTable(vms)
    ensures HostInvalidated(vms, host).Keys == vms.Keys && VMTable(HostInvalidated(vms, host))
  {
  }

  // ---------------------------------------------------------------------
  // Cluster

  /** The hosts whose cluster reference is `cluster`. */
  function ClusterHosts(hosts: map<string, Host>, cluster: string): set<string> {
    set h | h in hosts && hosts[h].cluster == cluster
  }

  /** The hosts of the cluster are exactly the rows a cluster query lists. */
  lemma ClusterHostsListed(hosts: map<string, Host>, cluster: string)
    ensures ClusterHosts(hosts, cluster) == HostsOf(hosts, cluster).Keys
  {
  }

  /**
   * The VM table after cluster invalidation: each host of the cluster runs
   * its own transaction, so the VMs of every host whose transaction commits
   * are invalidated, and the others are left as they were.
   */
  function ClusterInvalidated(vms: map<string, VM>, hosts: map<string, Host>, cluster: string, f: Faults): map<string, VM> {
    map id | id in vms ::
      if vms[id].host in ClusterHosts(hosts, cluster) && HostCommits(vms, vms[id].host, f)
      then Invalidated(vms[id], 1) else vms[id]
  }

  /** The table part-way through cluster invalidation: the hosts in `done` have run. */
  function ClusterStaged(vms: map<string, VM>, done: set<string>, f: Faults): map<string, VM> {
    map id | id in vms ::
      if vms[id].host in done && HostCommits(vms, vms[id].host, f) then Invalidated(vms[id], 1) else vms[id]
  }

  /**
   * Running one more host of the cluster: its transaction commits as it would
   * have on the original table (earlier hosts changed none of its VMs), and it
   * invalidates that host's VMs.
   */
  lemma ClusterStep(vms: map<string, VM>, done: set<string>, f: Faults, host: string)
    requires VMTable(vms) && host !in done
    ensures var staged := ClusterStaged(vms, done, f);
      && VMTable(staged)
      && HostCommits(staged, host, f) == HostCommits(vms, host, f)
      && ClusterStaged(vms, done + {host}, f)
         == if HostCommits(staged, host, f) then HostInvalidated(staged, host) else staged
  {
    var staged := ClusterStaged(vms, done, f);
    assert VMsOnHost(staged, host) == VMsOnHost(vms, host);
  }

  /** Cluster staging starts from the table as it is. */
  lemma ClusterStart(vms: map<string, VM>, f: Faults)
    ensures ClusterStaged(vms, {}, f) == vms
  {
  }

  /** Once every host of the cluster has run, cluster staging is cluster invalidation. */
  lemma ClusterDone(vms: map<string, VM>, hosts: map<string, Host>, cluster: string, f: Faults)
    ensures ClusterStaged(vms, ClusterHosts(hosts, cluster), f) == ClusterInvalidated(vms, hosts, cluster, f)
  {
  }

  /**
   * Invalidation is transitive: when the store does not fail, updating a
   * cluster makes every VM on one of its hosts stale, and no other VM changes.
   */
  lemma ClusterReachesVMs(vms: map<string, VM>, hosts: map<string, Host>, cluster: string, f: Faults, id: string)
    requires VMTable(vms) && id in vms
    requires !TxFails(f) && f.update == {}
    ensures var r := ClusterInvalidated(vms, hosts, cluster, f);
      && (vms[id].host in hosts && hosts[vms[id].host].cluster == cluster ==> !r[id].Validated() && r[id].revisionValidated == 0)
      && (vms[id].host !in ClusterHosts(hosts, cluster) ==> r[id] == vms[id])
  {
  }

  // ---------------------------------------------------------------------
  // NIC profile

  /** The number of NICs referencing the profile: one update each. */
  function NicWrites(nics: seq<NIC>, profile: string): nat
    decreases |nics|
  {
    if nics == [] then 0
    else NicWrites(nics[..|nics| - 1], profile) + (if nics[|nics| - 1].profile == profile then 1 else 0)
  }

  /** A VM is written by NIC-profile invalidation exactly when one of its NICs references the profile. */
  lemma {:induction false} NicWritesPositive(nics: seq<NIC>, profile: string)
    ensures NicWrites(nics, profile) > 0 <==> exists i :: 0 <= i < |nics| && nics[i].profile == profile
    decreases |nics|
  {
    if nics != [] {
      var init := nics[..|nics| - 1];
      NicWritesPositive(init, profile);
      if exists i :: 0 <= i < |init| && init[i].profile == profile {
        var i :| 0 <= i < |init| && init[i].profile == profile;
        assert nics[i] == init[i];
      }
      if exists i :: 0 <= i < |nics| && nics[i].profile == profile {
        var i :| 0 <= i < |nics| && nics[i].profile == profile;
        if i < |init| {
          assert init[i] == nics[i];
        }
      }
    }
  }

  /** Every VM updated once per NIC referencing the profile. */
  function NicInvalidated(vms: map<string, VM>, profile: string): map<string, VM> {
    map id | id in vms :: Invalidated(vms[id], NicWrites(vms[id].nics, profile))
  }

  /** NIC-profile invalidation keeps every VM under its key with a non-negative revision. */
  lemma NicInvalidatedTable(vms: map<string, VM>, profile: string)
    requires VMTable(vms)
    ensures NicInvalidated(vms, profile).Keys == vms.Keys && VMTable(NicInvalidated(vms, profile))
  {
  }

  /** The VMs with a NIC referencing the profile. */
  function NicAffected(vms: map<string, VM>, profile: string): set<string> {
    set id | id in vms && NicWrites(vms[id].nics, profile) > 0
  }

  /** NIC-profile invalidation commits: no store failure, no affected VM fails to update. */
  predicate NicCommits(vms: map<string, VM>, profile: string, f: Faults) {
    !TxFails(f) && NicAffected(vms, profile) !! f.update
  }

  /**
   * NIC-profile invalidation makes stale exactly the VMs that have a NIC
   * referencing the profile, and leaves every other VM as it was.
   */
  lemma NicInvalidation(vms: map<string, VM>, profile: string, id: string)
    requires VMTable(vms) && id in vms
    ensures var r := NicInvalidated(vms, profile);
      && r.Keys == vms.Keys && VMTable(r)
      && ((exists i :: 0 <= i < |vms[id].nics| && vms[id].nics[i].profile == profile) ==>
            r[id].revisionValidated == 0 && !r[id].Validated())
      && (!(exists i :: 0 <= i < |vms[id].nics| && vms[id].nics[i].profile == profile) ==> r[id] == vms[id])
  {
    NicWritesPositive(vms[id].nics, profile);
  }

  // ---------------------------------------------------------------------
  // Disk profile

  /** The disks whose profile reference is `profile`. */
  function ProfileDisks(disks: map<string, Disk>, profile: string): set<string> {
    set d | d in disks && disks[d].profile == profile
  }

  /** The number of disk attachments to one of the affected disks: one update each. */
  function AttachmentWrites(attachments: seq<DiskAttachment>, affected: set<string>): nat
    decreases |attachments|
  {
    if attachments == [] then 0
    else
      var last := attachments[|attachments| - 1];
      AttachmentWrites(attachments[..|attachments| - 1], affected) + (if last.disk in affected then 1 else 0)
  }

  /** A VM is written by disk-profile invalidation exactly when it has an attachment to an affected disk. */
  lemma {:induction false} AttachmentWritesPositive(attachments: seq<DiskAttachment>, affected: set<string>)
    ensures AttachmentWrites(attachments, affected) > 0 <==>
      exists i :: 0 <= i < |attachments| && attachments[i].disk in affected
    decreases |attachments|
  {
    if attachments != [] {
      var init := attachments[..|attachments| - 1];
      AttachmentWritesPositive(init, affected);
      if exists i :: 0 <= i < |init| && init[i].disk in affected {
        var i :| 0 <= i < |init| && init[i].disk in affected;
        assert attachments[i] == init[i];
      }
      if exists i :: 0 <= i < |attachments| && attachments[i].disk in affected {
        var i :| 0 <= i < |attachments| && attachments[i].disk in affected;
        if i < |init| {
          assert init[i] == attachments[i];
        }
      }
    }
  }

  /** Every VM updated once per attachment to an affected disk. */
  function DiskInvalidated(vms: map<string, VM>, affected: set<string>): map<string, VM> {
    map id | id in vms :: Invalidated(vms[id], AttachmentWrites(vms[id].diskAttachments, affected))
  }

  /** Disk-profile invalidation keeps every VM under its key with a non-negative revision. */
  lemma DiskInvalidatedTable(vms: map<string, VM>, affected: set<string>)
    requires VMTable(vms)
    ensures DiskInvalidated(vms, affected).Keys == vms.Keys && VMTable(DiskInvalidated(vms, affected))
  {
  }

  /** The VMs with an attachment to an affected disk. */
  function DiskAffected(vms: map<string, VM>, affected: set<string>): set<string> {
    set id | id in vms && AttachmentWrites(vms[id].diskAttachments, affected) > 0
  }

  /** Disk-profile invalidation commits: no store failure, no affected VM fails to update. */
  predicate DiskCommits(vms: map<string, VM>, affected: set<string>, f: Faults) {
    !TxFails(f) && DiskAffected(vms, affected) !! f.update
  }

  /** The VM has an attachment to a disk whose profile reference is `profile`. */
  predicate AttachedToProfile(vm: VM, disks: map<string, Disk>, profile: string) {
    exists i :: 0 <= i < |vm.diskAttachments| && vm.diskAttachments[i].disk in disks
      && disks[vm.diskAttachments[i].disk].profile == profile
  }

  /**
   * Disk-profile invalidation makes stale exactly the VMs attached to a disk
   * whose profile is the updated one, and leaves every other VM as it was.
   */
  lemma DiskInvalidation(vms: map<string, VM>, disks: map<string, Disk>, profile: string, id: string)
    requires VMTable(vms) && id in vms
    ensures var r := DiskInvalidated(vms, ProfileDisks(disks, profile));
      && r.Keys == vms.Keys && VMTable(r)
      && (AttachedToProfile(vms[id], disks, profile) ==> r[id].revisionValidated == 0 && !r[id].Validated())
      && (!AttachedToProfile(vms[id], disks, profile) ==> r[id] == vms[id])
  {
    AttachmentWritesPositive(vms[id].diskAttachments, ProfileDisks(disks, profile));
  }
}
