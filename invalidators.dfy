/**
 * The cascading invalidators (ClusterEventHandler, HostEventHandler,
 * NICProfileHandler and DiskProfileHandler in
 * pkg/controller/provider/container/ovirt/watch.go). Each zeroes
 * `revisionValidated` on the dependent VMs within a transaction that is
 * committed whole or dropped on the first failure; they never submit.
 */
module OvirtInvalidators {
  import opened Options
  import opened OvirtModel
  import opened Inventory
  import opened InvalidationSpec

  class HostEventHandler {
    const db: DB

    constructor (db: DB)
      ensures this.db == db
    {
      this.db := db;
    }

    /**
     * Host updated: in one transaction, every VM on the host is updated with
     * `revisionValidated` zeroed. Commits exactly when no store operation fails.
     */
    method Validate(host: Host) returns (committed: bool)
      requires db.Valid()
      modifies db
      ensures db.Valid()
      ensures committed == HostCommits(old(db.vms), host.base.id, db.faults)
      ensures db.vms == if committed then HostInvalidated(old(db.vms), host.base.id) else old(db.vms)
    {
      committed := false;
      var tx := db.Begin();
      if tx == null {
        return;
      }
      var rows := tx.ListVMs(host.base.id);
      if rows.None? {
        return;
      }
      var ok := UpdateVMs(tx, rows.value, host.base.id);
      if !ok {
        return;
      }
      committed := tx.Commit();
    }

    /** The loop: every VM listed on the host is updated once; it stops at the first failed update. */
    method UpdateVMs(tx: Tx, list: map<string, VM>, host: string) returns (ok: bool)
      requires VMTable(tx.vms) && list == VMsOf(tx.vms, host)
      modifies tx
      ensures ok <==> VMsOnHost(old(tx.vms), host) !! tx.db.faults.update
      ensures ok ==> tx.vms == HostInvalidated(old(tx.vms), host)
    {
      ghost var vms := tx.vms;
      ghost var target := HostInvalidated(vms, host);
      ghost var done: set<string> := {};
      HostInvalidatedTable(vms, host);
      StagedStart(vms, target);
      var todo := list.Keys;
      while todo != {}
        invariant todo <= list.Keys && done == list.Keys - todo
        invariant tx.vms == Staged(vms, done, target)
        invariant done !! tx.db.faults.update
        decreases todo
      {
        var id :| id in todo;
        var vm := list[id];
        vm := vm.(revisionValidated := 0);
        var updated := tx.Update(vm);
        if updated.None? {
          assert id in VMsOnHost(vms, host);
          return false;
        }
        HostStep(vms, host, id);
        StagedStep(vms, done, target, id);
        todo := todo - {id};
        done := done + {id};
      }
      VMsOnHostListed(vms, host);
      StagedDone(vms, done, target);
      ok := true;
    }
  }

  class ClusterEventHandler {
    const db: DB

    constructor (db: DB)
      ensures this.db == db
    {
      this.db := db;
    }

    /**
     * Cluster updated: every host of the cluster is invalidated as the host
     * handler does, each in its own transaction. Nothing happens when listing
     * the hosts fails.
     */
    method Validate(cluster: Cluster)
      requires db.Valid()
      modifies db
      ensures db.Valid()
      ensures db.vms == if db.faults.list then old(db.vms) else ClusterInvalidated(old(db.vms), db.hosts, cluster.base.id, db.faults)
    {
      var rows := db.ListHosts(cluster.base.id);
      if rows.None? {
        return;
      }
      ClusterHostsListed(db.hosts, cluster.base.id);
      ClusterDone(db.vms, db.hosts, cluster.base.id, db.faults);
      ValidateHosts(rows.value);
    }

    /** The loop: each listed host is invalidated by a host handler of its own. */
    method ValidateHosts(list: map<string, Host>)
      requires db.Valid()
      requires forall id :: id in list ==> list[id].base.Pk() == id
      modifies db
      ensures db.Valid()
      ensures db.vms == ClusterStaged(old(db.vms), list.Keys, db.faults)
    {
      ghost var vms := db.vms;
      ghost var done: set<string> := {};
      ClusterStart(vms, db.faults);
      var todo := list.Keys;
      while todo != {}
        invariant todo <= list.Keys && done == list.Keys - todo
        invariant db.Valid()
        invariant db.vms == ClusterStaged(vms, done, db.faults)
        decreases todo
      {
        var hostId :| hostId in todo;
        var host := list[hostId];
        ClusterStep(vms, done, db.faults, hostId);
        var hostHandler := new HostEventHandler(db);
        var _ := hostHandler.Validate(host);
        todo := todo - {hostId};
        done := done + {hostId};
      }
    }
  }

  class NICProfileHandler {
    const db: DB

    constructor (db: DB)
      ensures this.db == db
    {
      this.db := db;
    }

    /**
     * NIC profile updated: in one transaction, every VM is visited and updated
     * once per NIC that references the profile, with `revisionValidated`
     * zeroed. Commits exactly when no store operation fails.
     */
    method Validate(profile: NICProfile) returns (committed: bool)
      requires db.Valid()
      modifies db
      ensures db.Valid()
      ensures committed == NicCommits(old(db.vms), profile.base.id, db.faults)
      ensures db.vms == if committed then NicInvalidated(old(db.vms), profile.base.id) else old(db.vms)
    {
      committed := false;
      var tx := db.Begin();
      if tx == null {
        return;
      }
      var rows := tx.IterVMs();
      if rows.None? {
        return;
      }
      var all := rows.value;
      var ok := UpdateVMs(tx, all, profile.base.id);
      if !ok {
        return;
      }
      committed := tx.Commit();
    }

    /**
     * The outer loop: every VM is visited and updated once per NIC referencing
     * the profile; it stops at the first failed update.
     */
    method UpdateVMs(tx: Tx, all: map<string, VM>, profile: string) returns (ok: bool)
      requires VMTable(all) && tx.vms == all
      modifies tx
      ensures ok <==> NicAffected(all, profile) !! tx.db.faults.update
      ensures ok ==> tx.vms == NicInvalidated(all, profile)
    {
      ghost var target := NicInvalidated(all, profile);
      ghost var done: set<string> := {};
      NicInvalidatedTable(all, profile);
      StagedStart(all, target);
      var todo := all.Keys;
      while todo != {}
        invariant todo <= all.Keys && done == all.Keys - todo
        invariant tx.vms == Staged(all, done, target)
        invariant NicAffected(all, profile) * done !! tx.db.faults.update
        decreases todo
      {
        var id :| id in todo;
        StagedStep(all, done, target, id);
        ok := UpdateNics(tx, all[id], profile);
        if !ok {
          return;
        }
        todo := todo - {id};
        done := done + {id};
      }
      StagedDone(all, done, target);
      ok := true;
    }

    /**
     * The inner loop: the VM is updated once per NIC referencing the profile,
     * each time with `revisionValidated` zeroed; it stops at the first failed update.
     */
    method UpdateNics(tx: Tx, vm0: VM, profile: string) returns (ok: bool)
      requires vm0.base.id in tx.vms && tx.vms[vm0.base.id] == vm0
      modifies tx
      ensures ok <==> NicWrites(vm0.nics, profile) == 0 || vm0.base.id !in tx.db.faults.update
      ensures ok ==> tx.vms == old(tx.vms)[vm0.base.id := Invalidated(vm0, NicWrites(vm0.nics, profile))]
    {
      var nics := vm0.nics;
      var vm := vm0;
      var j := 0;
      while j < |nics|
        invariant 0 <= j <= |nics|
        invariant vm == Invalidated(vm0, NicWrites(nics[..j], profile))
        invariant tx.vms == old(tx.vms)[vm0.base.id := vm]
        invariant NicWrites(nics[..j], profile) > 0 ==> vm0.base.id !in tx.db.faults.update
      {
        assert nics[..j + 1][..j] == nics[..j];
        if nics[j].profile == profile {
          vm := vm.(revisionValidated := 0);
          var updated := tx.Update(vm);
          if updated.None? {
            NicWritesPositive(nics, profile);
            return false;
          }
          WriteZeroed(vm0, NicWrites(nics[..j], profile));
          vm := updated.value;
        }
        j := j + 1;
      }
      assert nics[..j] == nics;
      ok := true;
    }
  }

  class DiskProfileHandler {
    const db: DB

    constructor (db: DB)
      ensures this.db == db
    {
      this.db := db;
    }

    /**
     * Disk profile updated: in one transaction, first the disks referencing
     * the profile are collected; then every VM is updated once per attachment
     * to one of them, with `revisionValidated` zeroed. Commits exactly when no
     * store operation fails.
     */
    method Validate(profile: DiskProfile) returns (committed: bool)
      requires db.Valid()
      modifies db
      ensures db.Valid()
      ensures committed == DiskCommits(old(db.vms), ProfileDisks(db.disks, profile.base.id), db.faults)
      ensures db.vms == if committed then DiskInvalidated(old(db.vms), ProfileDisks(db.disks, profile.base.id)) else old(db.vms)
    {
      committed := false;
      var tx := db.Begin();
      if tx == null {
        return;
      }
      var diskRows := tx.IterDisks();
      if diskRows.None? {
        return;
      }
      var affectedDisks := AffectedDisks(diskRows.value, profile.base.id);
      var rows := tx.IterVMs();
      if rows.None? {
        return;
      }
      var ok := UpdateVMs(tx, rows.value, affectedDisks);
      if !ok {
        return;
      }
      committed := tx.Commit();
    }

    /** The first loop: the set of disks whose profile reference is the updated profile. */
    method AffectedDisks(disks: map<string, Disk>, profile: string) returns (affectedDisks: map<string, bool>)
      requires forall d :: d in disks ==> disks[d].base.Pk() == d
      ensures affectedDisks.Keys == ProfileDisks(disks, profile)
    {
      affectedDisks := map[];
      ghost var seen: set<string> := {};
      var todo := disks.Keys;
      while todo != {}
        invariant todo <= disks.Keys && seen == disks.Keys - todo
        invariant affectedDisks.Keys == ProfileDisks(disks, profile) * seen
        decreases todo
      {
        var d :| d in todo;
        var disk := disks[d];
        if disk.profile == profile {
          affectedDisks := affectedDisks[disk.base.id := true];
        }
        todo := todo - {d};
        seen := seen + {d};
      }
    }

    /**
     * The second loop: every VM is visited and updated once per attachment to
     * an affected disk; it stops at the first failed update.
     */
    method UpdateVMs(tx: Tx, all: map<string, VM>, affectedDisks: map<string, bool>) returns (ok: bool)
      requires VMTable(all) && tx.vms == all
      modifies tx
      ensures ok <==> DiskAffected(all, affectedDisks.Keys) !! tx.db.faults.update
      ensures ok ==> tx.vms == DiskInvalidated(all, affectedDisks.Keys)
    {
      ghost var affected := affectedDisks.Keys;
      ghost var target := DiskInvalidated(all, affected);
      ghost var done: set<string> := {};
      DiskInvalidatedTable(all, affected);
      StagedStart(all, target);
      var todo := all.Keys;
      while todo != {}
        invariant todo <= all.Keys && done == all.Keys - todo
        invariant tx.vms == Staged(all, done, target)
        invariant DiskAffected(all, affected) * done !! tx.db.faults.update
        decreases todo
      {
        var id :| id in todo;
        StagedStep(all, done, target, id);
        ok := UpdateAttachments(tx, all[id], affectedDisks);
        if !ok {
          return;
        }
        todo := todo - {id};
        done := done + {id};
      }
      StagedDone(all, done, target);
      ok := true;
    }

    /**
     * The inner loop: the VM is updated once per attachment to an affected
     * disk, each time with `revisionValidated` zeroed; it stops at the first
     * failed update.
     */
    method UpdateAttachments(tx: Tx, vm0: VM, affectedDisks: map<string, bool>) returns (ok: bool)
      requires vm0.base.id in tx.vms && tx.vms[vm0.base.id] == vm0
      modifies tx
      ensures ok <==> AttachmentWrites(vm0.diskAttachments, affectedDisks.Keys) == 0 || vm0.base.id !in tx.db.faults.update
      ensures ok ==> tx.vms == old(tx.vms)[vm0.base.id := Invalidated(vm0, AttachmentWrites(vm0.diskAttachments, affectedDisks.Keys))]
    {
      var attachments := vm0.diskAttachments;
      ghost var affected := affectedDisks.Keys;
      var vm := vm0;
      var j := 0;
      while j < |attachments|
        invariant 0 <= j <= |attachments|
        invariant vm == Invalidated(vm0, AttachmentWrites(attachments[..j], affected))
        invariant tx.vms == old(tx.vms)[vm0.base.id := vm]
        invariant AttachmentWrites(attachments[..j], affected) > 0 ==> vm0.base.id !in tx.db.faults.update
      {
        assert attachments[..j + 1][..j] == attachments[..j];
        if attachments[j].disk in affectedDisks {
          vm := vm.(revisionValidated := 0);
          var updated := tx.Update(vm);
          if updated.None? {
            AttachmentWritesPositive(attachments, affected);
            return false;
          }
          WriteZeroed(vm0, AttachmentWrites(attachments[..j], affected));
          vm := updated.value;
        }
        j := j + 1;
      }
      assert attachments[..j] == attachments;
      ok := true;
    }
  }
}
