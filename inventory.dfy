/**
 * The inventory store the engine works against (the libmodel DB and its
 * transactions), abstracted to maps of records keyed by primary key.
 * Every update stores the record with its revision one higher than the
 * revision it was given (tag `incremented`), and gives that written record
 * back to the caller, as libmodel does with the model it was handed.
 * A transaction is a staged copy of the VM table, committed whole or dropped.
 * Which store operations fail is an explicit input: the `Faults` oracle.
 */
module Inventory {
  import opened Options
  import opened OvirtModel

  /**
   * The store's failures. `begin`, `list` and `commit` are store-wide: every
   * such call fails or none does. `get` and `update` name the VM ids whose
   * get or update fails.
   */
  datatype Faults = Faults(begin: bool, list: bool, commit: bool, get: set<string>, update: set<string>)

  /** A record as an update writes it: its revision one higher, nothing else changed. */
  function Written(vm: VM): (r: VM)
    ensures r.base.revision == vm.base.revision + 1
    ensures r.WithRevision(vm.base.revision) == vm
  {
    vm.WithRevision(vm.base.revision + 1)
  }

  /** Every VM is stored under its primary key and carries a store-assigned, non-negative revision. */
  ghost predicate VMTable(vms: map<string, VM>) {
    forall id :: id in vms ==> vms[id].base.Pk() == id && vms[id].base.revision >= 0
  }

  /** The VMs whose host reference is `host`, as listed by a host query. */
  function VMsOf(vms: map<string, VM>, host: string): (r: map<string, VM>)
    ensures r.Keys <= vms.Keys
    ensures forall id :: id in r ==> r[id] == vms[id] && r[id].host == host
    ensures forall id :: id in vms && vms[id].host == host ==> id in r
  {
    map id | id in vms && vms[id].host == host :: vms[id]
  }

  /** The hosts whose cluster reference is `cluster`, as listed by a cluster query. */
  function HostsOf(hosts: map<string, Host>, cluster: string): (r: map<string, Host>)
    ensures r.Keys <= hosts.Keys
    ensures forall id :: id in r ==> r[id] == hosts[id] && r[id].cluster == cluster
    ensures forall id :: id in hosts && hosts[id].cluster == cluster ==> id in r
  {
    map id | id in hosts && hosts[id].cluster == cluster :: hosts[id]
  }

  /** The search query's predicate: unvalidated revision, or a verdict from another policy version. */
  predicate NeedsValidation(vm: VM, version: int) {
    vm.base.revision != vm.revisionValidated || vm.policyVersion != version
  }

  /** The rows the search query yields. */
  function StaleRows(vms: map<string, VM>, version: int): map<string, VM> {
    map id | id in vms && NeedsValidation(vms[id], version) :: vms[id]
  }

  class DB {
    var vms: map<string, VM>
    const hosts: map<string, Host>
    const disks: map<string, Disk>
    const faults: Faults

    ghost predicate Valid()
      reads this
    {
      && VMTable(vms)
      && (forall id :: id in hosts ==> hosts[id].base.Pk() == id)
      && (forall id :: id in disks ==> disks[id].base.Pk() == id)
    }

    constructor (vms: map<string, VM>, hosts: map<string, Host>, disks: map<string, Disk>, faults: Faults)
      ensures this.vms == vms && this.hosts == hosts && this.disks == disks && this.faults == faults
    {
      this.vms := vms;
      this.hosts := hosts;
      this.disks := disks;
      this.faults := faults;
    }

    /** Begin a transaction: a staged copy of the VM table. */
    method Begin() returns (tx: Tx?)
      ensures (tx == null) == faults.begin
      ensures tx != null ==> fresh(tx) && tx.db == this && tx.vms == vms
    {
      if faults.begin {
        tx := null;
      } else {
        tx := new Tx(this);
      }
    }

    /** List the hosts whose cluster reference equals `cluster`, keyed by primary key. */
    method ListHosts(cluster: string) returns (rows: Option<map<string, Host>>)
      ensures rows.None? == faults.list
      ensures rows.Some? ==> rows.value == HostsOf(hosts, cluster)
    {
      if faults.list {
        rows := None;
      } else {
        rows := Some(HostsOf(hosts, cluster));
      }
    }

    /**
     * Iterate the VMs matching the scan predicate: revision differs from the
     * validated revision, or the policy version differs from `version`.
     */
    method IterStale(version: int) returns (rows: Option<map<string, VM>>)
      ensures rows.None? == faults.list
      ensures rows.Some? ==> rows.value == StaleRows(vms, version)
    {
      if faults.list {
        rows := None;
      } else {
        rows := Some(StaleRows(vms, version));
      }
    }
  }

  class Tx {
    const db: DB
    /** The staged VM table. */
    var vms: map<string, VM>

    constructor (db: DB)
      ensures this.db == db && vms == db.vms
    {
      this.db := db;
      vms := db.vms;
    }

    /** Fetch a VM by primary key, as staged in this transaction. */
    method Get(id: string) returns (r: Option<VM>)
      ensures r.Some? <==> id in vms && id !in db.faults.get
      ensures r.Some? ==> r.value == vms[id]
    {
      if id in vms && id !in db.faults.get {
        r := Some(vms[id]);
      } else {
        r := None;
      }
    }

    /** List the staged VMs whose host reference equals `host`. */
    method ListVMs(host: string) returns (rows: Option<map<string, VM>>)
      ensures rows.None? == db.faults.list
      ensures rows.Some? ==> rows.value == VMsOf(vms, host)
    {
      if db.faults.list {
        rows := None;
      } else {
        rows := Some(VMsOf(vms, host));
      }
    }

    /** Iterate every staged VM. */
    method IterVMs() returns (rows: Option<map<string, VM>>)
      ensures rows.None? == db.faults.list
      ensures rows.Some? ==> rows.value == vms
    {
      rows := if db.faults.list then None else Some(vms);
    }

    /** Iterate every disk. */
    method IterDisks() returns (rows: Option<map<string, Disk>>)
      ensures rows.None? == db.faults.list
      ensures rows.Some? ==> rows.value == db.disks
    {
      rows := if db.faults.list then None else Some(db.disks);
    }

    /**
     * Update a staged VM: it is stored with its revision incremented, and the
     * written record is given back. Fails for a missing key or a faulty id.
     */
    method Update(vm: VM) returns (r: Option<VM>)
      modifies this
      ensures r.Some? <==> vm.base.Pk() in old(vms) && vm.base.Pk() !in db.faults.update
      ensures r.Some? ==> r.value == Written(vm) && vms == old(vms)[vm.base.Pk() := Written(vm)]
      ensures r.None? ==> vms == old(vms)
    {
      var id := vm.base.Pk();
      if id in vms && id !in db.faults.update {
        vms := vms[id := Written(vm)];
        r := Some(Written(vm));
      } else {
        r := None;
      }
    }

    /** Commit: the staged table replaces the store's, or nothing changes. */
    method Commit() returns (ok: bool)
      modifies db
      ensures ok == !db.faults.commit
      ensures db.vms == if ok then vms else old(db.vms)
    {
      ok := !db.faults.commit;
      if ok {
        db.vms := vms;
      }
    }
  }
}
