/**
 * The oVirt inventory records that take part in VM policy validation
 * (pkg/controller/provider/model/ovirt/model.go). Only the fields the
 * validation engine reads or writes are kept; the VM's descriptive fields
 * (CPU, memory, devices, ...) play no part and are left out.
 */
module OvirtModel {

  /** A policy finding. Its structure belongs to the policy rules, not to this engine. */
  type Concern = string

  /** Fields every oVirt record embeds. The store assigns `revision` (tag `incremented`). */
  datatype Base = Base(id: string, name: string, description: string, revision: int) {

    /** The primary key. */
    function Pk(): string { id }

    /** The string representation. */
    function String(): string { id }
  }

  /** The primary key identifies a record by its ID, and the string form is that same key. */
  lemma PkIdentifies(a: Base, b: Base)
    ensures a.Pk() == a.id && a.String() == a.id
    ensures a.String() == a.Pk()
    ensures a.Pk() == b.Pk() <==> a.id == b.id
  {
  }

  datatype Cluster = Cluster(base: Base, dataCenter: string)

  datatype Host = Host(base: Base, cluster: string)

  datatype NICProfile = NICProfile(base: Base, network: string)

  datatype DiskProfile = DiskProfile(base: Base, storageDomain: string)

  datatype Disk = Disk(base: Base, profile: string, storageDomain: string)

  datatype NIC = NIC(id: string, name: string, profile: string)

  datatype DiskAttachment = DiskAttachment(id: string, disk: string)

  datatype VM = VM(
    base: Base,
    cluster: string,
    host: string,
    revisionValidated: int,
    policyVersion: int,
    concerns: seq<Concern>,
    diskAttachments: seq<DiskAttachment>,
    nics: seq<NIC>)
  {
    /** Whether the current revision has been validated. */
    predicate Validated() {
      revisionValidated == base.revision
    }

    /** This VM with its revision replaced. */
    function WithRevision(revision: int): VM {
      this.(base := base.(revision := revision))
    }
  }

  /**
   * Content equality: `revisionValidated`, `policyVersion` and `concerns`
   * are tagged eq:"-" and take no part in it.
   */
  predicate SameContent(a: VM, b: VM) {
    a.(revisionValidated := 0, policyVersion := 0, concerns := [])
      == b.(revisionValidated := 0, policyVersion := 0, concerns := [])
  }

  /** Content equality is equality of every field not tagged eq:"-". */
  lemma SameContentFields(a: VM, b: VM)
    ensures SameContent(a, b) <==>
      a.base == b.base && a.cluster == b.cluster && a.host == b.host
      && a.diskAttachments == b.diskAttachments && a.nics == b.nics
  {
    if SameContent(a, b) {
      var a0 := a.(revisionValidated := 0, policyVersion := 0, concerns := []);
      var b0 := b.(revisionValidated := 0, policyVersion := 0, concerns := []);
      assert a0.base == b0.base && a0.nics == b0.nics;
    }
  }

  /**
   * A VM is validated exactly when its validated revision is its current
   * one: setting it to the revision validates, and zeroing it on a VM with
   * a positive revision makes the VM stale.
   */
  lemma ValidatedByRevision(vm: VM)
    ensures vm.Validated() <==> vm.revisionValidated == vm.base.revision
    ensures vm.(revisionValidated := vm.base.revision).Validated()
    ensures vm.base.revision > 0 ==> !vm.(revisionValidated := 0).Validated()
  {
  }
}
