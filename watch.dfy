/**
 * The VM validation coordinator and result harvester
 * (VMEventHandler in pkg/controller/provider/container/ovirt/watch.go).
 * Each iteration of the search loop and of the harvest loop is one step
 * method taking its wakeup and the clock; cancellation is a flag.
 */
module OvirtWatch {
  import opened Options
  import opened OvirtModel
  import opened Inventory
  import opened Policy
  import opened ValidationSpec

  /** What wakes the search loop: its timer, a reported event, or the input channel closing. */
  datatype RunWakeup = Tick | Reported(event: ReportedEvent) | InputClosed

  class VMEventHandler {
    const db: DB
    const agent: Agent
    /** The search interval (the policy agent's search-interval setting), in nanoseconds. */
    const interval: int
    /** The handler's context is canceled. */
    var canceled: bool
    /** Reported VM events: VM id to revision. */
    var reported: map<string, int>
    /** Time of the last search. */
    var lastSearch: int
    /** The harvest loop's pending results, delay and time of the last flush. */
    var batch: seq<Task>
    var delay: int
    var mark: int

    /** The harvest loop's state. */
    function Harvest(): Harvester
      reads this
    {
      Harvester(batch, delay, mark)
    }

    ghost predicate Valid()
      reads this, db
    {
      db.Valid() && HarvestInvariant(Harvest())
    }

    /** Watch started: not canceled, and the harvest loop at its start. */
    constructor Started(db: DB, agent: Agent, interval: int, now: int)
      requires db.Valid()
      ensures Valid()
      ensures this.db == db && this.agent == agent && this.interval == interval
      ensures !canceled && reported == map[] && lastSearch == now
      ensures Harvest() == HarvestStart(now)
    {
      this.db := db;
      this.agent := agent;
      this.interval := interval;
      canceled := false;
      reported := map[];
      lastSearch := now;
      batch := [];
      delay := Long;
      mark := now;
    }

    /** Watch ended: the context is canceled; nothing else changes. */
    method End()
      modifies this
      ensures canceled
      ensures reported == old(reported) && lastSearch == old(lastSearch) && Harvest() == old(Harvest())
    {
      canceled := true;
    }

    /** Forget the reported events and take `now` as the time of the last search. */
    method Reset(now: int)
      modifies this
      ensures reported == map[] && lastSearch == now
      ensures canceled == old(canceled) && Harvest() == old(Harvest())
    {
      reported := map[];
      lastSearch := now;
    }

    /** Submit a validation task for the VM at its current revision. */
    method Validate(vm: VM) returns (ok: bool)
      modifies agent
      ensures ok == (vm.base.id !in agent.rejects)
      ensures agent.submitted == old(agent.submitted) + (if ok then multiset{SubmissionOf(vm)} else multiset{})
      ensures agent.version == old(agent.version) && agent.rejects == old(agent.rejects)
    {
      ok := agent.Submit(Submission(ValidatePath, vm.base.id, vm.base.revision));
    }

    /**
     * VM created: unless canceled, a VM that is not validated is submitted,
     * and reported (the returned event) only when the submission succeeded.
     */
    method Created(vm: VM) returns (event: Option<ReportedEvent>)
      modifies agent
      ensures event == EventReport(vm, canceled, agent.rejects)
      ensures agent.submitted == old(agent.submitted) + (if event.Some? then multiset{SubmissionOf(vm)} else multiset{})
      ensures agent.version == old(agent.version) && agent.rejects == old(agent.rejects)
    {
      event := None;
      if canceled {
        return;
      }
      if !vm.Validated() {
        var ok := Validate(vm);
        if ok {
          event := Some(ReportedEvent(vm.base.id, vm.base.revision));
        }
      }
    }

    /** VM updated: the same as Created, for the updated VM. */
    method Updated(vm: VM) returns (event: Option<ReportedEvent>)
      modifies agent
      ensures event == EventReport(vm, canceled, agent.rejects)
      ensures agent.submitted == old(agent.submitted) + (if event.Some? then multiset{SubmissionOf(vm)} else multiset{})
      ensures agent.version == old(agent.version) && agent.rejects == old(agent.rejects)
    {
      event := None;
      if canceled {
        return;
      }
      if !vm.Validated() {
        var ok := Validate(vm);
        if ok {
          event := Some(ReportedEvent(vm.base.id, vm.base.revision));
        }
      }
    }

    /**
     * Search: submit every stored VM that needs validation and was not
     * reported at its current revision. Nothing is submitted when the
     * version lookup fails, the handler is canceled or the query fails.
     */
    method List()
      requires db.Valid()
      modifies agent
      ensures agent.submitted == old(agent.submitted)
        + SearchEffect(db.vms, old(agent.version), canceled, db.faults.list, reported, old(agent.rejects))
      ensures agent.version == old(agent.version) && agent.rejects == old(agent.rejects)
    {
      var version := agent.Version();
      if version.None? {
        return;
      }
      if canceled {
        return;
      }
      var rows := db.IterStale(version.value);
      if rows.None? {
        return;
      }
      var stale := rows.value;
      StaleRowsTable(db.vms, version.value);
      ghost var submitted0 := agent.submitted;
      ghost var rejects := agent.rejects;
      ghost var done: set<string> := {};
      ghost var accepted: multiset<Submission> := multiset{};
      var todo := stale.Keys;
      while todo != {}
        invariant todo <= stale.Keys && done == stale.Keys - todo
        invariant accepted == multiset(SearchSubmissions(stale, done, reported, rejects))
        invariant agent.submitted == submitted0 + accepted
        invariant agent.version == old(agent.version) && agent.rejects == rejects
        decreases todo
      {
        var id :| id in todo;
        var vm := stale[id];
        SearchStep(stale, done, id, reported, rejects);
        if !(vm.base.id in reported && vm.base.revision == reported[vm.base.id]) {
          var ok := Validate(vm);
          if ok {
            accepted := accepted + multiset{SubmissionOf(vm)};
          }
        }
        todo := todo - {id};
        done := done + {id};
      }
    }

    /** The search loop's start: an immediate search, then a reset. */
    method RunStart(now: int)
      requires db.Valid()
      modifies this, agent
      ensures agent.submitted == old(agent.submitted)
        + SearchEffect(db.vms, old(agent.version), canceled, db.faults.list, old(reported), old(agent.rejects))
      ensures reported == map[] && lastSearch == now
      ensures canceled == old(canceled) && Harvest() == old(Harvest())
      ensures agent.version == old(agent.version) && agent.rejects == old(agent.rejects)
    {
      List();
      Reset(now);
    }

    /**
     * One iteration of the search loop at time `now`. A reported event is
     * recorded; then, when more than the interval has passed since the last
     * search, a search runs with the events recorded so far and is followed
     * by a reset. The loop stops when the input channel is closed.
     */
    method RunStep(w: RunWakeup, now: int) returns (open: bool)
      requires db.Valid()
      modifies this, agent
      ensures open == !w.InputClosed?
      ensures var seen := if w.Reported? then old(reported)[w.event.id := w.event.revision] else old(reported);
        var due := open && now - old(lastSearch) > interval;
        && (due ==>
              && reported == map[] && lastSearch == now
              && agent.submitted == old(agent.submitted)
                 + SearchEffect(db.vms, old(agent.version), canceled, db.faults.list, seen, old(agent.rejects)))
        && (open && !due ==> reported == seen && lastSearch == old(lastSearch) && agent.submitted == old(agent.submitted))
        && (!open ==> reported == old(reported) && lastSearch == old(lastSearch) && agent.submitted == old(agent.submitted))
      ensures canceled == old(canceled) && Harvest() == old(Harvest())
      ensures agent.version == old(agent.version) && agent.rejects == old(agent.rejects)
    {
      match w {
        case InputClosed =>
          return false;
        case Tick =>
        case Reported(event) =>
          reported := reported[event.id := event.revision];
      }
      open := true;
      if now - lastSearch > interval {
        List();
        Reset(now);
      }
    }

    /**
     * Record a batch of task results in one transaction: failed tasks,
     * failed gets, tasks for a superseded revision and failed updates are
     * skipped; the transaction commits whole or not at all.
     */
    method Validated(batch: seq<Task>)
      requires db.Valid()
      modifies db
      ensures db.Valid()
      ensures db.vms == ValidatedEffect(old(db.vms), batch, db.faults)
    {
      if |batch| == 0 {
        return;
      }
      var tx := db.Begin();
      if tx == null {
        return;
      }
      var i := 0;
      while i < |batch|
        invariant 0 <= i <= |batch|
        invariant tx.db == db
        invariant tx.vms == ApplyBatch(db.vms, batch[..i], db.faults)
        invariant VMTable(tx.vms)
        modifies tx
      {
        assert batch[..i + 1][..i] == batch[..i];
        RecordTask(tx, batch[i]);
        BatchKeepsTable(db.vms, batch[..i + 1], db.faults);
        i := i + 1;
      }
      assert batch[..i] == batch;
      var _ := tx.Commit();
      BatchKeepsTable(old(db.vms), batch, db.faults);
    }

    /**
     * The loop body of Validated: a successful task whose VM can be read at
     * the task's revision is recorded; anything else is skipped.
     */
    method RecordTask(tx: Tx, task: Task)
      requires VMTable(tx.vms)
      modifies tx
      ensures tx.vms == CommitTask(old(tx.vms), task, tx.db.faults)
    {
      if task.error.None? {
        var got := tx.Get(task.id);
        if got.Some? {
          var latest := got.value;
          if task.revision == latest.base.revision {
            latest := latest.(policyVersion := task.version, revisionValidated := latest.base.revision, concerns := task.concerns);
            latest := latest.WithRevision(latest.base.revision - 1);
            var _ := tx.Update(latest);
          }
        }
      }
    }

    /**
     * One iteration of the harvest loop at time `now`: the loop state moves
     * as HarvestNext says, and a flushed batch is recorded by Validated.
     */
    method HarvestStep(w: HarvestWakeup, now: int) returns (open: bool)
      requires Valid()
      modifies this, db
      ensures Valid()
      ensures var o := HarvestNext(old(Harvest()), w, now);
        && open == o.open && Harvest() == o.next
        && db.vms == (if o.flushed.Some? then ValidatedEffect(old(db.vms), o.flushed.value, db.faults) else old(db.vms))
      ensures canceled == old(canceled) && reported == old(reported) && lastSearch == old(lastSearch)
    {
      HarvestIteration(Harvest(), w, now);
      match w {
        case ResultsClosed =>
          return false;
        case Timeout =>
        case Arrived(task) =>
          batch := batch + [task];
          delay := Short;
      }
      open := true;
      if now - mark > delay || |batch| > MaxBatch {
        Validated(batch);
        batch := [];
        delay := Long;
        mark := now;
      }
    }
  }
}
