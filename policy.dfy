/**
 * The policy evaluation agent, seen from the engine: a version lookup that
 * may fail and a task submission that may fail. The agent's evaluation
 * itself is not part of this model; its results reach the engine as
 * completed `Task`s (see the harvest step).
 */
module Policy {
  import opened Options
  import opened OvirtModel

  /** The rule path every VM task is submitted with. */
  const ValidatePath := "/v1/data/io/konveyor/forklift/vmware/validate"

  /** What a submitted task carries: rule path, VM id and the VM revision at submission. */
  datatype Submission = Submission(path: string, id: string, revision: int)

  /** A completed task as posted to the result channel: a verdict, or an error. */
  datatype Task = Task(id: string, revision: int, version: int, concerns: seq<Concern>, error: Option<string>)

  class Agent {
    /** The advertised policy version; None when the version lookup fails. */
    var version: Option<int>
    /** VM ids whose submission fails. */
    var rejects: set<string>
    /** Every submission the agent accepted (order is not promised). */
    var submitted: multiset<Submission>

    constructor (version: Option<int>, rejects: set<string>)
      ensures this.version == version && this.rejects == rejects && submitted == multiset{}
    {
      this.version := version;
      this.rejects := rejects;
      submitted := multiset{};
    }

    method Version() returns (v: Option<int>)
      ensures v == version
    {
      v := version;
    }

    /** Submit a task; `ok` is false when the agent refuses it. */
    method Submit(s: Submission) returns (ok: bool)
      modifies this
      ensures ok == (s.id !in rejects)
      ensures submitted == old(submitted) + (if ok then multiset{s} else multiset{})
      ensures version == old(version) && rejects == old(rejects)
    {
      ok := s.id !in rejects;
      if ok {
        submitted := submitted + multiset{s};
      }
    }
  }
}
