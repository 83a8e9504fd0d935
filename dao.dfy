/** The replication store: the target, policy and job tables and the
    externally owned scan-job table, with the operations that write them.
    The reads are the functions of Targets, Policies and Jobs applied to
    the store's tables. Keys are handed out by per-table counters, as the
    tables' auto-increment keys are. */
module Dao {
  import opened Seqs
  import opened Models
  import opened TagCodec
  import Targets
  import Policies
  import Jobs

  /** Every target and policy key is below the next key of its table. */
  ghost predicate KeysBelow(targets: seq<RepTarget>, policies: seq<RepPolicy>, nt: int, np: int) {
    && (forall t :: t in targets ==> t.id < nt)
    && (forall p :: p in policies ==> p.id < np)
  }

  class Store {
    var targets: seq<RepTarget>
    var policies: seq<RepPolicy>
    var jobs: seq<RepJob>
    var scanJobs: seq<ScanJob>
    var nextTargetId: int
    var nextPolicyId: int
    var nextJobId: int

    /** Every key in a table is below that table's next key, and no stored
        job holds a tag list (it is not a column). */
    ghost predicate Valid()
      reads this
    {
      && KeysBelow(targets, policies, nextTargetId, nextPolicyId)
      && Jobs.StoredRows(jobs, nextJobId)
    }

    /** An empty store beside the given scan-job table. */
    constructor (scans: seq<ScanJob>)
      ensures Valid()
      ensures targets == [] && policies == [] && jobs == [] && scanJobs == scans
    {
      targets, policies, jobs, scanJobs := [], [], [], scans;
      nextTargetId, nextPolicyId, nextJobId := 1, 1, 1;
    }

    /** `AddRepTarget`: inserts the target under a fresh key. */
    method AddRepTarget(target: RepTarget) returns (id: int)
      requires Valid()
      modifies this
      ensures Valid()
      ensures id == old(nextTargetId) && Targets.GetRepTarget(old(targets), id).None?
      ensures targets == old(targets) + [target.(id := id)]
      ensures Targets.GetRepTarget(targets, id) == Some(target.(id := id))
      ensures policies == old(policies) && jobs == old(jobs) && scanJobs == old(scanJobs)
      ensures nextPolicyId == old(nextPolicyId) && nextJobId == old(nextJobId)
    {
      id := nextTargetId;
      targets := targets + [target.(id := id)];
      nextTargetId := nextTargetId + 1;
      FirstWhereAt(targets, (t: RepTarget) => t.id == id, |targets| - 1);
    }

    /** `DeleteRepTarget`: removes the row with that key, if any. */
    method DeleteRepTarget(id: int)
      requires Valid()
      modifies this`targets
      ensures Valid()
      ensures targets == Targets.DeleteTargetRow(old(targets), id)
      ensures Targets.GetRepTarget(targets, id).None?
    {
      targets := Targets.DeleteTargetRow(targets, id);
    }

    /** `UpdateRepTarget`: rewrites URL, name, credentials, insecure flag and
        update time of the row with the target's key; a missing row is not
        an error and nothing changes. */
    method UpdateRepTarget(target: RepTarget, now: int)
      requires Valid()
      modifies this`targets
      ensures Valid()
      ensures targets == Targets.UpdateTargetColumns(old(targets), target, now)
      ensures Targets.GetRepTarget(old(targets), target.id).None? ==> targets == old(targets)
      ensures Targets.GetRepTarget(old(targets), target.id).Some? ==>
        Targets.GetRepTarget(targets, target.id) ==
          Some(Targets.UpdatedTarget(Targets.GetRepTarget(old(targets), target.id).value, target, now))
    {
      if Targets.GetRepTarget(targets, target.id).Some? {
        Targets.UpdateThenGetTarget(targets, target, now);
      }
      targets := Targets.UpdateTargetColumns(targets, target, now);
      forall t | t in targets ensures t.id < nextTargetId {
        var k :| 0 <= k < |targets| && targets[k] == t;
        assert old(targets)[k] in old(targets);
      }
    }

    /** `AddRepPolicy`: inserts an enabled, not deleted policy created and
        updated at `now` under a fresh key. */
    method AddRepPolicy(policy: RepPolicy, now: int) returns (id: int)
      requires Valid()
      modifies this
      ensures Valid()
      ensures id == old(nextPolicyId)
      ensures policies == old(policies) + [Policies.NewPolicyRow(policy, id, now)]
      ensures Policies.GetRepPolicy(policies, id) == Some(Policies.NewPolicyRow(policy, id, now))
      ensures targets == old(targets) && jobs == old(jobs) && scanJobs == old(scanJobs)
      ensures nextTargetId == old(nextTargetId) && nextJobId == old(nextJobId)
    {
      id := nextPolicyId;
      Policies.AddThenGetPolicy(policies, policy, id, now);
      policies := policies + [Policies.NewPolicyRow(policy, id, now)];
      nextPolicyId := nextPolicyId + 1;
    }

    /** `UpdateRepPolicy`: rewrites project, target, name, description,
        trigger, filters, replicate-deletion flag and update time of the row
        with the policy's key. */
    method UpdateRepPolicy(policy: RepPolicy, now: int)
      requires Valid()
      modifies this`policies
      ensures Valid()
      ensures policies == Policies.UpdatePolicyColumns(old(policies), policy, now)
      ensures Policies.GetRepPolicy(old(policies), policy.id).Some? ==>
        Policies.GetRepPolicy(policies, policy.id) ==
          Some(Policies.UpdatedPolicy(Policies.GetRepPolicy(old(policies), policy.id).value, policy, now))
    {
      if Policies.GetRepPolicy(policies, policy.id).Some? {
        Policies.UpdateThenGetPolicy(policies, policy, now);
      }
      policies := Policies.UpdatePolicyColumns(policies, policy, now);
      forall p | p in policies ensures p.id < nextPolicyId {
        var k :| 0 <= k < |policies| && policies[k] == p;
        assert old(policies)[k] in old(policies);
      }
    }

    /** `DeleteRepPolicy`: sets the deleted flag of the row with that key.
        The update time `now` is computed by the caller's clock but not
        written: only the deleted flag is. Jobs are not touched. */
    method DeleteRepPolicy(id: int, now: int)
      requires Valid()
      modifies this`policies
      ensures Valid()
      ensures policies == Policies.SoftDeletePolicy(old(policies), id)
      ensures Policies.GetRepPolicy(policies, id).None?
      ensures forall other :: other != id ==>
        Policies.GetRepPolicy(policies, other) == Policies.GetRepPolicy(old(policies), other)
      ensures forall pid :: Jobs.GetRepJobByPolicy(jobs, pid) == Jobs.GetRepJobByPolicy(old(jobs), pid)
    {
      forall other | other != id
        ensures Policies.GetRepPolicy(Policies.SoftDeletePolicy(policies, id), other) == Policies.GetRepPolicy(policies, other)
      {
        Policies.SoftDeleteKeepsOthers(policies, id, other);
      }
      policies := Policies.SoftDeletePolicy(policies, id);
      forall p | p in policies ensures p.id < nextPolicyId {
        var k :| 0 <= k < |policies| && policies[k] == p;
        assert old(policies)[k] in old(policies);
      }
    }

    /** `AddRepJob`: inserts the job under a fresh key with status `pending`
        when none is given and the joined tag list in `tags` when the list
        is not empty. */
    method AddRepJob(job: RepJob) returns (id: int)
      requires Valid()
      modifies this
      ensures Valid()
      ensures id == old(nextJobId)
      ensures jobs == old(jobs) + [Jobs.NewJobRow(job, id)]
      ensures Jobs.GetRepJob(jobs, id, false).Some?
      ensures Jobs.GetRepJob(jobs, id, false).value.status ==
        (if job.status == "" then JobPending else job.status)
      ensures (CommaFree(job.tagList) && |job.tagList| > 0 &&
               forall k :: 0 <= k < |job.tagList| ==> job.tagList[k] != "") ==>
        Jobs.GetRepJob(jobs, id, false).value.tagList == job.tagList
      ensures targets == old(targets) && policies == old(policies) && scanJobs == old(scanJobs)
      ensures nextTargetId == old(nextTargetId) && nextPolicyId == old(nextPolicyId)
    {
      id := nextJobId;
      Jobs.InsertKeepsStoredRows(jobs, id, job);
      Jobs.AddThenGetJob(jobs, job, id);
      jobs := jobs + [Jobs.NewJobRow(job, id)];
      nextJobId := nextJobId + 1;
      assert Jobs.StoredRows(jobs, nextJobId);
      assert KeysBelow(targets, policies, nextTargetId, nextPolicyId);
    }

    /** `DeleteRepJob`: removes the row with that key, if any. */
    method DeleteRepJob(id: int)
      requires Valid()
      modifies this`jobs
      ensures Valid()
      ensures jobs == Jobs.DeleteJobRow(old(jobs), id)
      ensures Jobs.GetRepJob(jobs, id, false).None?
    {
      jobs := Jobs.DeleteJobRow(jobs, id);
    }

    /** `UpdateRepJobStatus`: sets status and update time of the row with
        that key. When no row has the key nothing changes and no error is
        returned (the Go function only logs a warning); an error is returned only
        when the storage call itself fails, and then nothing changes. */
    method UpdateRepJobStatus(id: int, status: string, now: int, fails: bool) returns (err: bool)
      requires Valid()
      modifies this`jobs
      ensures Valid()
      ensures err == fails
      ensures fails ==> jobs == old(jobs)
      ensures !fails ==> jobs == Jobs.SetJobStatus(old(jobs), id, status, now)
      ensures Jobs.RowsWithId(old(jobs), id) == 0 ==> jobs == old(jobs)
      ensures !fails && Jobs.GetRepJob(old(jobs), id, false).Some? ==>
        Jobs.GetRepJob(jobs, id, false) ==
          Some(Jobs.GetRepJob(old(jobs), id, false).value.(status := status, updateTime := now))
    {
      if fails {
        return true;
      }
      ghost var before := jobs;
      if Jobs.RowsWithId(before, id) == 0 {
        Jobs.SetStatusOfMissingJob(before, id, status, now);
      }
      if Jobs.GetRepJob(before, id, false).Some? {
        Jobs.SetStatusThenGet(before, id, status, now);
      }
      Jobs.UpdatesKeepStoredRows(jobs, nextJobId, id, status, now);
      jobs := Jobs.SetJobStatus(jobs, id, status, now);
      assert Jobs.StoredRows(jobs, nextJobId);
      assert KeysBelow(targets, policies, nextTargetId, nextPolicyId);
      err := false;
    }

    /** `ResetRunningJobs`: the startup recovery pass. All running
        replication jobs become pending at `now1`, then all running scan jobs
        become pending at `now2`. If the first update fails nothing changes;
        if the second fails the first stays applied; either failure is
        returned. */
    method ResetRunningJobs(now1: int, now2: int, firstFails: bool, secondFails: bool) returns (err: bool)
      requires Valid()
      modifies this`jobs, this`scanJobs
      ensures Valid()
      ensures err == (firstFails || secondFails)
      ensures firstFails ==> jobs == old(jobs) && scanJobs == old(scanJobs)
      ensures !firstFails ==> jobs == Jobs.ResetRunningRepJobs(old(jobs), now1)
      ensures !firstFails && secondFails ==> scanJobs == old(scanJobs)
      ensures !err ==> scanJobs == Jobs.ResetRunningScanJobs(old(scanJobs), now2)
      ensures !err ==> (forall j :: j in jobs ==> j.status != JobRunning) &&
                       (forall s :: s in scanJobs ==> s.status != JobRunning)
    {
      if firstFails {
        return true;
      }
      Jobs.UpdatesKeepStoredRows(jobs, nextJobId, 0, "", now1);
      jobs := Jobs.ResetRunningRepJobs(jobs, now1);
      if secondFails {
        return true;
      }
      scanJobs := Jobs.ResetRunningScanJobs(scanJobs, now2);
      err := false;
    }
  }
}
