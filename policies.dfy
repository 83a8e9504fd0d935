/** Reads, listing and column updates on the `replication_policy` table.
    A policy is soft-deleted: `deleted` is set to 1 and every read below
    only sees rows whose `deleted` is 0. */
module Policies {
  import opened Seqs
  import opened Models
  import Targets

  /** A policy that has not been soft-deleted. */
  predicate Active(p: RepPolicy) {
    p.deleted == 0
  }

  /** The active policy with key `id`, or None. */
  function GetRepPolicy(policies: seq<RepPolicy>, id: int): (r: Option<RepPolicy>)
    ensures r.Some? ==> r.value in policies && r.value.id == id && Active(r.value)
    ensures r.None? <==> forall k :: 0 <= k < |policies| ==> !(policies[k].id == id && Active(policies[k]))
  {
    FirstWhere(policies, (p: RepPolicy) => Active(p) && p.id == id)
  }

  /** The first active policy named exactly `name`, or None. */
  function GetRepPolicyByName(policies: seq<RepPolicy>, name: string): (r: Option<RepPolicy>)
    ensures r.Some? ==> r.value in policies && r.value.name == name && Active(r.value)
    ensures r.None? <==> forall k :: 0 <= k < |policies| ==> !(policies[k].name == name && Active(policies[k]))
  {
    FirstWhere(policies, (p: RepPolicy) => Active(p) && p.name == name)
  }

  /** The active policies of a project. */
  function GetRepPolicyByProject(policies: seq<RepPolicy>, projectId: int): (r: seq<RepPolicy>)
    ensures forall p :: p in r <==> p in policies && Active(p) && p.projectId == projectId
  {
    Select(policies, (p: RepPolicy) => Active(p) && p.projectId == projectId)
  }

  /** The active policies that replicate to a target. */
  function GetRepPolicyByTarget(policies: seq<RepPolicy>, targetId: int): (r: seq<RepPolicy>)
    ensures forall p :: p in r <==> p in policies && Active(p) && p.targetId == targetId
  {
    Select(policies, (p: RepPolicy) => Active(p) && p.targetId == targetId)
  }

  /** The active policies of a project that replicate to a target. */
  function GetRepPolicyByProjectAndTarget(policies: seq<RepPolicy>, projectId: int, targetId: int): (r: seq<RepPolicy>)
    ensures forall p :: p in r <==> p in policies && Active(p) && p.projectId == projectId && p.targetId == targetId
  {
    Select(policies, (p: RepPolicy) => Active(p) && p.projectId == projectId && p.targetId == targetId)
  }

  /** The filter of the policy count: active, name containing `name` when
      it is given, project `projectId` when it is not 0. */
  function TotalFilter(name: string, projectId: int): RepPolicy -> bool {
    (p: RepPolicy) => Active(p) && (|name| == 0 || Contains(p.name, name)) &&
                      (projectId == 0 || p.projectId == projectId)
  }

  /** The number of active policies matching the optional name and project filters. */
  function GetTotalOfRepPolicies(policies: seq<RepPolicy>, name: string, projectId: int): (n: nat)
  {
    CountWhere(policies, TotalFilter(name, projectId))
  }

  /** The `where` clause of the policy listing, built case by case as the
      listing query builds it. */
  function ListingFilter(name: string, projectId: int): RepPolicy -> bool {
    if |name| != 0 && projectId != 0 then
      (p: RepPolicy) => Active(p) && Contains(p.name, name) && p.projectId == projectId
    else if |name| != 0 then
      (p: RepPolicy) => Active(p) && Contains(p.name, name)
    else if projectId != 0 then
      (p: RepPolicy) => Active(p) && p.projectId == projectId
    else
      (p: RepPolicy) => Active(p)
  }

  /** The case-by-case listing filter and the conjunctive count filter agree. */
  lemma ListingFilterIsTotalFilter(name: string, projectId: int, p: RepPolicy)
    ensures ListingFilter(name, projectId)(p) == TotalFilter(name, projectId)(p)
  {
  }

  /** The `order by creation_time` key. */
  function CreationKey(p: RepPolicy): int {
    p.creationTime
  }

  /** Whether a job is counted in its policy's `error_job_count`. */
  function ErrorJob(policyId: int): RepJob -> bool {
    (j: RepJob) => j.policyId == policyId && j.status in ErrorStatuses
  }

  /** The number of jobs of a policy whose status is `error` or `retrying`. */
  function ErrorJobCount(jobs: seq<RepJob>, policyId: int): nat {
    CountWhere(jobs, ErrorJob(policyId))
  }

  /** The `error_job_count` of a policy is the number of its failed jobs. */
  lemma ErrorJobCountIsFailedJobs(jobs: seq<RepJob>, policyId: int)
    ensures ErrorJobCount(jobs, policyId) == |Select(jobs, ErrorJob(policyId))|
    ensures forall j :: j in Select(jobs, ErrorJob(policyId)) <==>
      j in jobs && j.policyId == policyId && (j.status == JobError || j.status == JobRetrying)
  {
    CountIsSelectSize(jobs, ErrorJob(policyId));
  }

  /** The name of the policy's target from the left join, "" when the
      target row is missing. */
  function TargetNameOf(targets: seq<RepTarget>, targetId: int): string {
    match Targets.GetRepTarget(targets, targetId)
    case Some(t) => t.name
    case None => ""
  }

  /** A listed policy: the selected columns plus the target name and the
      failed-job count. `enabled` is not selected and reads as 0. */
  function ListedPolicy(p: RepPolicy, targets: seq<RepTarget>, jobs: seq<RepJob>): RepPolicy {
    p.(enabled := 0, targetName := TargetNameOf(targets, p.targetId),
       errorJobCount := ErrorJobCount(jobs, p.id))
  }

  /** The first row of page `page` (counted from 1) of `pageSize` rows. */
  function PageOffset(page: int, pageSize: int): int {
    (page - 1) * pageSize
  }

  /** The page of a listing: `limit pageSize offset (page-1)*pageSize` when
      both page and pageSize are positive, the whole listing otherwise. */
  function Paginate<T>(s: seq<T>, page: int, pageSize: int): (r: seq<T>)
    ensures page > 0 && pageSize > 0 ==> |r| <= pageSize
    ensures page > 0 && pageSize > 0 ==>
      forall k :: 0 <= k < |r| ==> PageOffset(page, pageSize) + k < |s| && r[k] == s[PageOffset(page, pageSize) + k]
    ensures page > 0 && pageSize > 0 && page * pageSize <= |s| ==> |r| == pageSize
    ensures page > 0 && pageSize > 0 && PageOffset(page, pageSize) <= |s| ==>
      |r| == if |s| - PageOffset(page, pageSize) < pageSize then |s| - PageOffset(page, pageSize) else pageSize
    ensures page > 0 && pageSize > 0 && PageOffset(page, pageSize) >= |s| ==> r == []
    ensures !(page > 0 && pageSize > 0) ==> r == s
    ensures |r| <= |s|
  {
    if page > 0 && pageSize > 0 then Window(s, PageOffset(page, pageSize), pageSize) else s
  }

  /** The matching policies ordered by creation time, before pagination. */
  function Ordered(policies: seq<RepPolicy>, name: string, projectId: int): seq<RepPolicy> {
    SortBy(Select(policies, ListingFilter(name, projectId)), CreationKey)
  }

  /** The join that fills in a listed row. */
  function Decorate(targets: seq<RepTarget>, jobs: seq<RepJob>): RepPolicy -> RepPolicy {
    (p: RepPolicy) => ListedPolicy(p, targets, jobs)
  }

  /** The active policies matching the filters, ordered by creation time,
      each with its target name and failed-job count, paginated. */
  function FilterRepPolicies(policies: seq<RepPolicy>, targets: seq<RepTarget>, jobs: seq<RepJob>,
                             name: string, projectId: int, page: int, pageSize: int): seq<RepPolicy>
  {
    Paginate(MapRows(Ordered(policies, name, projectId), Decorate(targets, jobs)), page, pageSize)
  }

  /** The ordered matches are exactly the active policies that pass both
      filters, in non-decreasing creation time. */
  lemma OrderedExact(policies: seq<RepPolicy>, name: string, projectId: int)
    ensures forall k, l :: 0 <= k < l < |Ordered(policies, name, projectId)| ==>
      Ordered(policies, name, projectId)[k].creationTime <= Ordered(policies, name, projectId)[l].creationTime
    ensures forall p :: p in Ordered(policies, name, projectId) <==>
      p in policies && TotalFilter(name, projectId)(p)
    ensures |Ordered(policies, name, projectId)| == GetTotalOfRepPolicies(policies, name, projectId)
  {
    var sel := Select(policies, ListingFilter(name, projectId));
    var ordered := Ordered(policies, name, projectId);
    SortByMembers(sel, CreationKey);
    assert SortedBy(ordered, CreationKey);
    forall k, l | 0 <= k < l < |ordered| ensures ordered[k].creationTime <= ordered[l].creationTime {
      assert CreationKey(ordered[k]) <= CreationKey(ordered[l]);
    }
    forall p ensures p in ordered <==> p in policies && TotalFilter(name, projectId)(p) {
      ListingFilterIsTotalFilter(name, projectId, p);
    }
    CountIsSelectSize(policies, TotalFilter(name, projectId));
    FiltersSelectSame(policies, ListingFilter(name, projectId), TotalFilter(name, projectId));
  }

  /** A page of a mapped listing is the mapped rows at the page's positions. */
  lemma PaginateMapRows<T>(s: seq<T>, f: T -> T, page: int, pageSize: int)
    ensures var r := Paginate(MapRows(s, f), page, pageSize);
      && (page > 0 && pageSize > 0 ==> |r| <= pageSize)
      && (page > 0 && pageSize > 0 ==>
           (forall k :: 0 <= k < |r| ==>
              PageOffset(page, pageSize) + k < |s| && r[k] == f(s[PageOffset(page, pageSize) + k])))
      && (page > 0 && pageSize > 0 && PageOffset(page, pageSize) <= |s| ==>
           |r| == if |s| - PageOffset(page, pageSize) < pageSize then |s| - PageOffset(page, pageSize) else pageSize)
      && (page > 0 && pageSize > 0 && PageOffset(page, pageSize) >= |s| ==> r == [])
      && (!(page > 0 && pageSize > 0) ==> |r| == |s|)
      && (!(page > 0 && pageSize > 0) ==> (forall k :: 0 <= k < |r| ==> r[k] == f(s[k])))
  {
  }

  /** With pagination, a page of a mapped listing is the mapped window of
      the listing that starts at the page's first row. */
  lemma PaginateIsWindow<T>(s: seq<T>, f: T -> T, page: int, pageSize: int)
    requires page > 0 && pageSize > 0
    ensures Paginate(MapRows(s, f), page, pageSize) == MapRows(Window(s, PageOffset(page, pageSize), pageSize), f)
  {
    var r := Paginate(MapRows(s, f), page, pageSize);
    var w := MapRows(Window(s, PageOffset(page, pageSize), pageSize), f);
    var window := Window(s, PageOffset(page, pageSize), pageSize);
    PaginateMapRows(s, f, page, pageSize);
    assert |r| == |window| == |w|;
    forall k | 0 <= k < |r| ensures r[k] == w[k] {
      assert window[k] == s[PageOffset(page, pageSize) + k];
    }
  }

  /** The listing's pages: a page is the window of `pageSize` matches, in
      creation order, that starts at match (page-1)*pageSize, each decorated
      with its target name and failed-job count. */
  lemma FilterRepPoliciesRows(policies: seq<RepPolicy>, targets: seq<RepTarget>, jobs: seq<RepJob>,
                              name: string, projectId: int, page: int, pageSize: int)
    requires page > 0 && pageSize > 0
    ensures FilterRepPolicies(policies, targets, jobs, name, projectId, page, pageSize) ==
      MapRows(Window(Ordered(policies, name, projectId), PageOffset(page, pageSize), pageSize), Decorate(targets, jobs))
  {
    PaginateIsWindow(Ordered(policies, name, projectId), Decorate(targets, jobs), page, pageSize);
  }

  /** A page holds the matches from position (page-1)*pageSize on, up to
      pageSize of them or to the end, whichever comes first; a page past the
      end is empty. */
  lemma FilterRepPoliciesPageLength(policies: seq<RepPolicy>, targets: seq<RepTarget>, jobs: seq<RepJob>,
                                    name: string, projectId: int, page: int, pageSize: int)
    requires page > 0 && pageSize > 0
    ensures var r := FilterRepPolicies(policies, targets, jobs, name, projectId, page, pageSize);
      var total := |Ordered(policies, name, projectId)|;
      var offset := PageOffset(page, pageSize);
      && (offset <= total ==> |r| == if total - offset < pageSize then total - offset else pageSize)
      && (offset >= total ==> r == [])
  {
    var ordered := Ordered(policies, name, projectId);
    PaginateMapRows(ordered, Decorate(targets, jobs), page, pageSize);
  }

  /** Without pagination the listing is every matching policy in creation
      order, decorated. */
  lemma FilterRepPoliciesAll(policies: seq<RepPolicy>, targets: seq<RepTarget>, jobs: seq<RepJob>,
                             name: string, projectId: int, page: int, pageSize: int)
    requires !(page > 0 && pageSize > 0)
    ensures |FilterRepPolicies(policies, targets, jobs, name, projectId, page, pageSize)| ==
      |Ordered(policies, name, projectId)|
    ensures forall k :: 0 <= k < |FilterRepPolicies(policies, targets, jobs, name, projectId, page, pageSize)| ==>
      FilterRepPolicies(policies, targets, jobs, name, projectId, page, pageSize)[k] ==
        ListedPolicy(Ordered(policies, name, projectId)[k], targets, jobs)
  {
    var ordered := Ordered(policies, name, projectId);
    PaginateMapRows(ordered, Decorate(targets, jobs), page, pageSize);
  }

  /** Every listed row is an active matching policy whose `errorJobCount` is
      the number of its jobs in status `error` or `retrying`. */
  lemma FilterRepPoliciesCounts(policies: seq<RepPolicy>, targets: seq<RepTarget>, jobs: seq<RepJob>,
                                name: string, projectId: int, page: int, pageSize: int)
    ensures forall q :: q in FilterRepPolicies(policies, targets, jobs, name, projectId, page, pageSize) ==>
      Active(q) && (|name| == 0 || Contains(q.name, name)) && (projectId == 0 || q.projectId == projectId) &&
      q.errorJobCount == |Select(jobs, ErrorJob(q.id))| &&
      exists p :: p in policies && q == ListedPolicy(p, targets, jobs)
  {
    var r := FilterRepPolicies(policies, targets, jobs, name, projectId, page, pageSize);
    var ordered := Ordered(policies, name, projectId);
    var listed := MapRows(ordered, Decorate(targets, jobs));
    assert r == Paginate(listed, page, pageSize);
    PaginateKeeps(listed, page, pageSize);
    forall q | q in r
      ensures Active(q) && (|name| == 0 || Contains(q.name, name)) && (projectId == 0 || q.projectId == projectId)
      ensures q.errorJobCount == |Select(jobs, ErrorJob(q.id))|
      ensures exists p :: p in policies && q == ListedPolicy(p, targets, jobs)
    {
      var i :| 0 <= i < |listed| && listed[i] == q;
      ListedRow(policies, targets, jobs, name, projectId, ordered[i]);
    }
  }

  /** Every row of a page is a row of the listing it was cut from. */
  lemma PaginateKeeps<T>(s: seq<T>, page: int, pageSize: int)
    ensures forall x :: x in Paginate(s, page, pageSize) ==> x in s
  {
    var r := Paginate(s, page, pageSize);
    forall x | x in r ensures x in s {
      var k :| 0 <= k < |r| && r[k] == x;
      if page > 0 && pageSize > 0 {
        assert r[k] == s[PageOffset(page, pageSize) + k];
      }
    }
  }

  /** A matching policy, once decorated, is active, passes both filters and
      carries the number of its failed jobs. */
  lemma ListedRow(policies: seq<RepPolicy>, targets: seq<RepTarget>, jobs: seq<RepJob>,
                  name: string, projectId: int, p: RepPolicy)
    requires p in Ordered(policies, name, projectId)
    ensures var q := ListedPolicy(p, targets, jobs);
      && p in policies
      && Active(q) && (|name| == 0 || Contains(q.name, name)) && (projectId == 0 || q.projectId == projectId)
      && q.errorJobCount == |Select(jobs, ErrorJob(q.id))|
  {
    OrderedExact(policies, name, projectId);
    assert TotalFilter(name, projectId)(p);
    ErrorJobCountIsFailedJobs(jobs, p.id);
  }

  /** The total counts exactly the rows of the unpaginated listing, and no
      page is longer than the total. */
  lemma TotalIsUnpaginatedListing(policies: seq<RepPolicy>, targets: seq<RepTarget>, jobs: seq<RepJob>,
                                  name: string, projectId: int, page: int, pageSize: int)
    ensures GetTotalOfRepPolicies(policies, name, projectId) ==
      |FilterRepPolicies(policies, targets, jobs, name, projectId, 0, 0)|
    ensures |FilterRepPolicies(policies, targets, jobs, name, projectId, page, pageSize)| <=
      GetTotalOfRepPolicies(policies, name, projectId)
  {
    OrderedExact(policies, name, projectId);
    var listed := MapRows(Ordered(policies, name, projectId), Decorate(targets, jobs));
    assert FilterRepPolicies(policies, targets, jobs, name, projectId, 0, 0) == Paginate(listed, 0, 0);
    assert FilterRepPolicies(policies, targets, jobs, name, projectId, page, pageSize) ==
      Paginate(listed, page, pageSize);
  }

  /** Two filters that agree on every row select the same rows. */
  lemma {:induction false} FiltersSelectSame(policies: seq<RepPolicy>, f: RepPolicy -> bool, g: RepPolicy -> bool)
    requires forall p :: f(p) == g(p)
    ensures Select(policies, f) == Select(policies, g)
  {
    if policies != [] {
      FiltersSelectSame(policies[1..], f, g);
    }
  }

  /** The row written by `AddRepPolicy`: the given name, project, target,
      description, trigger, filters and replicate-deletion flag, enabled,
      not deleted, created and updated at `now`. */
  function NewPolicyRow(policy: RepPolicy, id: int, now: int): (row: RepPolicy)
  {
    RepPolicy(id, policy.projectId, policy.targetId, policy.name, 1, policy.description,
              policy.trigger, policy.filters, policy.replicateDeletion, 0, now, now, "", 0)
  }

  /** An added policy is readable under its new key, and by name when no
      other active policy comes first with that name. */
  lemma AddThenGetPolicy(policies: seq<RepPolicy>, policy: RepPolicy, id: int, now: int)
    requires forall k :: 0 <= k < |policies| ==> policies[k].id != id
    ensures GetRepPolicy(policies + [NewPolicyRow(policy, id, now)], id) == Some(NewPolicyRow(policy, id, now))
    ensures GetRepPolicyByName(policies, policy.name).None? ==>
      GetRepPolicyByName(policies + [NewPolicyRow(policy, id, now)], policy.name) == Some(NewPolicyRow(policy, id, now))
  {
    var s := policies + [NewPolicyRow(policy, id, now)];
    FirstWhereAt(s, (p: RepPolicy) => Active(p) && p.id == id, |policies|);
    if GetRepPolicyByName(policies, policy.name).None? {
      FirstWhereAt(s, (p: RepPolicy) => Active(p) && p.name == policy.name, |policies|);
    }
  }

  /** The row after `UpdateRepPolicy(policy)`: project, target, name,
      description, trigger, filters, replicate-deletion flag and update time
      are taken over; key, enabled, deleted flag and creation time are kept. */
  function UpdatedPolicy(row: RepPolicy, policy: RepPolicy, now: int): RepPolicy {
    row.(projectId := policy.projectId, targetId := policy.targetId, name := policy.name,
         description := policy.description, trigger := policy.trigger, filters := policy.filters,
         replicateDeletion := policy.replicateDeletion, updateTime := now)
  }

  /** The table after `UpdateRepPolicy(policy)` at time `now`: the row with
      the policy's key, deleted or not, is rewritten; the others are kept. */
  function UpdatePolicyColumns(policies: seq<RepPolicy>, policy: RepPolicy, now: int): (r: seq<RepPolicy>)
    ensures |r| == |policies|
    ensures forall k :: 0 <= k < |r| && policies[k].id != policy.id ==> r[k] == policies[k]
    ensures forall k :: 0 <= k < |r| && policies[k].id == policy.id ==>
      r[k].id == policy.id && r[k].deleted == policies[k].deleted &&
      r[k].enabled == policies[k].enabled && r[k].creationTime == policies[k].creationTime &&
      r[k].projectId == policy.projectId && r[k].targetId == policy.targetId &&
      r[k].name == policy.name && r[k].description == policy.description &&
      r[k].trigger == policy.trigger && r[k].filters == policy.filters &&
      r[k].replicateDeletion == policy.replicateDeletion && r[k].updateTime == now
  {
    MapRows(policies, (p: RepPolicy) => if p.id == policy.id then UpdatedPolicy(p, policy, now) else p)
  }

  /** Reading an updated active policy gives the new column values. */
  lemma UpdateThenGetPolicy(policies: seq<RepPolicy>, policy: RepPolicy, now: int)
    requires GetRepPolicy(policies, policy.id).Some?
    ensures GetRepPolicy(UpdatePolicyColumns(policies, policy, now), policy.id) ==
      Some(UpdatedPolicy(GetRepPolicy(policies, policy.id).value, policy, now))
  {
    FirstWhereMapRows(policies,
      (p: RepPolicy) => if p.id == policy.id then UpdatedPolicy(p, policy, now) else p,
      (p: RepPolicy) => Active(p) && p.id == policy.id);
  }

  /** The row after `DeleteRepPolicy`: only the deleted flag is written. */
  function MarkDeleted(p: RepPolicy): RepPolicy {
    p.(deleted := 1)
  }

  /** The table after `DeleteRepPolicy(id)`: the row with that key has its
      deleted flag set and every other column of every row is kept. */
  function SoftDeletePolicy(policies: seq<RepPolicy>, id: int): (r: seq<RepPolicy>)
    ensures |r| == |policies|
    ensures forall k :: 0 <= k < |r| && policies[k].id != id ==> r[k] == policies[k]
    ensures forall k :: 0 <= k < |r| && policies[k].id == id ==>
      r[k] == policies[k].(deleted := 1) && !Active(r[k])
  {
    MapRows(policies, (p: RepPolicy) => if p.id == id then MarkDeleted(p) else p)
  }

  /** After a soft delete no read returns the policy: not by key, not by
      name, not by project or target, not in the listing. */
  lemma SoftDeleteHides(policies: seq<RepPolicy>, targets: seq<RepTarget>, jobs: seq<RepJob>, id: int,
                        name: string, projectId: int, targetId: int, page: int, pageSize: int)
    ensures var after := SoftDeletePolicy(policies, id);
      && GetRepPolicy(after, id).None?
      && (GetRepPolicyByName(after, name).Some? ==> GetRepPolicyByName(after, name).value.id != id)
      && (forall p :: p in GetRepPolicyByProject(after, projectId) ==> p.id != id)
      && (forall p :: p in GetRepPolicyByTarget(after, targetId) ==> p.id != id)
      && (forall p :: p in GetRepPolicyByProjectAndTarget(after, projectId, targetId) ==> p.id != id)
      && (forall q :: q in FilterRepPolicies(after, targets, jobs, name, projectId, page, pageSize) ==> q.id != id)
  {
    var after := SoftDeletePolicy(policies, id);
    FilterRepPoliciesCounts(after, targets, jobs, name, projectId, page, pageSize);
    forall q | q in FilterRepPolicies(after, targets, jobs, name, projectId, page, pageSize)
      ensures q.id != id
    {
      var p :| p in after && q == ListedPolicy(p, targets, jobs);
      assert Active(q);
    }
  }

  /** A soft delete leaves every other policy readable as before. */
  lemma SoftDeleteKeepsOthers(policies: seq<RepPolicy>, id: int, other: int)
    requires other != id
    ensures GetRepPolicy(SoftDeletePolicy(policies, id), other) == GetRepPolicy(policies, other)
  {
    FirstWhereMapRows(policies,
      (p: RepPolicy) => if p.id == id then MarkDeleted(p) else p,
      (p: RepPolicy) => Active(p) && p.id == other);
  }
}
