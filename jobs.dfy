/** Reads, queries and updates on the `replication_job` table and the
    startup reset of running jobs over it and the scan-job table. */
module Jobs {
  import opened Seqs
  import opened Models
  import opened TagCodec

  /** `genTagListForJob` on one job: the tag list is rebuilt from the `tags`
      column when that column is not empty, and left alone otherwise. */
  function GenTagList(j: RepJob): RepJob {
    if |j.tags| > 0 then j.(tagList := Split(j.tags)) else j
  }

  /** A job as a read returns it: the columns of the row, with the tag list
      (not a column, so empty after the read) rebuilt from `tags`. */
  function LoadJob(row: RepJob): (j: RepJob)
    ensures j == row.(tagList := j.tagList)
    ensures j.tagList == ReadTags(row.tags)
  {
    GenTagList(row.(tagList := []))
  }

  /** The rows read by a list query, each loaded. */
  function LoadAll(rows: seq<RepJob>): (r: seq<RepJob>)
    ensures |r| == |rows|
    ensures forall k :: 0 <= k < |rows| ==> r[k] == LoadJob(rows[k])
  {
    MapRows(rows, LoadJob)
  }

  /** The job with key `id` as `GetRepJob` returns it. A read that fails
      with an error other than "no rows" is not reported: the caller gets a
      job that holds only the requested id. */
  function GetRepJob(rows: seq<RepJob>, id: int, readFails: bool): (r: Option<RepJob>)
    ensures readFails ==> r == Some(UnreadJob(id))
    ensures !readFails ==> (r.None? <==> forall k :: 0 <= k < |rows| ==> rows[k].id != id)
    ensures r.Some? ==> r.value.id == id && r.value.tagList == ReadTags(r.value.tags)
    ensures !readFails && r.Some? ==> exists row :: row in rows && row.id == id && r.value == LoadJob(row)
  {
    if readFails then Some(UnreadJob(id))
    else match FirstWhere(rows, (j: RepJob) => j.id == id)
      case None => None
      case Some(row) => Some(LoadJob(row))
  }

  /** The row written by `AddRepJob`: status `pending` when none is given,
      the joined tag list in `tags` when the list is not empty. */
  function NewJobRow(job: RepJob, id: int): RepJob {
    job.(id := id,
         status := if |job.status| == 0 then JobPending else job.status,
         tags := StoredTags(job.tagList, job.tags),
         tagList := [])
  }

  /** An added job reads back under its new key with status `pending` when
      none was given and the given status otherwise, and with its tag list
      when the tags are non-empty and comma-free. */
  lemma AddThenGetJob(rows: seq<RepJob>, job: RepJob, id: int)
    requires forall k :: 0 <= k < |rows| ==> rows[k].id != id
    ensures var got := GetRepJob(rows + [NewJobRow(job, id)], id, false);
      && got == Some(LoadJob(NewJobRow(job, id)))
      && got.value.status == (if job.status == "" then JobPending else job.status)
      && got.value.status != ""
      && got.value.repository == job.repository && got.value.policyId == job.policyId
      && (CommaFree(job.tagList) && |job.tagList| > 0 && (forall k :: 0 <= k < |job.tagList| ==> job.tagList[k] != "")
          ==> got.value.tagList == job.tagList)
      && (job.tagList == [] && job.tags == "" ==> got.value.tagList == [])
  {
    var s := rows + [NewJobRow(job, id)];
    FirstWhereAt(s, (j: RepJob) => j.id == id, |rows|);
    if CommaFree(job.tagList) && (forall k :: 0 <= k < |job.tagList| ==> job.tagList[k] != "") {
      NonEmptyTagsRoundTrip(job.tagList, job.tags);
    }
  }

  /** The jobs of a policy, whatever their status. */
  function GetRepJobByPolicy(rows: seq<RepJob>, policyId: int): seq<RepJob>
  {
    LoadAll(Select(rows, (j: RepJob) => j.policyId == policyId))
  }

  /** The stop-eligible filter: the policy's jobs that may still be handled. */
  function ToStop(policyId: int): RepJob -> bool {
    (j: RepJob) => j.policyId == policyId && j.status in StopStatuses
  }

  /** The jobs of a policy in status pending, running or retrying. */
  function GetRepJobToStop(rows: seq<RepJob>, policyId: int): seq<RepJob> {
    LoadAll(Select(rows, ToStop(policyId)))
  }

  /** Loading a selection gives the selected rows, loaded, one for one. */
  lemma LoadSelected(rows: seq<RepJob>, keep: RepJob -> bool)
    ensures forall k :: 0 <= k < |LoadAll(Select(rows, keep))| ==>
      Select(rows, keep)[k] in rows && keep(Select(rows, keep)[k]) &&
      LoadAll(Select(rows, keep))[k] == LoadJob(Select(rows, keep)[k])
    ensures forall row :: row in rows && keep(row) ==> LoadJob(row) in LoadAll(Select(rows, keep))
  {
    var sel := Select(rows, keep);
    var r := LoadAll(sel);
    forall k | 0 <= k < |r| ensures sel[k] in rows && keep(sel[k]) {
      assert sel[k] in sel;
    }
    forall row | row in rows && keep(row) ensures LoadJob(row) in r {
      var k :| 0 <= k < |sel| && sel[k] == row;
      assert r[k] == LoadJob(row);
    }
  }

  /** `GetRepJobByPolicy` returns exactly the policy's jobs, loaded. */
  lemma GetRepJobByPolicyExact(rows: seq<RepJob>, policyId: int)
    ensures forall j :: j in GetRepJobByPolicy(rows, policyId) ==> j.policyId == policyId
    ensures forall row :: row in rows && row.policyId == policyId ==> LoadJob(row) in GetRepJobByPolicy(rows, policyId)
  {
    var keep := (j: RepJob) => j.policyId == policyId;
    LoadSelected(rows, keep);
    var r := GetRepJobByPolicy(rows, policyId);
    forall j | j in r ensures j.policyId == policyId {
      var k :| 0 <= k < |r| && r[k] == j;
    }
  }

  /** `GetRepJobToStop` returns exactly the policy's pending, running and
      retrying jobs: a finished, failed or stopped job never appears, and
      every job of the policy in one of those three statuses does. */
  lemma GetRepJobToStopExact(rows: seq<RepJob>, policyId: int)
    ensures forall j :: j in GetRepJobToStop(rows, policyId) ==>
      j.policyId == policyId && (j.status == JobPending || j.status == JobRunning || j.status == JobRetrying)
    ensures forall j :: j in GetRepJobToStop(rows, policyId) ==>
      j.status != JobFinished && j.status != JobError && j.status != JobStopped
    ensures forall row ::
      (row in rows && row.policyId == policyId &&
       (row.status == JobPending || row.status == JobRunning || row.status == JobRetrying))
      ==> LoadJob(row) in GetRepJobToStop(rows, policyId)
  {
    var sel := Select(rows, ToStop(policyId));
    LoadSelected(rows, ToStop(policyId));
    var r := GetRepJobToStop(rows, policyId);
    forall j | j in r
      ensures j.policyId == policyId && (j.status == JobPending || j.status == JobRunning || j.status == JobRetrying)
    {
      var k :| 0 <= k < |r| && r[k] == j;
      assert ToStop(policyId)(sel[k]) && j == LoadJob(sel[k]);
    }
    forall row | row in rows && row.policyId == policyId &&
      (row.status == JobPending || row.status == JobRunning || row.status == JobRetrying)
      ensures LoadJob(row) in r
    {
      assert ToStop(policyId)(row);
    }
    assert JobFinished != JobPending && JobFinished != JobRunning && JobFinished != JobRetrying;
    assert JobError != JobPending && JobError != JobRunning && JobError != JobRetrying;
    assert JobStopped != JobPending && JobStopped != JobRunning && JobStopped != JobRetrying;
  }

  /** The jobs, across all policies, whose status is one of `statuses`. */
  function GetRepJobByStatus(rows: seq<RepJob>, statuses: seq<string>): seq<RepJob> {
    LoadAll(Select(rows, (j: RepJob) => j.status in statuses))
  }

  /** `GetRepJobByStatus` returns exactly the jobs whose status is listed. */
  lemma GetRepJobByStatusExact(rows: seq<RepJob>, statuses: seq<string>)
    ensures forall j :: j in GetRepJobByStatus(rows, statuses) ==> j.status in statuses
    ensures forall row :: row in rows && row.status in statuses ==> LoadJob(row) in GetRepJobByStatus(rows, statuses)
  {
    LoadSelected(rows, (j: RepJob) => j.status in statuses);
    var r := GetRepJobByStatus(rows, statuses);
    forall j | j in r ensures j.status in statuses {
      var k :| 0 <= k < |r| && r[k] == j;
    }
  }

  /** The conjunction of the optional job filters: policy id when not 0,
      repository substring when not empty, status membership when the list
      is not empty, creation time bounds (inclusive) when given. */
  predicate JobMatches(j: RepJob, policyId: int, repository: string, statuses: seq<string>,
                       startTime: Option<int>, endTime: Option<int>)
  {
    && (policyId == 0 || j.policyId == policyId)
    && (|repository| == 0 || Contains(j.repository, repository))
    && (|statuses| == 0 || j.status in statuses)
    && (startTime.None? || j.creationTime >= startTime.value)
    && (endTime.None? || j.creationTime <= endTime.value)
  }

  function JobFilter(policyId: int, repository: string, statuses: seq<string>,
                     startTime: Option<int>, endTime: Option<int>): RepJob -> bool
  {
    (j: RepJob) => JobMatches(j, policyId, repository, statuses, startTime, endTime)
  }

  /** The `order by -update_time` key: most recently updated first. */
  function UpdateTimeDesc(j: RepJob): int {
    -j.updateTime
  }

  /** The result of `FilterRepJobs`: a page of jobs, the total number of
      matches, and whether a storage call failed. */
  datatype JobPage = JobPage(jobs: seq<RepJob>, total: int, failed: bool)

  /** The matching jobs, newest update first. */
  function FilteredByUpdate(rows: seq<RepJob>, policyId: int, repository: string, statuses: seq<string>,
                            startTime: Option<int>, endTime: Option<int>): seq<RepJob>
  {
    SortBy(Select(rows, JobFilter(policyId, repository, statuses, startTime, endTime)), UpdateTimeDesc)
  }

  /** `FilterRepJobs`: the total is counted over all matches before the
      page `limit limit offset offset` of the matches, newest update first,
      is read. A failed count or read gives no jobs and a total of 0. */
  function FilterRepJobs(rows: seq<RepJob>, policyId: int, repository: string, statuses: seq<string>,
                         startTime: Option<int>, endTime: Option<int>, limit: nat, offset: nat,
                         countFails: bool, readFails: bool): (r: JobPage)
    ensures r.failed <==> countFails || readFails
    ensures r.failed ==> r.jobs == [] && r.total == 0
  {
    if countFails then JobPage([], 0, true)
    else
      var total := CountWhere(rows, JobFilter(policyId, repository, statuses, startTime, endTime));
      if readFails then JobPage([], 0, true)
      else
        var page := Window(FilteredByUpdate(rows, policyId, repository, statuses, startTime, endTime), offset, limit);
        JobPage(LoadAll(page), total, false)
  }

  /** Every job on the page passes every given filter, the page holds at
      most `limit` jobs in non-increasing update time, and the total is the
      number of all matching rows whatever the limit and offset. */
  lemma FilterRepJobsPage(rows: seq<RepJob>, policyId: int, repository: string, statuses: seq<string>,
                          startTime: Option<int>, endTime: Option<int>, limit: nat, offset: nat)
    ensures var r := FilterRepJobs(rows, policyId, repository, statuses, startTime, endTime, limit, offset, false, false);
      && |r.jobs| <= limit
      && r.total == |Select(rows, JobFilter(policyId, repository, statuses, startTime, endTime))|
      && (forall j :: j in r.jobs ==> JobMatches(j, policyId, repository, statuses, startTime, endTime))
      && (forall k, l :: 0 <= k < l < |r.jobs| ==> r.jobs[k].updateTime >= r.jobs[l].updateTime)
  {
    CountIsSelectSize(rows, JobFilter(policyId, repository, statuses, startTime, endTime));
    FilterRepJobsPageMatches(rows, policyId, repository, statuses, startTime, endTime, limit, offset);
    FilterRepJobsPageOrdered(rows, policyId, repository, statuses, startTime, endTime, limit, offset);
  }

  /** Every job on the page passes every given filter. */
  lemma FilterRepJobsPageMatches(rows: seq<RepJob>, policyId: int, repository: string, statuses: seq<string>,
                                 startTime: Option<int>, endTime: Option<int>, limit: nat, offset: nat)
    ensures forall j :: j in FilterRepJobs(rows, policyId, repository, statuses, startTime, endTime, limit, offset, false, false).jobs ==>
      JobMatches(j, policyId, repository, statuses, startTime, endTime)
  {
    var sorted := FilteredByUpdate(rows, policyId, repository, statuses, startTime, endTime);
    var r := FilterRepJobs(rows, policyId, repository, statuses, startTime, endTime, limit, offset, false, false);
    FilteredByUpdateExact(rows, policyId, repository, statuses, startTime, endTime);
    FilterRepJobsWindow(rows, policyId, repository, statuses, startTime, endTime, limit, offset);
    forall k | 0 <= k < |r.jobs| ensures JobMatches(r.jobs[k], policyId, repository, statuses, startTime, endTime) {
      assert sorted[offset + k] in sorted;
    }
  }

  /** The page is in non-increasing update time. */
  lemma FilterRepJobsPageOrdered(rows: seq<RepJob>, policyId: int, repository: string, statuses: seq<string>,
                                 startTime: Option<int>, endTime: Option<int>, limit: nat, offset: nat)
    ensures var r := FilterRepJobs(rows, policyId, repository, statuses, startTime, endTime, limit, offset, false, false);
      forall k, l :: 0 <= k < l < |r.jobs| ==> r.jobs[k].updateTime >= r.jobs[l].updateTime
  {
    var sorted := FilteredByUpdate(rows, policyId, repository, statuses, startTime, endTime);
    var r := FilterRepJobs(rows, policyId, repository, statuses, startTime, endTime, limit, offset, false, false);
    FilteredByUpdateExact(rows, policyId, repository, statuses, startTime, endTime);
    FilterRepJobsWindow(rows, policyId, repository, statuses, startTime, endTime, limit, offset);
    forall k, l | 0 <= k < l < |r.jobs| ensures r.jobs[k].updateTime >= r.jobs[l].updateTime {
      assert r.jobs[k].updateTime == sorted[offset + k].updateTime;
      assert r.jobs[l].updateTime == sorted[offset + l].updateTime;
    }
  }

  /** The page is the window of the ordered matches that starts at `offset`:
      `limit` jobs, or as many as remain, none past the end; job k of the
      page is the (offset + k)-th match, loaded. */
  lemma FilterRepJobsWindow(rows: seq<RepJob>, policyId: int, repository: string, statuses: seq<string>,
                            startTime: Option<int>, endTime: Option<int>, limit: nat, offset: nat)
    ensures var r := FilterRepJobs(rows, policyId, repository, statuses, startTime, endTime, limit, offset, false, false);
      var sorted := FilteredByUpdate(rows, policyId, repository, statuses, startTime, endTime);
      && |r.jobs| == (if offset >= |sorted| then 0 else if |sorted| - offset < limit then |sorted| - offset else limit)
      && forall k :: 0 <= k < |r.jobs| ==> offset + k < |sorted| && r.jobs[k] == LoadJob(sorted[offset + k])
  {
    var sorted := FilteredByUpdate(rows, policyId, repository, statuses, startTime, endTime);
    var r := FilterRepJobs(rows, policyId, repository, statuses, startTime, endTime, limit, offset, false, false);
    assert r.jobs == LoadAll(Window(sorted, offset, limit));
  }

  /** The ordered matches are exactly the matching rows, newest update first. */
  lemma FilteredByUpdateExact(rows: seq<RepJob>, policyId: int, repository: string, statuses: seq<string>,
                              startTime: Option<int>, endTime: Option<int>)
    ensures forall j :: j in FilteredByUpdate(rows, policyId, repository, statuses, startTime, endTime) <==>
      j in rows && JobMatches(j, policyId, repository, statuses, startTime, endTime)
    ensures forall k, l :: 0 <= k < l < |FilteredByUpdate(rows, policyId, repository, statuses, startTime, endTime)| ==>
      FilteredByUpdate(rows, policyId, repository, statuses, startTime, endTime)[k].updateTime >=
      FilteredByUpdate(rows, policyId, repository, statuses, startTime, endTime)[l].updateTime
  {
    var keep := JobFilter(policyId, repository, statuses, startTime, endTime);
    var sorted := FilteredByUpdate(rows, policyId, repository, statuses, startTime, endTime);
    SortByMembers(Select(rows, keep), UpdateTimeDesc);
    forall j ensures j in sorted <==> j in rows && JobMatches(j, policyId, repository, statuses, startTime, endTime) {
      assert keep(j) == JobMatches(j, policyId, repository, statuses, startTime, endTime);
    }
    assert SortedBy(sorted, UpdateTimeDesc);
    forall k, l | 0 <= k < l < |sorted| ensures sorted[k].updateTime >= sorted[l].updateTime {
      assert UpdateTimeDesc(sorted[k]) <= UpdateTimeDesc(sorted[l]);
    }
  }

  /** The total does not depend on the page asked for. */
  lemma FilterRepJobsTotalIgnoresPage(rows: seq<RepJob>, policyId: int, repository: string, statuses: seq<string>,
                                      startTime: Option<int>, endTime: Option<int>,
                                      limit1: nat, offset1: nat, limit2: nat, offset2: nat)
    ensures FilterRepJobs(rows, policyId, repository, statuses, startTime, endTime, limit1, offset1, false, false).total ==
            FilterRepJobs(rows, policyId, repository, statuses, startTime, endTime, limit2, offset2, false, false).total
  {
  }

  /** A first page at least as long as the total holds every matching job. */
  lemma FilterRepJobsComplete(rows: seq<RepJob>, policyId: int, repository: string, statuses: seq<string>,
                              startTime: Option<int>, endTime: Option<int>, limit: nat)
    requires limit >= |Select(rows, JobFilter(policyId, repository, statuses, startTime, endTime))|
    ensures forall row :: row in rows && JobMatches(row, policyId, repository, statuses, startTime, endTime) ==>
      LoadJob(row) in FilterRepJobs(rows, policyId, repository, statuses, startTime, endTime, limit, 0, false, false).jobs
  {
    var sorted := FilteredByUpdate(rows, policyId, repository, statuses, startTime, endTime);
    var r := FilterRepJobs(rows, policyId, repository, statuses, startTime, endTime, limit, 0, false, false);
    SortByMembers(Select(rows, JobFilter(policyId, repository, statuses, startTime, endTime)), UpdateTimeDesc);
    FilteredByUpdateExact(rows, policyId, repository, statuses, startTime, endTime);
    FilterRepJobsWindow(rows, policyId, repository, statuses, startTime, endTime, limit, 0);
    forall row | row in rows && JobMatches(row, policyId, repository, statuses, startTime, endTime)
      ensures LoadJob(row) in r.jobs
    {
      var k :| 0 <= k < |sorted| && sorted[k] == row;
      assert r.jobs[k] == LoadJob(row);
    }
  }

  /** The row after `UpdateRepJobStatus(id, status)` at time `now`. */
  function WithStatus(j: RepJob, status: string, now: int): RepJob {
    j.(status := status, updateTime := now)
  }

  /** The table after `UpdateRepJobStatus(id, status)`: the row with that key
      gets the status and update time, every other column and row is kept. */
  function SetJobStatus(rows: seq<RepJob>, id: int, status: string, now: int): (r: seq<RepJob>)
    ensures |r| == |rows|
    ensures forall k :: 0 <= k < |r| && rows[k].id != id ==> r[k] == rows[k]
    ensures forall k :: 0 <= k < |r| && rows[k].id == id ==>
      r[k] == rows[k].(status := status, updateTime := now)
  {
    MapRows(rows, (j: RepJob) => if j.id == id then WithStatus(j, status, now) else j)
  }

  /** The number of rows `UpdateRepJobStatus(id, …)` updates. */
  function RowsWithId(rows: seq<RepJob>, id: int): nat {
    CountWhere(rows, (j: RepJob) => j.id == id)
  }

  /** A status update of a missing job updates no row and changes nothing. */
  lemma SetStatusOfMissingJob(rows: seq<RepJob>, id: int, status: string, now: int)
    requires RowsWithId(rows, id) == 0
    ensures SetJobStatus(rows, id, status, now) == rows
    ensures GetRepJob(rows, id, false).None?
  {
  }

  /** After a status update the job reads back with the new status and
      update time and is otherwise as before. */
  lemma SetStatusThenGet(rows: seq<RepJob>, id: int, status: string, now: int)
    requires GetRepJob(rows, id, false).Some?
    ensures GetRepJob(SetJobStatus(rows, id, status, now), id, false) ==
      Some(GetRepJob(rows, id, false).value.(status := status, updateTime := now))
  {
    var f := (j: RepJob) => if j.id == id then WithStatus(j, status, now) else j;
    var keep := (j: RepJob) => j.id == id;
    FirstWhereMapRows(rows, f, keep);
    var row := FirstWhere(rows, keep).value;
    assert FirstWhere(SetJobStatus(rows, id, status, now), keep) == Some(f(row));
  }

  /** A running job is reset to pending at time `now`; others are kept. */
  function ResetJob(j: RepJob, now: int): RepJob {
    if j.status == JobRunning then j.(status := JobPending, updateTime := now) else j
  }

  /** The replication-job table after the startup reset at time `now`. */
  function ResetRunningRepJobs(rows: seq<RepJob>, now: int): (r: seq<RepJob>)
    ensures |r| == |rows|
    ensures forall k :: 0 <= k < |r| ==> r[k].status != JobRunning
  {
    MapRows(rows, (j: RepJob) => ResetJob(j, now))
  }

  /** A running scan job is reset to pending at time `now`; others are kept. */
  function ResetScanJob(j: ScanJob, now: int): ScanJob {
    if j.status == JobRunning then j.(status := JobPending, updateTime := now) else j
  }

  /** The scan-job table after the startup reset at time `now`. */
  function ResetRunningScanJobs(rows: seq<ScanJob>, now: int): (r: seq<ScanJob>)
    ensures |r| == |rows|
    ensures forall k :: 0 <= k < |r| ==> r[k].status != JobRunning
  {
    MapRows(rows, (j: ScanJob) => ResetScanJob(j, now))
  }

  /** Exactly the formerly running rows of both tables become pending with
      the new update time; every other row is untouched. */
  lemma ResetRunningExact(rows: seq<RepJob>, scans: seq<ScanJob>, now1: int, now2: int)
    ensures forall k :: 0 <= k < |rows| ==>
      ResetRunningRepJobs(rows, now1)[k] ==
        if rows[k].status == JobRunning then rows[k].(status := JobPending, updateTime := now1) else rows[k]
    ensures forall k :: 0 <= k < |scans| ==>
      ResetRunningScanJobs(scans, now2)[k] ==
        if scans[k].status == JobRunning then scans[k].(status := JobPending, updateTime := now2) else scans[k]
  {
  }

  /** The reset is idempotent: a second pass, at any time, changes nothing. */
  lemma {:induction false} ResetRunningIdempotent(rows: seq<RepJob>, scans: seq<ScanJob>, now1: int, now2: int, later1: int, later2: int)
    ensures ResetRunningRepJobs(ResetRunningRepJobs(rows, now1), later1) == ResetRunningRepJobs(rows, now1)
    ensures ResetRunningScanJobs(ResetRunningScanJobs(scans, now2), later2) == ResetRunningScanJobs(scans, now2)
  {
    var r := ResetRunningRepJobs(rows, now1);
    var s := ResetRunningScanJobs(scans, now2);
    assert ResetRunningRepJobs(r, later1) == r by {
      forall k | 0 <= k < |r| ensures ResetRunningRepJobs(r, later1)[k] == r[k] {
        assert r[k].status != JobRunning;
      }
    }
    assert ResetRunningScanJobs(s, later2) == s by {
      forall k | 0 <= k < |s| ensures ResetRunningScanJobs(s, later2)[k] == s[k] {
        assert s[k].status != JobRunning;
      }
    }
  }

  /** The table after `DeleteRepJob(id)`: the row with that key is gone. */
  function DeleteJobRow(rows: seq<RepJob>, id: int): (r: seq<RepJob>)
    ensures forall j :: j in r <==> j in rows && j.id != id
    ensures GetRepJob(r, id, false).None?
  {
    Select(rows, (j: RepJob) => j.id != id)
  }

  /** The job table's stored rows: keys below `bound`, no tag list. */
  ghost predicate StoredRows(rows: seq<RepJob>, bound: int) {
    forall j :: j in rows ==> j.id < bound && j.tagList == []
  }

  /** A status update and the startup reset keep the stored-row invariant. */
  lemma UpdatesKeepStoredRows(rows: seq<RepJob>, bound: int, id: int, status: string, now: int)
    requires StoredRows(rows, bound)
    ensures StoredRows(SetJobStatus(rows, id, status, now), bound)
    ensures StoredRows(ResetRunningRepJobs(rows, now), bound)
  {
    var a := SetJobStatus(rows, id, status, now);
    var b := ResetRunningRepJobs(rows, now);
    forall j | j in a ensures j.id < bound && j.tagList == [] {
      var k :| 0 <= k < |a| && a[k] == j;
      assert rows[k] in rows;
    }
    forall j | j in b ensures j.id < bound && j.tagList == [] {
      var k :| 0 <= k < |b| && b[k] == j;
      assert rows[k] in rows;
    }
  }

  /** The next key is fresh, and an insert under it keeps the stored-row
      invariant with the next key moved on. */
  lemma InsertKeepsStoredRows(rows: seq<RepJob>, bound: int, job: RepJob)
    requires StoredRows(rows, bound)
    ensures forall k :: 0 <= k < |rows| ==> rows[k].id != bound
    ensures StoredRows(rows + [NewJobRow(job, bound)], bound + 1)
  {
    forall k | 0 <= k < |rows| ensures rows[k].id != bound {
      assert rows[k] in rows;
    }
  }

  /** `genTagListForJob` over the jobs a query read, in place. */
  method GenTagListForJob(jobs: array<RepJob>)
    modifies jobs
    ensures forall k :: 0 <= k < jobs.Length ==> jobs[k] == GenTagList(old(jobs[k]))
    ensures forall k :: 0 <= k < jobs.Length && old(jobs[k]).tagList == [] ==>
      jobs[k].tagList == ReadTags(jobs[k].tags)
  {
    var i := 0;
    while i < jobs.Length
      invariant 0 <= i <= jobs.Length
      invariant forall k :: 0 <= k < i ==> jobs[k] == GenTagList(old(jobs[k]))
      invariant forall k :: i <= k < jobs.Length ==> jobs[k] == old(jobs[k])
    {
      if |jobs[i].tags| > 0 {
        jobs[i] := jobs[i].(tagList := Split(jobs[i].tags));
      }
      i := i + 1;
    }
  }
}
