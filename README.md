# Replication bookkeeping model

This project models the replication data-access layer of the registry
(`src/common/dao/replication_job.go`). The layer keeps three tables:

- replication targets: the remote registries;
- replication policies: the rules that say what to replicate where;
- replication jobs: one row per execution attempt of a policy.

It also touches the externally owned scan-job table during startup
recovery. The database is abstracted away. Each table is a sequence of
rows in insertion order, and keys come from per-table counters.

Modules:

- `Seqs`: the generic shapes of the queries. `Select` is a `where`,
  `CountWhere` a `count(*)`, `FirstWhere` a single-row read, `SortBy` an
  `order by`, `Window` a `limit … offset …`, `MapRows` a bulk `update`,
  and `Contains` substring matching.
- `TagCodec`: the job's tag list and its persisted form. The list is
  joined with `,` on insert and split on `,` after a read, only when the
  column is not empty. The codec follows Go's `strings.Join` and
  `strings.Split`.
- `Models`: the rows and the job status vocabulary.
- `Targets`, `Policies`, `Jobs`: every read and query as a function over
  the tables, and every write as a function from the old table to the new
  one, with lemmas for what the layer promises.
- `Dao`: the class `Store`. It holds the tables as fields. Its methods are
  the writes (`AddRep*`, `UpdateRep*`, `DeleteRep*`,
  `UpdateRepJobStatus`, `ResetRunningJobs`). Each states its new state
  through the functions above and keeps the store invariant `Valid`.
  `Jobs.GenTagListForJob` is the in-place loop over the jobs a query read.

`time.Now()` is a parameter (`now`, `now1`, `now2`). A failing storage
call is a boolean parameter on the operations whose error handling is
itself logic:

- `GetRepJob` swallows the error.
- `UpdateRepJobStatus` changes nothing and reports the error.
- `ResetRunningJobs` keeps a partial update.
- `FilterRepJobs` gives an empty page with a total of 0.

Three behaviours of the code a reader may not expect, all modelled as
written:

- `DeleteRepPolicy` computes an update time but writes only the `Deleted`
  column, so the update time is never stored (lines 272-277).
- `UpdateRepPolicy` rewrites `ProjectID` along with the other columns it
  names (line 264).
- `FilterRepPolicies` does not select `enabled`, so listed policies carry
  `enabled = 0` (lines 163-167).

## Model

| member | source | states |
|---|---|---|
| TagCodec.Split | src/common/dao/replication_job.go:422 | splitting gives at least one piece, no piece holds a comma, and there is one more piece than the string has commas |
| TagCodec.SplitJoin | src/common/dao/replication_job.go:287-289 | splitting the joined form of a non-empty list of comma-free tags gives the list back |
| TagCodec.JoinSplit | src/common/dao/replication_job.go:422 | joining the pieces of any split gives back the original string |
| TagCodec.SplitIsEmptyPiece | src/common/dao/replication_job.go:421-422 | a string splits into the single empty tag exactly when it is empty |
| TagCodec.ReadTags | src/common/dao/replication_job.go:419-424 | the tag list read back is never `[""]`, and it is empty exactly when the stored column is empty |
| TagCodec.TagRoundTrip | src/common/dao/replication_job.go:287-289 | for comma-free tags, a non-empty list written and read back is unchanged iff it is not `[""]`; an empty list with an empty column reads back empty |
| TagCodec.NonEmptyTagsRoundTrip | src/common/dao/replication_job.go:287-289 | tags that are all non-empty and comma-free read back as the same list in the same order |
| Jobs.LoadJob | src/common/dao/replication_job.go:419-424 | a job as read keeps every column of its row, and its tag list is rebuilt from `tags` |
| Jobs.GenTagListForJob | src/common/dao/replication_job.go:419-424 | each job of the array gets its tag list from its non-empty `tags` column, and the rest are unchanged; for jobs read with no tag list, the list is what `ReadTags` gives |
| Jobs.GetRepJob | src/common/dao/replication_job.go:294-303 | not found iff no row has the key; a found job is that row, loaded; a failed read is not reported: the result holds only the requested id |
| Jobs.AddThenGetJob | src/common/dao/replication_job.go:282-291 | an added job reads back under its key as the inserted row, loaded: status `pending` when none was given and the given status otherwise, every other column as given, and its tag list when the tags are non-empty and comma-free |
| Dao.Store.AddRepJob | src/common/dao/replication_job.go:282-291 | inserts the row with the default status and joined tags under a fresh key, and the job reads back with the defaulted status and its non-empty comma-free tags |
| Jobs.GetRepJobByPolicyExact | src/common/dao/replication_job.go:306-311 | the result holds only jobs of the policy, and every job of the policy |
| Jobs.GetRepJobToStopExact | src/common/dao/replication_job.go:355-361 | the result holds exactly the policy's pending, running and retrying jobs; finished, error and stopped jobs never appear |
| Jobs.GetRepJobByStatusExact | src/common/dao/replication_job.go:408-417 | the result holds exactly the jobs whose status is in the given list |
| Jobs.FilterRepJobs | src/common/dao/replication_job.go:337-347 | the result is marked failed iff the count or the read failed, and a failure gives no jobs and a total of 0 |
| Jobs.FilteredByUpdateExact | src/common/dao/replication_job.go:321-342 | the ordered matches are exactly the rows that pass every given filter, most recently updated first |
| Jobs.FilterRepJobsPage | src/common/dao/replication_job.go:314-352 | every returned job passes each given filter; the page has at most `limit` jobs in non-increasing update time; the total is the number of all matches |
| Jobs.FilterRepJobsWindow | src/common/dao/replication_job.go:342-344 | the page is the window of the ordered matches from `offset`: `limit` jobs, or as many as remain, none past the end; job k is the (offset+k)-th match, loaded |
| Jobs.FilterRepJobsPageMatches | src/common/dao/replication_job.go:321-335 | every job on the page passes every given filter |
| Jobs.FilterRepJobsPageOrdered | src/common/dao/replication_job.go:342 | the page is in non-increasing update time |
| Jobs.FilterRepJobsTotalIgnoresPage | src/common/dao/replication_job.go:337 | the total is the same for every limit and offset |
| Jobs.FilterRepJobsComplete | src/common/dao/replication_job.go:344 | a first page with a limit of at least the total holds every matching job |
| Jobs.SetJobStatus | src/common/dao/replication_job.go:380-392 | the rows with the key get the new status and update time and keep every other column; all other rows are unchanged |
| Jobs.SetStatusOfMissingJob | src/common/dao/replication_job.go:387-391 | when no row has the key, the update changes nothing and a read finds nothing |
| Jobs.SetStatusThenGet | src/common/dao/replication_job.go:380-392 | after the update the job reads back as before except for the new status and update time |
| Dao.Store.UpdateRepJobStatus | src/common/dao/replication_job.go:380-392 | returns an error exactly when the storage call fails, and then changes nothing; otherwise it applies `SetJobStatus`; a missing key changes nothing and is no error; the job reads back with the new status |
| Jobs.ResetRunningRepJobs | src/common/dao/replication_job.go:397-398 | no replication job is running after the reset |
| Jobs.ResetRunningScanJobs | src/common/dao/replication_job.go:402-403 | no scan job is running after the reset |
| Jobs.ResetRunningExact | src/common/dao/replication_job.go:395-405 | exactly the formerly running rows of both tables become pending with the new update time; all other rows are untouched |
| Jobs.ResetRunningIdempotent | src/common/dao/replication_job.go:395-405 | a second reset, at any time, changes neither table |
| Dao.Store.ResetRunningJobs | src/common/dao/replication_job.go:395-405 | if the first update fails nothing changes; if the second fails the first stays applied; either failure is reported; on success no job of either table is running |
| Jobs.DeleteJobRow | src/common/dao/replication_job.go:373-377 | exactly the rows with the key are removed, and the job no longer reads back |
| Dao.Store.DeleteRepJob | src/common/dao/replication_job.go:373-377 | the job table loses the rows with the key, and the job no longer reads back |
| Targets.GetRepTarget | src/common/dao/replication_job.go:35-43 | a found target is in the table with that key; nothing is found iff no row has the key |
| Targets.GetRepTargetByName | src/common/dao/replication_job.go:46-54 | a found target has exactly that name; nothing is found iff no row has it |
| Targets.GetRepTargetByEndpoint | src/common/dao/replication_job.go:57-67 | a found target has exactly that URL; nothing is found iff no row has it |
| Targets.FilterRepTargetsExact | src/common/dao/replication_job.go:85-104 | the listing holds exactly the targets whose name contains the filter, in non-decreasing creation time; an empty filter lists every target |
| Targets.UpdateTargetColumns | src/common/dao/replication_job.go:77-82 | only URL, name, credentials, insecure flag and update time of the row with the key change; key, creation time and all other rows are kept |
| Targets.UpdateMissingTarget | src/common/dao/replication_job.go:77-82 | updating a target that is not in the table changes nothing |
| Targets.UpdateThenGetTarget | src/common/dao/replication_job.go:77-82 | the updated target reads back with the new column values |
| Targets.DeleteTargetRow | src/common/dao/replication_job.go:70-74 | exactly the rows with the key are removed, and the target no longer reads back |
| Dao.Store.AddRepTarget | src/common/dao/replication_job.go:29-32 | appends the target under a fresh key that no row had, and it reads back; other tables are unchanged |
| Dao.Store.DeleteRepTarget | src/common/dao/replication_job.go:70-74 | the target table loses the rows with the key |
| Dao.Store.UpdateRepTarget | src/common/dao/replication_job.go:77-82 | the target table is rewritten by `UpdateTargetColumns`; a missing key changes nothing; the target reads back updated |
| Policies.GetRepPolicy | src/common/dao/replication_job.go:126-140 | a found policy has the key and is not deleted; nothing is found iff no active row has the key |
| Policies.GetRepPolicyByName | src/common/dao/replication_job.go:202-216 | a found policy has exactly that name and is not deleted; nothing is found iff no active row has it |
| Policies.GetRepPolicyByProject | src/common/dao/replication_job.go:219-230 | the result holds exactly the active policies of the project |
| Policies.GetRepPolicyByTarget | src/common/dao/replication_job.go:233-244 | the result holds exactly the active policies of the target |
| Policies.GetRepPolicyByProjectAndTarget | src/common/dao/replication_job.go:247-258 | the result holds exactly the active policies of the project and the target |
| Policies.ListingFilterIsTotalFilter | src/common/dao/replication_job.go:174-184 | the listing's case-by-case `where` clause agrees with the count's conjunction of optional filters |
| Policies.ErrorJobCountIsFailedJobs | src/common/dao/replication_job.go:167-171 | a policy's error job count is the number of its jobs in status `error` or `retrying` |
| Policies.Paginate | src/common/dao/replication_job.go:188-191 | with positive page and page size, row k of the page is row (page-1)*pageSize+k of the listing, and the page holds pageSize rows or all that remain from that row on, none past the end; otherwise the whole listing |
| Policies.OrderedExact | src/common/dao/replication_job.go:172-186 | the ordered matches are exactly the active policies passing both optional filters, in creation order, and there are as many as the count |
| Policies.FilterRepPoliciesRows | src/common/dao/replication_job.go:186-191 | a page is the `limit pageSize offset (page-1)*pageSize` window of the matches in creation order, each with its target name and error count filled in |
| Policies.FilterRepPoliciesPageLength | src/common/dao/replication_job.go:188-191 | a page holds pageSize matches or all that remain from match (page-1)*pageSize on, and a page past the end is empty |
| Policies.FilterRepPoliciesAll | src/common/dao/replication_job.go:186-191 | without pagination the listing is every match in creation order, filled in |
| Policies.ListedRow | src/common/dao/replication_job.go:163-172 | a listed match is active, passes both filters and carries its failed-job count |
| Policies.FilterRepPoliciesCounts | src/common/dao/replication_job.go:163-184 | every listed row is an active matching policy whose error count is the number of its `error` and `retrying` jobs |
| Policies.TotalIsUnpaginatedListing | src/common/dao/replication_job.go:143-155 | the total equals the length of the unpaginated listing, and no page is longer than the total |
| Policies.AddThenGetPolicy | src/common/dao/replication_job.go:107-123 | an added policy reads back under its key enabled, not deleted, created and updated at the insert time, and by name when no active policy had that name |
| Dao.Store.AddRepPolicy | src/common/dao/replication_job.go:107-123 | appends that row under a fresh key, and it reads back; other tables are unchanged |
| Policies.UpdatePolicyColumns | src/common/dao/replication_job.go:261-267 | project, target, name, description, trigger, filters, the replicate-deletion flag and update time of the row with the key change; key, enabled, deleted flag, creation time and all other rows are kept |
| Policies.UpdateThenGetPolicy | src/common/dao/replication_job.go:261-267 | an updated active policy reads back with the new column values |
| Dao.Store.UpdateRepPolicy | src/common/dao/replication_job.go:261-267 | the policy table is rewritten by `UpdatePolicyColumns`, and the policy reads back updated |
| Policies.SoftDeletePolicy | src/common/dao/replication_job.go:270-279 | only the deleted flag of the rows with the key changes, to 1 |
| Policies.SoftDeleteHides | src/common/dao/replication_job.go:126-258 | after a soft delete no getter, neither the listing nor the by-project/by-target queries, returns the policy |
| Policies.SoftDeleteKeepsOthers | src/common/dao/replication_job.go:270-279 | every other policy reads back as before |
| Dao.Store.DeleteRepPolicy | src/common/dao/replication_job.go:270-279 | the policy table is rewritten by `SoftDeletePolicy`; the policy no longer reads back, the others read as before, and the jobs of every policy are unchanged |
| Seqs.SortBy | src/common/dao/replication_job.go:95 | an `order by` result is sorted by its key and a permutation of its input |
| Seqs.Window | src/common/dao/replication_job.go:344 | a `limit … offset …` window has at most `limit` rows, row k being row offset+k, and is empty past the end |
| Seqs.ContainsAt | src/common/dao/replication_job.go:92-93 | a `like '%name%'` match holds iff the pattern occurs at some position of the string |

## Left out

- The database engine and ORM (`GetOrmer`, raw SQL, query builders,
  `LastInsertId`, `orm.ErrNoRows`) are abstracted to sequences. Keys come
  from per-table counters; insert failures are not modelled.
- Name and repository matching is a case-sensitive substring test.
  `escape` is not part of this model, and neither is the
  case-insensitive collation of `icontains` and `like`.
- `time.Now()` is a parameter; the clock is not modelled.
- `log.Warningf` for an update that touched no row is a side effect only
  and is left out.
- Storage failures of the target and policy operations, and of the job
  list queries, are not modelled. Only the four operations named above
  take a failure flag.
- Concurrency: races between workers calling `UpdateRepJobStatus` are
  out of scope; the model is sequential.
- The UNIQUE constraints on target name and URL are not enforced:
  `AddRepTarget` and `UpdateRepTarget` accept duplicates, and the lookups
  return the first match.
- The ORM model definitions (column defaults, automatic timestamps) are
  not part of this model. `AddRepTarget` and `AddRepJob` store the times
  the caller puts in the row.
- The scan-job table keeps only its key, `status` and `update_time`.
- Jobs.FilterRepJobs: limit and offset are natural numbers, and a limit
  of 0 gives an empty page. How the ORM treats a zero or negative limit
  (no `LIMIT` clause, or its default row cap) is not modelled.
- Policies.Paginate: `(page-1)*pageSize` is computed on unbounded
  integers, so 64-bit overflow is not modelled.
- Jobs.GetRepJobByStatus: an empty status list selects no rows. The
  ORM's handling of an empty `IN` list is not modelled.
- Policies.GetTotalOfRepPolicies is stated through
  `Policies.TotalIsUnpaginatedListing` and `Policies.OrderedExact`,
  since it is a count with no contract of its own.
- Rows with equal sort keys come out in an order the queries do not fix.
  `SortBy` is one such order; the lemmas do not rely on which one.
- `src/ui_ng/src/app/replication/replication.module.ts` is Angular module
  wiring with no logic, and is not modelled.
