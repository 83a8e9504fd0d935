/** The rows of the replication tables and the job status vocabulary.
    Ids are the tables' auto-increment keys, timestamps are integers
    supplied by the caller, and statuses are the literal strings the
    tables store. */
module Models {

  const JobPending: string := "pending"
  const JobRunning: string := "running"
  const JobRetrying: string := "retrying"
  const JobError: string := "error"
  const JobStopped: string := "stopped"
  const JobFinished: string := "finished"

  /** Statuses of jobs that workers may still be handling. */
  const StopStatuses: seq<string> := [JobPending, JobRunning, JobRetrying]

  /** Statuses counted as failed jobs in the policy listing. */
  const ErrorStatuses: seq<string> := [JobError, JobRetrying]

  /** A row of `replication_target`: a remote registry endpoint. */
  datatype RepTarget = RepTarget(
    id: int,
    url: string,
    name: string,
    username: string,
    password: string,
    insecure: bool,
    creationTime: int,
    updateTime: int)

  /** A row of `replication_policy`. `targetName` and `errorJobCount` are not
      columns: only the policy listing fills them, from a join. */
  datatype RepPolicy = RepPolicy(
    id: int,
    projectId: int,
    targetId: int,
    name: string,
    enabled: int,
    description: string,
    trigger: string,
    filters: string,
    replicateDeletion: bool,
    deleted: int,
    creationTime: int,
    updateTime: int,
    targetName: string,
    errorJobCount: int)

  /** A row of `replication_job`. `tagList` is not a column: it is rebuilt
      from `tags` after a read. */
  datatype RepJob = RepJob(
    id: int,
    policyId: int,
    repository: string,
    operation: string,
    tags: string,
    tagList: seq<string>,
    status: string,
    creationTime: int,
    updateTime: int)

  /** The two columns of the externally owned scan-job table that recovery
      touches, with the row's key. */
  datatype ScanJob = ScanJob(id: int, status: string, updateTime: int)

  /** A job whose read failed with an error other than "no rows": only the
      id the caller asked for is set. */
  function UnreadJob(id: int): RepJob
  {
    RepJob(id, 0, "", "", "", [], "", 0, 0)
  }
}
