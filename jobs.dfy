/**
 * Job tracking for the spider run, from `schedule_spider` and
 * `CallbackTask.on_success` / `CallbackTask.on_failure` in
 * file_celery/schedule_spider.py.
 *
 * Scheduling records a `CeleryTask` row whose `harvest` column holds the
 * catalog count at submission; the completion callback stamps the end
 * time, writes the status and replaces `harvest` with the count at
 * completion minus that baseline.
 */
module Jobs {
  import opened Wrappers
  import opened Catalog
  import opened SpiderNames
  import opened Harvest

  /** The `task_status` written by `on_success`. */
  const SUCCESS_STATUS: int := 0

  /** The `task_status` written by `on_failure`. */
  const FAILURE_STATUS: int := -1

  /**
   * A `CeleryTask` row. `endTime` and `status` are `None` until a callback
   * writes them.
   */
  datatype JobRecord = JobRecord(taskName: string, harvest: int, endTime: Option<int>, status: Option<int>)

  /** The `CeleryTask` table, keyed by the task id. */
  class JobTracker {
    var jobs: map<string, JobRecord>

    constructor ()
      ensures jobs == map[]
    {
      jobs := map[];
    }

    /**
     * `schedule_spider`: `taskId` is the id `delay_spider.delay()` handed
     * out; the new row is named `spider` and keeps the current catalog
     * count as its baseline.
     */
    method ScheduleSpider(taskId: string, table: ProxyTable)
      requires taskId !in jobs
      requires table.Valid()
      modifies this
      ensures jobs == old(jobs)[taskId := JobRecord("spider", table.Count(), None, None)]
      ensures jobs[taskId].harvest == |Keys(table.rows)|
    {
      jobs := jobs[taskId := JobRecord("spider", table.Count(), None, None)];
    }

    /**
     * The work shared by both callbacks. Without a row for `taskId` the
     * lookup yields `None` and the first attribute write raises, so nothing
     * changes.
     */
    method Complete(taskId: string, status: int, table: ProxyTable, now: int) returns (found: bool)
      requires table.Valid()
      modifies this
      ensures found == (taskId in old(jobs))
      ensures !found ==> jobs == old(jobs)
      ensures found ==> jobs.Keys == old(jobs).Keys
      ensures found ==> jobs[taskId] == old(jobs[taskId]).(
        endTime := Some(now), status := Some(status), harvest := table.Count() - old(jobs[taskId].harvest))
      ensures forall id :: id in old(jobs) && id != taskId ==> jobs[id] == old(jobs[id])
    {
      if taskId !in jobs {
        return false;
      }
      var task := jobs[taskId];
      jobs := jobs[taskId := task.(endTime := Some(now), status := Some(status),
                                   harvest := table.Count() - task.harvest)];
      return true;
    }

    /** `on_success`: status 0, end time set, harvest = count now minus the baseline. */
    method OnSuccess(taskId: string, table: ProxyTable, now: int) returns (found: bool)
      requires table.Valid()
      modifies this
      ensures found == (taskId in old(jobs))
      ensures !found ==> jobs == old(jobs)
      ensures found ==> jobs.Keys == old(jobs).Keys
      ensures found ==> jobs[taskId].status == Some(SUCCESS_STATUS) && jobs[taskId].endTime == Some(now)
      ensures found ==> jobs[taskId].harvest == table.Count() - old(jobs[taskId].harvest)
      ensures found ==> jobs[taskId].taskName == old(jobs[taskId].taskName)
      ensures forall id :: id in old(jobs) && id != taskId ==> jobs[id] == old(jobs[id])
    {
      found := Complete(taskId, SUCCESS_STATUS, table, now);
    }

    /** `on_failure`: status -1, end time set, harvest = count now minus the baseline. */
    method OnFailure(taskId: string, table: ProxyTable, now: int) returns (found: bool)
      requires table.Valid()
      modifies this
      ensures found == (taskId in old(jobs))
      ensures !found ==> jobs == old(jobs)
      ensures found ==> jobs.Keys == old(jobs).Keys
      ensures found ==> jobs[taskId].status == Some(FAILURE_STATUS) && jobs[taskId].endTime == Some(now)
      ensures found ==> jobs[taskId].harvest == table.Count() - old(jobs[taskId].harvest)
      ensures found ==> jobs[taskId].taskName == old(jobs[taskId].taskName)
      ensures forall id :: id in old(jobs) && id != taskId ==> jobs[id] == old(jobs[id])
    {
      found := Complete(taskId, FAILURE_STATUS, table, now);
    }
  }

  /**
   * One tracked harvest: schedule the job, run `RunSpider.start`, and let
   * the callback that matches its outcome finalize the job. The recorded
   * harvest is the growth of the catalog over the run, which is the number
   * of newly seen keys.
   */
  method SpiderJob(tracker: JobTracker, table: ProxyTable, taskId: string, names: seq<string>,
                   load: ((string, string)) -> Option<Spider>, check: Record -> Record,
                   runTime: int, endTime: int)
    returns (err: Option<ConfigError>)
    requires table.Valid() && taskId !in tracker.jobs
    modifies tracker, table
    ensures table.Valid()
    ensures err.Some? ==> table.rows == old(table.rows)
    ensures err.None? <==> forall i :: 0 <= i < |names| ==> Resolvable(names[i], load)
    ensures err.None? ==> table.rows == RunAll(old(table.rows), LoadedSpiders(names, load), check, runTime)
    ensures tracker.jobs.Keys == old(tracker.jobs).Keys + {taskId}
    ensures forall id :: id in old(tracker.jobs) ==> tracker.jobs[id] == old(tracker.jobs[id])
    ensures taskId in tracker.jobs && tracker.jobs[taskId].taskName == "spider"
    ensures tracker.jobs[taskId].status == Some(if err.None? then SUCCESS_STATUS else FAILURE_STATUS)
    ensures tracker.jobs[taskId].endTime == Some(endTime)
    ensures tracker.jobs[taskId].harvest == |table.rows| - |old(table.rows)|
    ensures err.Some? ==> tracker.jobs[taskId].harvest == 0
    ensures err.None? ==>
      tracker.jobs[taskId].harvest == |HarvestedKeys(LoadedSpiders(names, load), check) - Keys(old(table.rows))|
  {
    tracker.ScheduleSpider(taskId, table);
    err := Start(table, names, load, check, runTime);
    var found;
    if err.None? {
      found := tracker.OnSuccess(taskId, table, endTime);
      RunAllCount(old(table.rows), LoadedSpiders(names, load), check, runTime);
    } else {
      found := tracker.OnFailure(taskId, table, endTime);
    }
  }
}
