# Proxy harvest pipeline: a Dafny model

This project models the proxy harvest pipeline of Proxy_Flask
(`file_celery/schedule_spider.py`). The pipeline has three parts:

- Configured spiders ("collectors") produce proxy candidates.
- Each candidate is validated by `check_proxy`. A valid one is merged into the
  `Proxy` catalog: a new `(ip, port)` is inserted, and a known one is refreshed
  in place.
- A Celery job wraps the run. It records the catalog size when the job is
  scheduled. On completion it stores the status, the end time and the net
  number of catalog rows gained (`harvest`).

Modules, one per component:

- `Wrappers` (`wrappers.dfy`): `Option` and `Result`.
- `Catalog` (`catalog.dfy`): the `Proxy` table as a class `ProxyTable`.
  - It holds a sequence of rows, and its invariant `Unique` says at most one
    row has a given `(ip, port)`.
  - `Find` is the `query(...).first()` lookup.
  - `ProxyTable.Merge` is the imperative upsert. It is proved equal to the
    specification function `Merged`, and the lemmas state the merge's
    properties about `Merged`.
- `SpiderNames` (`spider_names.dfy`): `rsplit('.', maxsplit=1)` as
  `SplitName`, and the loop resolving the configured names
  (`ResolveSpiders`). Python's import, attribute lookup and instantiation are
  the parameter `load`.
- `Harvest` (`harvest.dfy`): the per-spider loop (`ExecuteOneSpiderTask`),
  the loop over spiders (`Run`) and `Start`.
  - Each method is proved against a specification function: `MergeAll` for
    one spider and `RunAll` for a run.
  - The lemmas state key preservation, uniqueness, net yield, failure isolation
    and replay idempotence about those functions.
  - A spider is its sequence of proxies plus the position, if any, where
    processing raises (`failAt`).
  - `check_proxy` is a function parameter `check`.
- `Jobs` (`jobs.dfy`): the `CeleryTask` table as a class `JobTracker` holding a
  map from task id to job row.
  - `ScheduleSpider` models `schedule_spider`. `OnSuccess` and `OnFailure`
    model the callbacks.
  - `SpiderJob` chains scheduling, the run and the matching callback. It
    proves that the recorded harvest equals the number of newly seen keys.

Two behaviours of the code are worth stating outright, and the model follows them:

- On insert, the new row takes the validated record's own `score`
  (`schedule_spider.py:73`). No default initial score or zero power is applied
  on insert; the reset to `MAX_SCORE` and power 0 happens only on update.
- The `try` encloses the whole `for` loop of a spider
  (`schedule_spider.py:52-99`). An exception while validating or merging one
  proxy therefore ends that spider's remaining work. It does not just skip the
  one candidate.

## Model

| member | source | states |
|---|---|---|
| `Catalog.Find` | file_celery/schedule_spider.py:60-63 | Yields the first row whose `(ip, port)` is the key, and `None` exactly when no row has that key |
| `Catalog.MergeOutcome` | file_celery/schedule_spider.py:59-96 | The merge is rejected exactly when speed is -1, inserts exactly when the record is valid and its key is absent, and updates exactly when valid and present |
| `Catalog.MergeRejected` | file_celery/schedule_spider.py:58-59 | A record whose speed is -1 leaves the table unchanged |
| `Catalog.MergeInserts` | file_celery/schedule_spider.py:65-79 | A valid record with an unseen key adds exactly one row. The old rows are kept as they were. The new row carries ip, port, protocol, nick_type, speed, area, score, disable_domain and origin from the record, and `create_time = now` |
| `Catalog.MergeUpdates` | file_celery/schedule_spider.py:82-92 | A valid record with a known key keeps the count. On the matching row, score becomes `MAX_SCORE` and power 0 whatever they were, and the mutable fields take the record's values. Key and `create_time` are unchanged, and every other row is untouched |
| `Catalog.MergedKeys` | file_celery/schedule_spider.py:59-92 | The key set after a merge is the old key set plus the record's key if the record is valid, and is unchanged otherwise |
| `Catalog.MergedUnique` | file_celery/schedule_spider.py:61-79 | A merge preserves "at most one row per `(ip, port)`" |
| `Catalog.MergedCount` | file_celery/schedule_spider.py:65-92 | The row count rises by exactly 1 when a valid record has an unseen key, and is unchanged otherwise |
| `Catalog.MergeReplay` | file_celery/schedule_spider.py:61-92 | Merging the same record a second time changes neither the key set nor the count |
| `Catalog.UniqueCount` | file_celery/schedule_spider.py:141 | In a table with unique keys the row count equals the number of distinct keys |
| `Catalog.ProxyTable.Count` | file_celery/schedule_spider.py:177 | `query(Proxy).count()` is the number of distinct keys in the table |
| `Catalog.ProxyTable.Merge` | file_celery/schedule_spider.py:58-96 | The table after the call is `Merged` of the old table, the invariant `Unique` is kept, and the reported outcome is the branch taken |
| `SpiderNames.LastDot` | file_celery/schedule_spider.py:32 | Finds the last `.` of a name, and `None` exactly when the name has no dot |
| `SpiderNames.SplitName` | file_celery/schedule_spider.py:32 | On success `module + "." + cls == full_name` and `cls` has no dot. It fails with an unpacking error exactly when the name has no dot |
| `SpiderNames.LastDotOfJoin` | file_celery/schedule_spider.py:32 | In `module + "." + cls` with a dot-free `cls`, the last dot is the joining one |
| `SpiderNames.JoinThenSplit` | file_celery/schedule_spider.py:32 | Splitting `module + "." + cls`, with `cls` dot-free, gives back `(module, cls)` |
| `SpiderNames.ResolveSpiders` | file_celery/schedule_spider.py:30-43 | Resolves every name in order. It succeeds exactly when every name splits and loads. On failure it reports the first name that does not, as a split error or as an unresolvable class |
| `Harvest.ExecuteOneSpiderTask` | file_celery/schedule_spider.py:45-99 | The table becomes the in-order merge of the spider's validated proxies up to, not including, the one whose processing raises, and `Unique` is kept |
| `Harvest.Run` | file_celery/schedule_spider.py:106-110 | The table becomes every spider's task applied in turn, and `Unique` is kept |
| `Harvest.Start` | file_celery/schedule_spider.py:101-121 | Resolves the names (`get_spider_obj_from_settings`, :30-43) and then runs the spiders. A name that does not resolve aborts the run before any merge. Otherwise the table is the run over the loaded spiders |
| `Harvest.MergeAllKeys` | file_celery/schedule_spider.py:54-92 | One spider adds exactly the keys of its processed proxies that validate |
| `Harvest.MergeAllUnique` | file_celery/schedule_spider.py:54-92 | One spider's merges keep at most one row per key |
| `Harvest.RunAllKeys` | file_celery/schedule_spider.py:106-110 | After a run, the key set is the old key set plus the keys of every spider's validated, processed proxies |
| `Harvest.RunAllUnique` | file_celery/schedule_spider.py:106-110 | A run keeps at most one row per key |
| `Harvest.RunAllCount` | file_celery/schedule_spider.py:106-110 | A run grows the row count by exactly the number of harvested keys not present before |
| `Harvest.Isolation` | file_celery/schedule_spider.py:52-110 | Whatever spiders fail and where, every validated proxy that a spider processed before its own fault is in the table afterwards. Every key in the table was already there or comes from such a proxy |
| `Harvest.FailureTruncates` | file_celery/schedule_spider.py:52-99 | A spider raising at position i leaves the table exactly as a spider producing only its first i proxies would, whatever the other spiders do |
| `Harvest.RunReplay` | file_celery/schedule_spider.py:106-110 | Running the same spiders a second time changes neither the key set nor the count |
| `Harvest.TwoSpidersExample` | file_celery/schedule_spider.py:54-92 | Spider A yields X:1 (speed 50) and an invalid proxy; spider B yields X:1 (speed 80). A runs at time t1 and B at t2. From an empty table this leaves one row, X:1, with B's speed and origin, score reset to the maximum, and `create_time` t1 from A's insert |
| `Jobs.JobTracker.ScheduleSpider` | file_celery/schedule_spider.py:169-181 | Adds a row named `spider` for the new task id, with `harvest` equal to the current catalog count. Other rows are kept |
| `Jobs.JobTracker.Complete` | file_celery/schedule_spider.py:138-143 | If the id exists, its row gets the end time and status, and `harvest` becomes count minus the stored baseline. Other rows are unchanged, and a missing id changes nothing |
| `Jobs.JobTracker.OnSuccess` | file_celery/schedule_spider.py:129-143 | Status 0, end time set, `harvest` = count at completion minus the baseline. Other rows are unchanged |
| `Jobs.JobTracker.OnFailure` | file_celery/schedule_spider.py:145-161 | Status -1, end time set, `harvest` = count at completion minus the baseline. Other rows are unchanged |
| `Jobs.SpiderJob` | file_celery/schedule_spider.py:164-181 | Over schedule, run and callback: status is 0 after a completed run and -1 after a configuration failure. The table is the run's result, or unchanged when the run aborted. `harvest` equals the catalog's growth over the run: the number of newly seen keys, or 0 when the run aborted. Exactly one job row is added, and every other row is unchanged |

## Left out

- The gevent monkey-patching and coroutine pool (`schedule_spider.py:1-4, 20, 107, 110`). Spiders run one after the other, which is one interleaving the pool allows. The same-key insert race between two concurrent spiders and the race between `delay()` and recording the baseline are not modelled.
- A spider name that fails to resolve is modelled as aborting the run before any spider runs. Greenlets already handed to the pool for earlier names may, in the source, still run later; that is not modelled.
- Module import, `getattr` and instantiation of spider classes: these are the parameter `load`. `get_proxies()` is the spider's given sequence of proxies.
- `check_proxy` is the parameter `check`, a fixed function: the same proxy always gets the same verdict. The source probes the network afresh each time, so a proxy may validate on one run and not on the next. `Harvest.RunReplay` rests on this assumption, since it gives both runs the same `check`.
- The score reset on update (`schedule_spider.py:83-84`) changes the `score` dict inside the row in place. The model treats it as persisted by the commit at :92. With a plain SQLAlchemy JSON column such an in-place change is not detected and not written; it is written only if the column is declared mutation-tracked (for example `MutableDict`) in `models.py`, which is not part of this model. `Catalog.MergeUpdates`, `Catalog.ProxyTable.Merge` and `Harvest.TwoSpidersExample` rest on this assumption.
- The exception raised while producing, validating or merging a proxy is the spider's `failAt` position. Partial effects of a merge that raises midway (for example, a failed commit) are not modelled; the proxy at the fault point is not merged.
- SQLAlchemy sessions (query, add, commit, close) and the `close` skipped on the exception path. The table is a sequence of rows. An in-place update of the `exist` row object is modelled as replacing the row at its index, so aliasing of row objects is not captured.
- `datetime.now()` is a timestamp parameter. All inserts of one run share one timestamp.
- Logging. The three log branches of a merge are reported as the `Outcome` value.
- The `str()` conversions applied to ip, port, area and origin: the model takes these fields as strings already. `speed` is an integer; a floating-point speed is not modelled.
- `settings.py` is not part of this model, so the value of `MAX_SCORE` (50 here) is assumed; no proof depends on it. `models.py` is not part of this model either, so the `task_status` a `CeleryTask` row has before a callback runs is shown as `None`.
- Celery's task decorators and the `delay()` transport. `delay_spider` is `Start`. The only run-level failure modelled is a configuration error; other infrastructure failures that reach `on_failure` are not modelled.
- Jobs.JobTracker.ScheduleSpider: requires a task id not yet recorded. That is the contract of `delay()`, which hands out a fresh id; the source does not check it.
- Catalog.ProxyTable.constructor: requires the initial table to have unique keys, the invariant every merge keeps.
