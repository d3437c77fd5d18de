# Home Network Monitor — a Dafny model of the backend core

The Home Network Monitor backend pings a list of hosts on a schedule. It
stores every probe outcome in SQLite. It serves the time series, per-host
statistics and current status over HTTP. A daily job deletes data older than
the retention period, and a monthly job runs VACUUM.

This project models that backend as pure functions over immutable values:

- **Tables**: the two tables `ping_results` and `hosts`, together with their
  AUTOINCREMENT counters. `Database.Valid` states the schema's constraints:
  ids increase and stay below their counters, and hostnames are unique.
  Every write is an `Exec`: the tables afterwards and an `Outcome` that is
  either the value returned or the error raised. Each write takes a fault
  oracle (`Option<string>`) that decides whether the statement raises, in
  which case its transaction rolls back.
- **Repository**: every query of the ping repository as a function of the
  tables. This covers insertion, the range query (ordering and `LIMIT`), the
  `AVG`/`MIN`/`MAX`/success-rate aggregate with its truthiness filter, the
  registry queries, `delete_host`, `delete_old_pings` and the current-status
  report.
- **Probe service**: the retry loop. The network is an oracle: a sequence
  holding the outcome of each attempt.
- **Services**: the scheduler's probe cycle, `ping_now`, and the cleanup
  service's jobs and bookkeeping. The clock readings are parameters.
- **Settings and startup**: the defaults, the comma-list parser, the
  lifespan handler's startup and shutdown, and the status-code decisions of
  the HTTP routes.

The module layout follows the source tree:

| module | file |
|---|---|
| `Wrappers` (`Option`, `Outcome`), `Seqs`, `Sorting`, `Strings`, `Aggregates` | helpers |
| `Schemas` | `models/schemas.py` |
| `Database` | `config/database.py` |
| `Config` | `config/settings.py` |
| `PingRepository` | `repositories/ping_repository.py` |
| `PingService` | `services/ping_service.py` |
| `SchedulerService` | `services/scheduler_service.py` |
| `CleanupService` | `services/cleanup_service.py` |
| `Lifespan` | `main.py` |
| `Api` | `routers/api.py` |

Timestamps are integers in milliseconds, as the source stores them.
Latencies and percentages are Dafny `real`s. Strings are `seq<char>`, and
text ordering is SQLite's BINARY collation (`Strings.StrLe`).

## Model

| member | source | states |
|---|---|---|
| Database.Apply | backend/app/config/database.py:11-34 | Only an INSERT into `hosts` whose hostname is already registered is refused (the UNIQUE constraint); no statement lowers an AUTOINCREMENT counter |
| Database.ApplyValid | backend/app/config/database.py:11-34 | Every statement the repository issues preserves the schema's constraints: increasing ids below the counters and unique hostnames |
| Database.ExecuteUpdate | backend/app/config/database.py:71-100 | A raising statement rolls back and leaves the tables unchanged; on success the INSERT's `lastrowid` is the id the table's counter handed out, and other statements return none; validity is preserved |
| Database.Initialize | backend/app/config/database.py:50-69 | Sets the initialised flag; on first use creates the missing tables and keeps any existing rows; once initialised, a call does nothing |
| Database.InitializeIdempotent | backend/app/config/database.py:50-53 | Initialising twice equals initialising once |
| Schemas.NewPingResult | backend/app/models/schemas.py:6-12 | Optional fields default to None, so such a record is not yet a consistent probe outcome |
| Schemas.NewHost | backend/app/models/schemas.py:26-32 | A host built from a name pair keeps both names, is enabled, and has no id or creation time yet |
| Schemas.NewHostStatus | backend/app/models/schemas.py:60-70 | A fresh status carries the host's identity and no measurement: no last ping, latency, average or uptime, and not successful |
| Config.DefaultValues | backend/app/config/settings.py:10-23 | The defaults are port 8000, ping interval 60 s, timeout 5 s, 2 retries, database ./data/pings.db, 120 retention days and cleanup hour 2 |
| Config.DefaultMonitoredHosts | backend/app/config/settings.py:26 | The default monitored hosts parse to router.local, 8.8.8.8 and 1.1.1.1, in that order |
| Config.DefaultCorsOrigins | backend/app/config/settings.py:29 | The default CORS origins parse to the two local development servers |
| Config.Clean | backend/app/config/settings.py:37 | The cleaned list holds exactly the non-empty stripped pieces, each non-empty and without surrounding whitespace, and is no longer than the input |
| Config.CleanSnoc | backend/app/config/settings.py:37 | Cleaning works piece by piece in order: nothing gives nothing, and one more piece adds its stripped form at the end unless that is blank. This fixes both the order and the multiplicity of the result |
| Config.ParseList | backend/app/config/settings.py:35-41 | A parsed item is a stripped comma-separated piece exactly when that piece is non-blank; no item is empty, padded or contains a comma |
| Config.ParseListPositions | backend/app/config/settings.py:35-41 | The k-th item is the stripped form of a comma-separated piece, the pieces used are in increasing order, and every piece that is not blank is used: the items are the non-blank stripped pieces, in order, one per piece |
| Config.MonitoredHostsList | backend/app/config/settings.py:35-37 | The list is the parse of `monitored_hosts`: it holds exactly the non-blank stripped comma-separated pieces of that setting, each non-empty, stripped and comma-free |
| Config.CorsOriginsList | backend/app/config/settings.py:39-41 | The list is the parse of `cors_origins`: it holds exactly the non-blank stripped comma-separated pieces of that setting, each non-empty, stripped and comma-free |
| Config.ParseJoin | backend/app/config/settings.py:35-41 | Parsing the comma-join of non-blank, stripped, comma-free items gives back exactly those items in order (the round trip) |
| Config.ParseSingle | backend/app/config/settings.py:35-41 | A non-blank value with no comma is a one-item list holding the stripped value |
| Config.ParseBlank | backend/app/config/settings.py:35-41 | A value made only of whitespace, or the empty value, parses to the empty list |
| Config.CleanClean | backend/app/config/settings.py:37 | Cleaning items that are already non-blank and stripped keeps every one of them |
| PingRepository.InsertPingResult | backend/app/repositories/ping_repository.py:11-24 | Without a fault, exactly one row is appended and it decodes back to the inserted result (success stored as 1/0 and read back as a boolean); with a fault, nothing changes and the error propagates; the registry is untouched |
| PingRepository.EncodeSuccessRoundTrip | backend/app/repositories/ping_repository.py:21 | Reading back the 1/0 encoding of a success flag gives the flag |
| PingRepository.RangeRows | backend/app/repositories/ping_repository.py:42 | A row is selected exactly when it is stored, names the host and has start <= timestamp <= end, both ends inclusive |
| PingRepository.Matching | backend/app/repositories/ping_repository.py:42-57 | One result per stored row of the host inside the range: each result is such a row read back, every such row appears, and there are exactly as many results as such rows |
| PingRepository.MatchingAppend | backend/app/repositories/ping_repository.py:39-57 | Appending one row to the table appends its read-back result to the range query exactly when the row is the host's and inside the range, and changes nothing else |
| PingRepository.MinReported | backend/app/repositories/ping_repository.py:249-271 | A nonzero stored latency no larger than any other non-NULL latency is the reported minimum |
| PingRepository.MaxReported | backend/app/repositories/ping_repository.py:250-272 | A nonzero stored latency no smaller than any other non-NULL latency is the reported maximum |
| PingRepository.GetPingData | backend/app/repositories/ping_repository.py:39-57 | Results are in range, ascending by timestamp, at most `limit` in number (all of them when fewer match, none cut when the limit is negative), a sub-multiset of the matching results, and no kept result is later than any result left out: LIMIT keeps the oldest |
| PingRepository.OldestOf | backend/app/repositories/ping_repository.py:43-44 | `ORDER BY timestamp ASC LIMIT ?` over any results: ascending, at most `limit` long (exactly min(limit, count) when the limit is non-negative, everything when it is negative or large enough), drawn from the input as a multiset, and never later than a result it leaves out |
| PingRepository.OldestFirst | backend/app/repositories/ping_repository.py:43-44 | Sorting ascending and then cutting to the limit gives a sorted sub-multiset of the size the limit allows, and it precedes every result dropped |
| PingRepository.InsertThenQuery | backend/app/repositories/ping_repository.py:11-57 | After an insert, a query sees exactly its earlier results plus the inserted result when that result matches, and nothing new otherwise; with room under the limit, the inserted result is returned |
| PingRepository.GetHosts | backend/app/repositories/ping_repository.py:121-139 | Lists every registered host exactly once, enabled or not, ascending by display name |
| PingRepository.GetHostsUnique | backend/app/repositories/ping_repository.py:121-139 | On valid tables, no two entries of the listing share a hostname (the UNIQUE column, carried through the sort) |
| PingRepository.HostRowsByName | backend/app/repositories/ping_repository.py:123-128 | The rows are a permutation of the `hosts` table ordered by display name |
| PingRepository.FindHost | backend/app/repositories/ping_repository.py:148-153 | Finds nothing exactly when no row satisfies the predicate; otherwise returns a stored row that satisfies it |
| PingRepository.GetHostById | backend/app/repositories/ping_repository.py:141-160 | Returns None exactly when no row has that id; otherwise returns a stored row with that id, read as a Host |
| PingRepository.GetHostByHostname | backend/app/repositories/ping_repository.py:162-181 | Returns None exactly when the hostname is not registered; otherwise returns the stored host with that exact hostname |
| PingRepository.LookupById | backend/app/repositories/ping_repository.py:141-160 | In valid tables, looking up a stored host's id returns that very host |
| PingRepository.AddHost | backend/app/repositories/ping_repository.py:183-198 | Succeeds exactly when there is no fault and the hostname is new. The host is stored enabled, created at `now`, with an id above every earlier id, and is found by its hostname afterwards. A duplicate or a fault raises and changes nothing |
| PingRepository.DeleteHost | backend/app/repositories/ping_repository.py:200-218 | An unknown id returns False and changes nothing. A known id deletes exactly that host's ping rows, then exactly that host. The two statements commit separately, so a fault in the second leaves the pings deleted and raises |
| PingRepository.DeleteHostThenQuery | backend/app/repositories/ping_repository.py:200-218 | After a fault-free delete, neither the deleted id nor its hostname is found, while every other host is still found by its id |
| PingRepository.DeleteHostThenRange | backend/app/repositories/ping_repository.py:212-216 | After a fault-free delete, no ping row names the deleted host, and every other host's range query returns what it returned before |
| PingRepository.IdNotReusedAfterDelete | backend/app/repositories/ping_repository.py:183-218 | A host added after a delete gets an id larger than the deleted host's id (AUTOINCREMENT never reuses ids) |
| PingRepository.DeleteOldPings | backend/app/repositories/ping_repository.py:220-237 | Deletes exactly the rows strictly older than the cutoff (`retention_days` days before now) and returns how many it deleted; every row left is at or after the cutoff; the count is 0 exactly when nothing was older, and then the tables are unchanged; a fault changes nothing and propagates |
| PingRepository.DeleteOldPingsTwice | backend/app/repositories/ping_repository.py:220-237 | A second retention run at the same instant deletes nothing and changes nothing |
| PingRepository.Percentage | backend/app/repositories/ping_repository.py:267 | The exact success rate is in [0, 100], 0 exactly when nothing succeeded and 100 exactly when everything did |
| PingRepository.Truthy | backend/app/repositories/ping_repository.py:270-272 | `x if x else None` keeps a value exactly when it is present and nonzero |
| PingRepository.StatsOf | backend/app/repositories/ping_repository.py:246-274 | With no row, the latencies are None and the rate is 0.0. Otherwise the exact rate is in [0, 100], 100 exactly when every row has success = 1 and 0 exactly when none does. All-NULL latencies give None. A reported minimum or maximum is a stored nonzero latency bounding every non-NULL latency, and conversely a nonzero latency that is the smallest (largest) stored one is reported as the minimum (maximum). The average is the truthiness-filtered AVG of the non-NULL latencies, and the rate is the percentage of rows with success = 1 |
| PingRepository.StatsOrdered | backend/app/repositories/ping_repository.py:248-250 | When all three are reported, min <= avg <= max |
| PingRepository.ZeroMinimumReportedAsNone | backend/app/repositories/ping_repository.py:271 | With non-negative latencies, one of which is 0 ms, the minimum is reported as None: the truthiness test hides a real zero |
| PingRepository.LatestRow | backend/app/repositories/ping_repository.py:71-78 | Picks a row with the largest timestamp; there is none exactly when the host has no rows |
| PingRepository.HostRows | backend/app/repositories/ping_repository.py:74 | Selects exactly the stored rows that name the host |
| PingRepository.WindowRows | backend/app/repositories/ping_repository.py:81-92 | Selects exactly the host's rows no older than 24 hours before now, with no upper bound |
| PingRepository.WindowWithinHistory | backend/app/repositories/ping_repository.py:71-92 | A host with rows in the 24-hour window has rows at all |
| PingRepository.StatusOf | backend/app/repositories/ping_repository.py:95-115 | A status carries the host's identity. The last ping, latency and success come from a latest row, present exactly when the host has rows. Uptime is present exactly when the 24-hour window holds a row; it is then the exact percentage of window rows with success = 1, in [0, 100], and hits 100 or 0 exactly when all or none succeeded. A 24-hour average implies a window row with a latency |
| PingRepository.GetCurrentStatus | backend/app/repositories/ping_repository.py:59-119 | One status per registered host, disabled hosts included, in display-name order, each one the status of its host |
| PingService.OrDefault | backend/app/services/ping_service.py:20-21 | `x or fallback`: an absent or zero argument gives the setting |
| PingService.NewPingService | backend/app/services/ping_service.py:12-21 | Timeout and retries are the arguments, or the settings when an argument is absent or zero |
| PingService.ZeroRetriesFallBack | backend/app/services/ping_service.py:20-21 | Under the default settings an explicit 0 retries becomes 2 and an explicit 0 timeout becomes 5, so no call yields 0 retries |
| PingService.Success | backend/app/services/ping_service.py:50-56 | A success carries a latency and no error |
| PingService.Failure | backend/app/services/ping_service.py:62-68 | A failure carries an error and no latency |
| PingService.RetryFrom | backend/app/services/ping_service.py:35-84 | From attempt i, tries in order until the first reply, making no more than retries + 1 attempts in all; on a reply, the result is a success with its round-trip time; without one, the failure reports the last attempt's error |
| PingService.ExecutePing | backend/app/services/ping_service.py:23-93 | The result echoes the host and timestamp and is consistent. With negative retries no attempt is made and the result is "Maximum retries exceeded". Otherwise at most retries + 1 attempts are made, the first reply wins and gives the latency, and a failure's error comes from the last attempt alone |
| PingService.FirstReplyWins | backend/app/services/ping_service.py:35-56 | When attempt k is the first reply within the allowed attempts, the result is a success with k's round-trip time after k + 1 attempts |
| PingService.ExecutePingLoop | backend/app/services/ping_service.py:33-93 | The loop as written, with its early returns, computes the same result and attempt count as the recursive definition |
| SchedulerService.Start | backend/app/services/scheduler_service.py:24-43 | Start sets running; it is a no-op while running, and otherwise registers the job at the configured interval |
| SchedulerService.Stop | backend/app/services/scheduler_service.py:45-54 | Stop clears running and is a no-op while stopped |
| SchedulerService.StartStopIdempotent | backend/app/services/scheduler_service.py:24-54 | Starting twice is starting once; stopping twice is stopping once |
| SchedulerService.PingAndStore | backend/app/services/scheduler_service.py:86-109 | The answer is true exactly when the ping succeeded and storing did not raise; storing appends one row that decodes to the probe's result; a store error is swallowed and changes nothing |
| SchedulerService.RunProbes | backend/app/services/scheduler_service.py:69-75 | Each probe's answer is true exactly when its ping succeeded and was stored; the stored results follow the existing rows in probe order; the registry is untouched and validity preserved |
| SchedulerService.EnabledHosts | backend/app/services/scheduler_service.py:60-61 | Exactly the enabled hosts of the listing are kept, still ascending by display name |
| SchedulerService.EnabledHostsPositions | backend/app/services/scheduler_service.py:60-61 | The k-th enabled host is the listing's entry at position idx[k], the positions increase, and every enabled entry of the listing is at one of them: the enabled entries, in listing order, each once |
| SchedulerService.EnabledHostsUnique | backend/app/services/scheduler_service.py:60-61 | On valid tables no hostname occurs twice among the enabled hosts |
| SchedulerService.PingAllHosts | backend/app/services/scheduler_service.py:56-84 | Probes the hostnames of the enabled hosts, one probe per enabled host. Successes plus failures equals the number of enabled hosts, and successes counts the true answers. With no enabled host, nothing changes. The new rows are the stored results, in order |
| SchedulerService.PingAllHostsOrder | backend/app/services/scheduler_service.py:56-75 | The probed hostnames are those of the listing's enabled entries, in listing order, none skipped; on valid tables no hostname is probed twice |
| SchedulerService.StoredCount | backend/app/services/scheduler_service.py:75-79 | A cycle never counts more successes than it stored rows |
| SchedulerService.PingNow | backend/app/services/scheduler_service.py:111-138 | Without a store error, the report carries the result's fields and one row decoding to the result is stored; with one, the report is a failure with no latency or timestamp and the exception's text as error, and nothing is stored; a reported success has a latency and no error |
| CleanupService.Schedules | backend/app/services/cleanup_service.py:32-47 | The cleanup job fires every day at cleanup_hour:00; the vacuum job fires only on the first of the month at cleanup_hour:30; they never fire in the same minute |
| CleanupService.Start | backend/app/services/cleanup_service.py:23-51 | Start sets running; it is a no-op while running, otherwise registers both jobs; it never touches the last-run times |
| CleanupService.Stop | backend/app/services/cleanup_service.py:53-61 | Stop clears running, changes nothing else, and is a no-op while stopped |
| CleanupService.StartStopIdempotent | backend/app/services/cleanup_service.py:23-61 | Starting twice is starting once; stopping twice is stopping once |
| CleanupService.RunCleanup | backend/app/services/cleanup_service.py:63-74 | Applies retention; records the last cleanup time only when it succeeded; an error is swallowed and changes nothing |
| CleanupService.RunVacuum | backend/app/services/cleanup_service.py:76-87 | Records the last vacuum time only when VACUUM succeeded; an error is swallowed |
| CleanupService.CleanupNow | backend/app/services/cleanup_service.py:89-111 | On success, reports the number of deleted rows and the new cleanup time; on error, reports it with a deleted count of 0 and changes nothing |
| CleanupService.VacuumNow | backend/app/services/cleanup_service.py:113-133 | Same bookkeeping as the vacuum job, reported: success with the new time, or the error |
| CleanupService.GetStatus | backend/app/services/cleanup_service.py:135-143 | Reports the running flag, both last-run times and the two settings as they are |
| CleanupService.StatusUntilFirstSuccess | backend/app/services/cleanup_service.py:63-143 | Over any sequence of job runs, `get_status` keeps the running flag; it reports a last cleanup or vacuum time unchanged until a run of that job succeeds, and reports one once such a run has |
| CleanupService.SomeStays | backend/app/services/cleanup_service.py:70-83 | A recorded last-run time is never cleared again |
| Lifespan.DisplayName | backend/app/main.py:40 | A hostname without a dot is its own display name; otherwise the display name is the title-cased text before the first dot |
| Lifespan.Register | backend/app/main.py:37-41 | Afterwards the hostname is registered: an existing host is left alone, otherwise one enabled host with the derived display name is appended; pings untouched |
| Lifespan.Bootstrap | backend/app/main.py:35-42 | Every configured hostname ends up registered. Existing hosts are kept in place. Each new host has a configured hostname that was not registered before, the derived display name, and is enabled. Pings are untouched and validity is preserved |
| Lifespan.BootstrapIdempotent | backend/app/main.py:35-42 | A second bootstrap over the same list adds nothing |
| Lifespan.BootstrapOnce | backend/app/main.py:35-42 | However often a hostname is listed, exactly one host carries it afterwards, and it is the pre-existing one if there was one |
| Lifespan.Startup | backend/app/main.py:23-52 | Initialises the database and registers the monitored hosts in the tables that initialisation returns, then starts the scheduler and the cleanup service; the phase list records that order. Afterwards every monitored hostname is registered, both services run and existing pings are kept |
| Lifespan.FirstStartupValid | backend/app/main.py:29-42 | A first startup on a fresh database leaves valid tables |
| Lifespan.Shutdown | backend/app/main.py:56-61 | Stops the scheduler, then the cleanup service; the database is untouched |
| Api.AddHostRoute | backend/app/routers/api.py:35-60 | 422 exactly for a body outside the field constraints, 409 exactly for a registered hostname, 500 exactly for a storage fault, otherwise 201 with the stored host, which is then found by its hostname; only 201 changes the tables |
| Api.DeleteHostRoute | backend/app/routers/api.py:63-78 | 404 exactly for an unknown id, with nothing changed; 204 exactly when both deletes commit, after which the id is gone; otherwise 500 |
| Api.GetPingDataRoute | backend/app/routers/api.py:92-141 | 422 exactly for a limit outside [1, 10000] (default 1000); 400 exactly for start >= end with a valid limit; otherwise 200 with the range query's results and statistics over the same host and range, at most `limit` of them |
| Api.HealthCheck | backend/app/routers/api.py:155-162 | Reports "healthy" and the two services' running flags |
| Api.HealthAcrossLifespan | backend/app/routers/api.py:155-162 | After startup the health check reports both services running; after shutdown, both stopped |

## Left out

- Clocks: `time.time()` and `datetime.now()` readings are parameters. `isoformat()` text is represented by the reading itself.
- Network: `ping()` is an oracle giving each attempt's outcome. The 0.1 s sleep before a retry is not modelled.
- Storage faults: a storage fault (full disk, locked file) is an `Option<string>` per write statement. Read queries are modelled as never raising, so the 500 paths of the purely reading routes (`GET /api/hosts`, `GET /api/current-status`, and the `except Exception` branch of `GET /api/ping-data/{hostname}` at `backend/app/routers/api.py:139-141`) are not modelled.
- Float rounding: `round(x, 2)` on latencies, averages and percentages is not modelled. A `Replied` attempt carries the already rounded latency, and the statistics are exact reals. So the "100 exactly when every row succeeded" and "0 exactly when none did" facts of `Percentage`, `StatsOf` and `StatusOf` hold for the exact rate, not for the rounded value the API returns: 172799 successes out of 172800 rows round to 100.0.
- PingRepository.DeleteOldPings: the cutoff is `now - retention_days * 86400000` in exact milliseconds. The source computes it in floating point and truncates with `int(...)`, a difference of at most one millisecond.
- PingRepository.DeleteOldPings: the count query and the delete are separate statements. A row inserted between them is deleted but not counted. The model runs them atomically, and a fault in the count query is not modelled.
- PingRepository.GetCurrentStatus: the source reads the clock once per host. The model uses one `nowMs` for the whole report.
- PingRepository.StatusOf: `last_24h_avg` is stated only as implying a window row with a latency. The exact AVG, unfiltered by truthiness, is not restated.
- PingRepository.CalculateStats: it has no contract of its own. Its meaning is `StatsOf` applied to `RangeRows`, and both carry the contracts.
- Ordering ties: rows with equal timestamps, or hosts with equal display names, come out in insertion order in the model. SQLite leaves their order unspecified, and `ORDER BY timestamp DESC LIMIT 1` may pick any row with the latest timestamp.
- Lifespan.DisplayName: `str.title()` is a function parameter, because Unicode casing is not modelled.
- Lifespan.Bootstrap: registration is modelled as fault-free, with one clock reading for all hosts. In the source a storage fault would abort startup.
- Pydantic validation of the `Host` objects built by `add_host` and the lookups is not modelled. A hostname like `.lan` gives an empty display name. The insert would commit, and then the `Host` constructor would reject the empty name and abort startup.
- Concurrency: `_ping_all_hosts` runs its probes concurrently with `asyncio.gather` on a thread pool. The model runs them one after another in listing order, so with concurrent inserts the row order may differ.
- The `_ping_all_hosts` outer `except` only logs. The model has no faults in `get_hosts`, so that branch never triggers.
- APScheduler's timing (when interval and cron triggers fire, misfires, the thread pool) is not modelled. Only the registered jobs and a cron-match predicate are, without calendar arithmetic.
- `execute_many` and `execute_query`'s connection handling are not modelled. `execute_many` is unused by the core. The WAL pragmas, `VACUUM`'s effect on the file, the directory creation and the logging are also not modelled.
- Routes that only pass through are not modelled separately. `POST /api/ping/{hostname}`, `POST /api/admin/cleanup`, `POST /api/admin/vacuum` and `GET /api/admin/cleanup-status` return `PingNow`, `CleanupNow`, `VacuumNow` and `GetStatus` respectively, and their 500 paths need a raising service, which the model does not have.
- FastAPI's request parsing, the CORS middleware and the `/` root route are not modelled. The CORS origins are modelled only as `Config.CorsOriginsList`.
- Settings loading from the environment and `.env` is not modelled. A `Settings` value is whatever was loaded.
- Integer widths: SQLite INTEGER is 64-bit and Python ints are unbounded. The model uses unbounded `int` and does not model overflow of the 64-bit columns.
- Behaviours of the code that the model keeps as they are:
  - `get_ping_data` keeps the oldest `limit` rows of the range (ascending order, then LIMIT).
  - `get_current_status` includes disabled hosts, ordered by display name.
  - `calculate_stats` drops a zero average, minimum or maximum through its truthiness test.
