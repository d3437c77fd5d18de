/** The retention and maintenance service: its running flag, its two cron
    jobs, and the bookkeeping of when cleanup and VACUUM last succeeded.
    Clock readings are parameters; `isoformat()` text is left as the reading. */
module CleanupService {
  import opened Wrappers
  import opened Config
  import opened Database
  import opened PingRepository

  /** A cron trigger: fires at `hour:minute`, on every day when `day` is
      `None` and only on that day of the month otherwise. */
  datatype CronJob = CronJob(day: Option<int>, hour: int, minute: int)

  predicate Fires(job: CronJob, day: int, hour: int, minute: int) {
    (job.day.None? || job.day.value == day) && hour == job.hour && minute == job.minute
  }

  /** `daily_cleanup`: every day at `cleanup_hour:00`. */
  function CleanupJob(settings: Settings): CronJob {
    CronJob(None, settings.cleanupHour, 0)
  }

  /** `monthly_vacuum`: the first of the month at `cleanup_hour:30`. */
  function VacuumJob(settings: Settings): CronJob {
    CronJob(Some(1), settings.cleanupHour, 30)
  }

  /** The cleanup job fires on every day of the month at the cleanup hour,
      and at no other time of day; the vacuum job fires only on the first at
      half past; the two never fire in the same minute. */
  lemma Schedules(settings: Settings, day: int, hour: int, minute: int)
    ensures Fires(CleanupJob(settings), day, hour, minute) <==> hour == settings.cleanupHour && minute == 0
    ensures Fires(VacuumJob(settings), day, hour, minute) <==> day == 1 && hour == settings.cleanupHour && minute == 30
    ensures !(Fires(CleanupJob(settings), day, hour, minute) && Fires(VacuumJob(settings), day, hour, minute))
  {
  }

  /** `running`, the registered jobs, and the clock readings of the last
      successful cleanup and VACUUM. */
  datatype Cleanup = Cleanup(running: bool, jobs: seq<CronJob>, lastCleanup: Option<int>, lastVacuum: Option<int>)

  const Fresh := Cleanup(false, [], None, None)

  /** `start`: a no-op while running; otherwise registers both jobs and sets
      `running`. */
  function Start(s: Cleanup, settings: Settings): (r: Cleanup)
    ensures r.running
    ensures s.running ==> r == s
    ensures !s.running ==> r.jobs == [CleanupJob(settings), VacuumJob(settings)]
    ensures r.lastCleanup == s.lastCleanup && r.lastVacuum == s.lastVacuum
  {
    if s.running then s else s.(running := true, jobs := [CleanupJob(settings), VacuumJob(settings)])
  }

  /** `stop`: a no-op while stopped; otherwise clears `running`. */
  function Stop(s: Cleanup): (r: Cleanup)
    ensures !r.running
    ensures !s.running ==> r == s
    ensures r.(running := s.running) == s
  {
    if !s.running then s else s.(running := false)
  }

  lemma StartStopIdempotent(s: Cleanup, settings: Settings)
    ensures Start(Start(s, settings), settings) == Start(s, settings)
    ensures Stop(Stop(s)) == Stop(s)
  {
  }

  /** `_run_cleanup`: deletes the pings older than `retention_days` and, only
      if that succeeded, records `now` as the last cleanup. An error is
      logged, never raised: the state is then unchanged. */
  function RunCleanup(s: Cleanup, t: Tables, settings: Settings, nowMs: int, now: int, fault: Option<string>): (r: (Cleanup, Tables))
    ensures r.1 == DeleteOldPings(t, nowMs, settings.retentionDays, fault).tables
    ensures fault.None? ==> r.0 == s.(lastCleanup := Some(now))
    ensures fault.Some? ==> r == (s, t)
  {
    var e := DeleteOldPings(t, nowMs, settings.retentionDays, fault);
    match e.outcome
    case Ok(_) => (s.(lastCleanup := Some(now)), e.tables)
    case Raised(_) => (s, e.tables)
  }

  /** `_run_vacuum`: VACUUM rewrites the file but not its contents; only if it
      succeeded is `now` recorded as the last vacuum. */
  function RunVacuum(s: Cleanup, now: int, fault: Option<string>): (r: Cleanup)
    ensures fault.None? ==> r == s.(lastVacuum := Some(now))
    ensures fault.Some? ==> r == s
  {
    if fault.None? then s.(lastVacuum := Some(now)) else s
  }

  /** What `cleanup_now` returns. */
  datatype CleanupReport = CleanupReport(success: bool, deletedCount: int, timestamp: Option<int>, error: Option<string>)

  /** `cleanup_now`: on success reports how many pings were deleted and the
      new last-cleanup time; on error reports the error with a deleted count
      of 0 and leaves the last-cleanup time as it was. */
  function CleanupNow(s: Cleanup, t: Tables, settings: Settings, nowMs: int, now: int, fault: Option<string>): (r: (Cleanup, Tables, CleanupReport))
    ensures r.1 == DeleteOldPings(t, nowMs, settings.retentionDays, fault).tables
    ensures fault.None? ==>
      && r.2 == CleanupReport(true, |t.pings| - |r.1.pings|, Some(now), None)
      && r.0 == s.(lastCleanup := Some(now))
    ensures fault.Some? ==> r == (s, t, CleanupReport(false, 0, None, fault))
    ensures r.2.success <==> fault.None?
    ensures r.2.deletedCount >= 0
  {
    var e := DeleteOldPings(t, nowMs, settings.retentionDays, fault);
    match e.outcome
    case Ok(count) => (s.(lastCleanup := Some(now)), e.tables, CleanupReport(true, count, Some(now), None))
    case Raised(err) => (s, e.tables, CleanupReport(false, 0, None, Some(err)))
  }

  /** What `vacuum_now` returns. */
  datatype VacuumReport = VacuumReport(success: bool, timestamp: Option<int>, error: Option<string>)

  /** `vacuum_now`: the same bookkeeping as `_run_vacuum`, reported. */
  function VacuumNow(s: Cleanup, now: int, fault: Option<string>): (r: (Cleanup, VacuumReport))
    ensures r.0 == RunVacuum(s, now, fault)
    ensures fault.None? ==> r.1 == VacuumReport(true, Some(now), None)
    ensures fault.Some? ==> r.1 == VacuumReport(false, None, fault)
    ensures r.0.lastCleanup == s.lastCleanup && r.0.running == s.running
  {
    if fault.None? then (s.(lastVacuum := Some(now)), VacuumReport(true, Some(now), None))
    else (s, VacuumReport(false, None, fault))
  }

  /** What `get_status` returns. */
  datatype CleanupStatus = CleanupStatus(
    running: bool,
    lastCleanup: Option<int>,
    lastVacuum: Option<int>,
    retentionDays: int,
    cleanupHour: int)

  function GetStatus(s: Cleanup, settings: Settings): (r: CleanupStatus)
    ensures r.running == s.running && r.lastCleanup == s.lastCleanup && r.lastVacuum == s.lastVacuum
    ensures r.retentionDays == settings.retentionDays && r.cleanupHour == settings.cleanupHour
  {
    CleanupStatus(s.running, s.lastCleanup, s.lastVacuum, settings.retentionDays, settings.cleanupHour)
  }

  /** One event the service reacts to. */
  datatype Event =
    | CleanupRun(nowMs: int, now: int, fault: Option<string>)
    | VacuumRun(now: int, fault: Option<string>)

  function Step(s: Cleanup, t: Tables, settings: Settings, ev: Event): (Cleanup, Tables) {
    match ev
    case CleanupRun(nowMs, now, fault) => RunCleanup(s, t, settings, nowMs, now, fault)
    case VacuumRun(now, fault) => (RunVacuum(s, now, fault), t)
  }

  function Replay(s: Cleanup, t: Tables, settings: Settings, events: seq<Event>): (r: (Cleanup, Tables))
    decreases |events|
  {
    if |events| == 0 then (s, t)
    else
      var next := Step(s, t, settings, events[0]);
      Replay(next.0, next.1, settings, events[1..])
  }

  predicate CleanupSucceeds(ev: Event) {
    ev.CleanupRun? && ev.fault.None?
  }

  predicate VacuumSucceeds(ev: Event) {
    ev.VacuumRun? && ev.fault.None?
  }

  /** `get_status` reports no last cleanup until a cleanup has succeeded, and
      no last vacuum until a VACUUM has succeeded; runs never change
      `running`. */
  lemma {:induction false} StatusUntilFirstSuccess(s: Cleanup, t: Tables, settings: Settings, events: seq<Event>)
    ensures var r := GetStatus(Replay(s, t, settings, events).0, settings);
      && r.running == s.running
      && ((forall i :: 0 <= i < |events| ==> !CleanupSucceeds(events[i])) ==> r.lastCleanup == s.lastCleanup)
      && ((forall i :: 0 <= i < |events| ==> !VacuumSucceeds(events[i])) ==> r.lastVacuum == s.lastVacuum)
      && ((exists i :: 0 <= i < |events| && CleanupSucceeds(events[i])) ==> r.lastCleanup.Some?)
      && ((exists i :: 0 <= i < |events| && VacuumSucceeds(events[i])) ==> r.lastVacuum.Some?)
    decreases |events|
  {
    if |events| > 0 {
      var next := Step(s, t, settings, events[0]);
      StatusUntilFirstSuccess(next.0, next.1, settings, events[1..]);
      assert forall i :: 1 <= i < |events| ==> events[i] == events[1..][i - 1];
      if exists i :: 0 <= i < |events| && CleanupSucceeds(events[i]) {
        var i :| 0 <= i < |events| && CleanupSucceeds(events[i]);
        if i > 0 {
          assert CleanupSucceeds(events[1..][i - 1]);
        } else {
          SomeStays(next.0, next.1, settings, events[1..]);
        }
      }
      if exists i :: 0 <= i < |events| && VacuumSucceeds(events[i]) {
        var i :| 0 <= i < |events| && VacuumSucceeds(events[i]);
        if i > 0 {
          assert VacuumSucceeds(events[1..][i - 1]);
        } else {
          SomeStays(next.0, next.1, settings, events[1..]);
        }
      }
    }
  }

  /** A recorded time is never cleared again. */
  lemma {:induction false} SomeStays(s: Cleanup, t: Tables, settings: Settings, events: seq<Event>)
    ensures s.lastCleanup.Some? ==> Replay(s, t, settings, events).0.lastCleanup.Some?
    ensures s.lastVacuum.Some? ==> Replay(s, t, settings, events).0.lastVacuum.Some?
    decreases |events|
  {
    if |events| > 0 {
      var next := Step(s, t, settings, events[0]);
      SomeStays(next.0, next.1, settings, events[1..]);
    }
  }
}
