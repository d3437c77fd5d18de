/** The status-code decisions of the HTTP routes. Request parsing, response
    serialisation and the web framework itself are not modelled: a route is a
    function from the tables and the request to the tables afterwards and a
    status with its body. */
module Api {
  import opened Wrappers
  import opened Schemas
  import opened Database
  import opened PingRepository
  import SchedulerService
  import CleanupService
  import Lifespan
  import Config

  const Created := 201
  const NoContent := 204
  const Ok := 200
  const BadRequest := 400
  const NotFound := 404
  const Conflict := 409
  const Unprocessable := 422
  const ServerError := 500

  /** `POST /api/hosts`. A body outside the field constraints is refused with
      422 before the handler runs; a hostname already registered gets 409; a
      storage error gets 500; otherwise the host is stored and returned with
      201. Only the 201 path changes the tables. */
  function AddHostRoute(t: Tables, req: HostCreate, now: int, fault: Option<string>): (r: (Tables, int, Option<Host>))
    ensures r.1 in {Created, Conflict, Unprocessable, ServerError}
    ensures r.1 == Unprocessable <==> !ValidHostCreate(req)
    ensures r.1 == Conflict <==> ValidHostCreate(req) && HasHostname(t, req.hostname)
    ensures r.1 == ServerError <==> ValidHostCreate(req) && !HasHostname(t, req.hostname) && fault.Some?
    ensures r.1 != Created ==> r.0 == t && r.2.None?
    ensures r.1 == Created ==>
      && r.2.Some? && r.2.value.hostname == req.hostname && r.2.value.displayName == req.displayName
      && r.2.value.enabled && r.2.value.createdAt == Some(now)
      && GetHostByHostname(r.0, req.hostname) == r.2
    ensures Valid(t) ==> Valid(r.0)
  {
    if !ValidHostCreate(req) then (t, Unprocessable, None)
    else if GetHostByHostname(t, req.hostname).Some? then (t, Conflict, None)
    else
      var e := AddHost(t, req.hostname, req.displayName, now, fault);
      match e.outcome
      case Raised(_) => (t, ServerError, None)
      case Ok(host) => (e.tables, Created, Some(host))
  }

  /** `DELETE /api/hosts/{host_id}`: 404 for an unknown id, 204 once the host
      and its pings are gone, 500 on a storage error. */
  function DeleteHostRoute(t: Tables, id: int, pingsFault: Option<string>, hostFault: Option<string>): (r: (Tables, int))
    ensures r.1 in {NoContent, NotFound, ServerError}
    ensures r.1 == NotFound <==> GetHostById(t, id).None?
    ensures r.1 == NotFound ==> r.0 == t
    ensures r.1 == NoContent <==> GetHostById(t, id).Some? && pingsFault.None? && hostFault.None?
    ensures r.1 == NoContent ==> GetHostById(r.0, id).None?
    ensures Valid(t) ==> Valid(r.0)
  {
    var e := DeleteHost(t, id, pingsFault, hostFault);
    if e.outcome.Raised? then (e.tables, ServerError)
    else if e.outcome.value then
      (e.tables, NoContent)
    else (e.tables, NotFound)
  }

  const DefaultLimit := 1000
  const MaxLimit := 10000

  /** `limit: int = Query(1000, ge=1, le=10000)`. */
  function LimitOf(limit: Option<int>): int {
    limit.GetOr(DefaultLimit)
  }

  /** `GET /api/ping-data/{hostname}`: a limit outside `[1, 10000]` (1000 when
      absent) is refused with 422; `start >= end` with 400, before any query;
      otherwise 200 with the host's results and the statistics, both over the
      same host and the same inclusive range. */
  function GetPingDataRoute(t: Tables, hostname: string, start: int, end: int, limit: Option<int>): (r: (int, Option<PingDataResponse>))
    ensures r.1.Some? <==> r.0 == Ok
    ensures r.0 == Unprocessable <==> !(1 <= LimitOf(limit) <= MaxLimit)
    ensures r.0 == BadRequest <==> 1 <= LimitOf(limit) <= MaxLimit && start >= end
    ensures r.0 == Ok ==> 1 <= LimitOf(limit) <= MaxLimit && start < end
    ensures r.0 in {Ok, BadRequest, Unprocessable}
    ensures r.0 == Ok ==>
      var body := r.1.value;
      && body.host == hostname
      && body.data == GetPingData(t, hostname, start, end, LimitOf(limit))
      && body.stats == CalculateStats(t, hostname, start, end)
      && |body.data| <= LimitOf(limit)
      && (forall i :: 0 <= i < |body.data| ==> body.data[i].host == hostname && start <= body.data[i].timestamp <= end)
  {
    var n := LimitOf(limit);
    if !(1 <= n <= MaxLimit) then (Unprocessable, None)
    else if start >= end then (BadRequest, None)
    else
      var data := GetPingData(t, hostname, start, end, n);
      var stats := CalculateStats(t, hostname, start, end);
      (Ok, Some(PingDataResponse(hostname, data, stats)))
  }

  /** What `GET /api/health` returns. */
  datatype Health = Health(status: string, schedulerRunning: bool, cleanupRunning: bool)

  function HealthCheck(s: SchedulerService.Scheduler, c: CleanupService.Cleanup): (r: Health)
    ensures r.status == "healthy"
    ensures r.schedulerRunning == s.running && r.cleanupRunning == c.running
  {
    Health("healthy", s.running, c.running)
  }

  /** Once startup has run the health check reports both services running,
      and after shutdown it reports both stopped. */
  lemma HealthAcrossLifespan(a: Lifespan.App, settings: Config.Settings, title: string -> string, now: int)
    requires Coherent(a.db)
    ensures var up := Lifespan.Startup(a, settings, title, now).0;
      HealthCheck(up.scheduler, up.cleanup) == Health("healthy", true, true)
    ensures var down := Lifespan.Shutdown(Lifespan.Startup(a, settings, title, now).0).0;
      HealthCheck(down.scheduler, down.cleanup) == Health("healthy", false, false)
  {
  }
}
