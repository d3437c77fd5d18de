/** The request and response records of the API, with their field constraints
    and defaults. */
module Schemas {
  import opened Wrappers

  /** One probe outcome. `latency` (milliseconds) and `error` default to `None`. */
  datatype PingResult = PingResult(
    host: string,
    timestamp: int,        // milliseconds since the epoch
    latency: Option<real>,
    success: bool,
    error: Option<string>)

  /** A configured target. `id` and `created_at` are optional (absent before the
      host is stored); `enabled` defaults to true. */
  datatype Host = Host(
    id: Option<int>,
    hostname: string,
    displayName: string,
    enabled: bool,
    createdAt: Option<int>)

  /** The body of a host-creation request. */
  datatype HostCreate = HostCreate(hostname: string, displayName: string)

  /** Per-host status: the latest probe and the trailing-24-hour figures. */
  datatype HostStatus = HostStatus(
    id: int,
    hostname: string,
    displayName: string,
    enabled: bool,
    lastPing: Option<int>,
    latency: Option<real>,
    success: bool,
    last24hAvg: Option<real>,
    uptime24h: Option<real>)

  /** The statistics dictionary of a ping-data response. */
  datatype PingStats = PingStats(
    avgLatency: Option<real>,
    minLatency: Option<real>,
    maxLatency: Option<real>,
    successRate: real)

  datatype PingDataResponse = PingDataResponse(host: string, data: seq<PingResult>, stats: PingStats)

  /** `Field(..., min_length=1, max_length=255)`. */
  predicate ValidName(s: string) {
    1 <= |s| <= 255
  }

  predicate ValidHostCreate(h: HostCreate) {
    ValidName(h.hostname) && ValidName(h.displayName)
  }

  /** The probe invariant: a latency is recorded exactly when the probe succeeded,
      and an error exactly when it failed. */
  predicate Consistent(r: PingResult) {
    (r.latency.Some? <==> r.success) && (r.error.None? <==> r.success)
  }

  /** `PingResult(host=…, timestamp=…, success=…)` with the optional fields left
      at their defaults. */
  function NewPingResult(host: string, timestamp: int, success: bool): (r: PingResult)
    ensures r.host == host && r.timestamp == timestamp && r.success == success
    ensures r.latency.None? && r.error.None?
    ensures !Consistent(r)  // a probe must fill in latency or error itself
  {
    PingResult(host, timestamp, None, success, None)
  }

  /** `Host(hostname=…, display_name=…)` with the optional fields left at their
      defaults: not yet stored, and enabled. */
  function NewHost(hostname: string, displayName: string): (h: Host)
    ensures h.hostname == hostname && h.displayName == displayName
    ensures h.enabled && h.id.None? && h.createdAt.None?
  {
    Host(None, hostname, displayName, true, None)
  }

  /** `HostStatus(id=…, hostname=…, display_name=…, enabled=…)` with every
      measurement field at its default: no probe seen, not successful. */
  function NewHostStatus(id: int, hostname: string, displayName: string, enabled: bool): (s: HostStatus)
    ensures s.id == id && s.hostname == hostname && s.displayName == displayName && s.enabled == enabled
    ensures !s.success
    ensures s.lastPing.None? && s.latency.None? && s.last24hAvg.None? && s.uptime24h.None?
  {
    HostStatus(id, hostname, displayName, enabled, None, None, false, None, None)
  }
}
