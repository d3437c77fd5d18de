/** The SQLite store: the two tables, the statements the repository issues, and
    the commit-or-rollback discipline of one `execute_*` call. */
module Database {
  import opened Wrappers
  import opened Seqs

  /** A row of `ping_results`. `host`, `timestamp` and `success` are NOT NULL;
      `latency` and `error` may be NULL. `success` holds 1 or 0. Rows name their
      host by hostname text; there is no foreign key to `hosts`. */
  datatype PingRow = PingRow(
    id: int,
    host: string,
    timestamp: int,
    latency: Option<real>,
    success: int,
    error: Option<string>)

  /** A row of `hosts`; `hostname` is UNIQUE. */
  datatype HostRow = HostRow(
    id: int,
    hostname: string,
    displayName: string,
    enabled: int,
    createdAt: int)

  /** Both tables, in insertion order, with the AUTOINCREMENT counters: the next
      id each table hands out, which deletions never lower. */
  datatype Tables = Tables(
    pings: seq<PingRow>,
    hosts: seq<HostRow>,
    nextPingId: int,
    nextHostId: int)

  /** The database file (`schema` is `None` until the tables have been created)
      and the process's `_initialized` flag. */
  datatype Database = Database(schema: Option<Tables>, initialized: bool)

  /** Freshly created, empty tables: AUTOINCREMENT starts at 1. */
  const EmptyTables := Tables([], [], 1, 1)

  function PingIdBefore(a: PingRow, b: PingRow): bool { a.id < b.id }
  function HostIdBefore(a: HostRow, b: HostRow): bool { a.id < b.id }
  function HostnamesDiffer(a: HostRow, b: HostRow): bool { a.hostname != b.hostname }

  /** The schema's constraints: ids strictly increase in insertion order and lie
      below their counter, and hostnames are unique. */
  ghost predicate Valid(t: Tables) {
    && 1 <= t.nextPingId && 1 <= t.nextHostId
    && Pairwise(PingIdBefore, t.pings)
    && Pairwise(HostIdBefore, t.hosts)
    && Pairwise(HostnamesDiffer, t.hosts)
    && (forall i :: 0 <= i < |t.pings| ==> 1 <= t.pings[i].id < t.nextPingId)
    && (forall i :: 0 <= i < |t.hosts| ==> 1 <= t.hosts[i].id < t.nextHostId)
  }

  predicate HasHostname(t: Tables, hostname: string) {
    exists i :: 0 <= i < |t.hosts| && t.hosts[i].hostname == hostname
  }

  /** The data-changing statements the repository issues. */
  datatype Statement =
    | InsertPing(host: string, timestamp: int, latency: Option<real>, success: int, error: Option<string>)
    | InsertHost(hostname: string, displayName: string, createdAt: int)
    | DeletePingsOfHost(hostname: string)
    | DeleteHostWithId(hostId: int)
    | DeletePingsBefore(cutoff: int)

  /** Tables after one `execute_*` call, and what the call returned or raised. */
  datatype Exec<T> = Exec(tables: Tables, outcome: Outcome<T>)

  const UniqueHostnameError := "UNIQUE constraint failed: hosts.hostname"

  /** The effect of one statement on the tables, with its `lastrowid`
      (the new id for an INSERT, `None` otherwise). */
  function Apply(t: Tables, stmt: Statement): (r: Outcome<(Tables, Option<int>)>)
    ensures r.Raised? <==> stmt.InsertHost? && HasHostname(t, stmt.hostname)
    ensures r.Ok? ==> r.value.0.nextPingId >= t.nextPingId && r.value.0.nextHostId >= t.nextHostId
  {
    match stmt
    case InsertPing(host, ts, latency, success, error) =>
      Ok((t.(pings := t.pings + [PingRow(t.nextPingId, host, ts, latency, success, error)],
             nextPingId := t.nextPingId + 1),
          Some(t.nextPingId)))
    case InsertHost(hostname, displayName, createdAt) =>
      if HasHostname(t, hostname) then Raised(UniqueHostnameError)
      else
        Ok((t.(hosts := t.hosts + [HostRow(t.nextHostId, hostname, displayName, 1, createdAt)],
               nextHostId := t.nextHostId + 1),
            Some(t.nextHostId)))
    case DeletePingsOfHost(hostname) =>
      Ok((t.(pings := Filter((p: PingRow) => p.host != hostname, t.pings)), None))
    case DeleteHostWithId(id) =>
      Ok((t.(hosts := Filter((h: HostRow) => h.id != id, t.hosts)), None))
    case DeletePingsBefore(cutoff) =>
      Ok((t.(pings := Filter((p: PingRow) => p.timestamp >= cutoff, t.pings)), None))
  }

  /** `execute_update`: runs the statement in its own transaction, commits it and
      returns `lastrowid`; if it raises (`fault` is a storage error such as a full
      disk or a locked file), the transaction is rolled back and the exception
      propagates. */
  function ExecuteUpdate(t: Tables, stmt: Statement, fault: Option<string>): (r: Exec<Option<int>>)
    ensures r.outcome.Raised? ==> r.tables == t
    ensures fault.Some? ==> r.outcome == Raised(fault.value)
    ensures fault.None? ==> (r.outcome.Raised? <==> stmt.InsertHost? && HasHostname(t, stmt.hostname))
    ensures r.outcome.Ok? ==> (r.outcome.value.Some? <==> stmt.InsertPing? || stmt.InsertHost?)
    ensures r.outcome.Ok? && stmt.InsertPing? ==> r.outcome.value == Some(t.nextPingId)
    ensures r.outcome.Ok? && stmt.InsertHost? ==> r.outcome.value == Some(t.nextHostId)
    ensures Valid(t) ==> Valid(r.tables)
  {
    if fault.Some? then Exec(t, Raised(fault.value))
    else
      match Apply(t, stmt)
      case Raised(e) => Exec(t, Raised(e))
      case Ok((t', rowid)) =>
        ApplyValid(t, stmt);
        assert Valid(t) ==> Valid(t');
        Exec(t', Ok(rowid))
  }

  /** Every statement keeps the schema's constraints. */
  lemma ApplyValid(t: Tables, stmt: Statement)
    requires Apply(t, stmt).Ok?
    ensures Valid(t) ==> Valid(Apply(t, stmt).value.0)
  {
    if Valid(t) {
      match stmt
      case InsertPing(host, ts, latency, success, error) =>
        InsertPingValid(t, PingRow(t.nextPingId, host, ts, latency, success, error));
      case InsertHost(hostname, displayName, createdAt) =>
        InsertHostValid(t, HostRow(t.nextHostId, hostname, displayName, 1, createdAt));
      case DeletePingsOfHost(hostname) =>
        FilterPingsValid(t, (p: PingRow) => p.host != hostname);
      case DeleteHostWithId(id) =>
        FilterHostsValid(t, (h: HostRow) => h.id != id);
      case DeletePingsBefore(cutoff) =>
        FilterPingsValid(t, (p: PingRow) => p.timestamp >= cutoff);
    }
  }

  lemma InsertPingValid(t: Tables, row: PingRow)
    requires Valid(t) && row.id == t.nextPingId
    ensures Valid(t.(pings := t.pings + [row], nextPingId := t.nextPingId + 1))
  {
    PairwiseAppend(PingIdBefore, t.pings, row);
  }

  lemma InsertHostValid(t: Tables, row: HostRow)
    requires Valid(t) && row.id == t.nextHostId && !HasHostname(t, row.hostname)
    ensures Valid(t.(hosts := t.hosts + [row], nextHostId := t.nextHostId + 1))
  {
    PairwiseAppend(HostIdBefore, t.hosts, row);
    PairwiseAppend(HostnamesDiffer, t.hosts, row);
  }

  lemma FilterPingsValid(t: Tables, keep: PingRow -> bool)
    requires Valid(t)
    ensures Valid(t.(pings := Filter(keep, t.pings)))
  {
    FilterPairwise(keep, PingIdBefore, t.pings);
  }

  lemma FilterHostsValid(t: Tables, keep: HostRow -> bool)
    requires Valid(t)
    ensures Valid(t.(hosts := Filter(keep, t.hosts)))
  {
    FilterPairwise(keep, HostIdBefore, t.hosts);
    FilterPairwise(keep, HostnamesDiffer, t.hosts);
  }

  /** `_initialized` is only ever set once the tables exist. */
  predicate Coherent(d: Database) {
    d.initialized ==> d.schema.Some?
  }

  /** `initialize`: creates any missing table (`CREATE TABLE IF NOT EXISTS`, so
      existing rows survive) and sets `_initialized`; once that flag is set,
      further calls do nothing. */
  function Initialize(d: Database): (r: Database)
    ensures r.initialized
    ensures Coherent(d) ==> r.schema.Some?
    ensures d.initialized ==> r == d
    ensures !d.initialized ==> r.schema == Some(d.schema.GetOr(EmptyTables))
  {
    if d.initialized then d
    else Database(Some(d.schema.GetOr(EmptyTables)), true)
  }

  /** Initializing twice is the same as initializing once. */
  lemma InitializeIdempotent(d: Database)
    ensures Initialize(Initialize(d)) == Initialize(d)
  {
  }
}
