/** The ping time-series store and the host registry: every query the
    repository issues, as a function of the tables. */
module PingRepository {
  import opened Wrappers
  import opened Seqs
  import opened Sorting
  import opened Strings
  import opened Aggregates
  import opened Schemas
  import opened Database

  /** Milliseconds in one day. */
  const DayMs := 24 * 60 * 60 * 1000

  /** `1 if result.success else 0`. */
  function EncodeSuccess(b: bool): int {
    if b then 1 else 0
  }

  /** A row read back as a `PingResult` (`success=bool(row["success"])`). */
  function Decode(p: PingRow): PingResult {
    PingResult(p.host, p.timestamp, p.latency, p.success != 0, p.error)
  }

  function DecodeAll(rows: seq<PingRow>): (r: seq<PingResult>)
    ensures |r| == |rows| && forall i :: 0 <= i < |rows| ==> r[i] == Decode(rows[i])
  {
    seq(|rows|, i requires 0 <= i < |rows| => Decode(rows[i]))
  }

  function Discard<T>(o: Outcome<T>): (r: Outcome<()>)
    ensures r.Ok? <==> o.Ok?
  {
    match o
    case Ok(_) => Ok(())
    case Raised(e) => Raised(e)
  }

  // ---------------------------------------------------------------- inserts

  /** `insert_ping_result`: appends one row carrying the result's fields, with
      `success` stored as 1 or 0, unless the statement raises. */
  function InsertPingResult(t: Tables, r: PingResult, fault: Option<string>): (e: Exec<()>)
    ensures e.outcome.Ok? <==> fault.None?
    ensures fault.Some? ==> e.tables == t && e.outcome == Raised(fault.value)
    ensures fault.None? ==> |e.tables.pings| == |t.pings| + 1
    ensures fault.None? ==> e.tables.pings[..|t.pings|] == t.pings
    ensures fault.None? ==> Decode(e.tables.pings[|t.pings|]) == r
    ensures e.tables.hosts == t.hosts
    ensures Valid(t) ==> Valid(e.tables)
  {
    var ex := ExecuteUpdate(t, InsertPing(r.host, r.timestamp, r.latency, EncodeSuccess(r.success), r.error), fault);
    Exec(ex.tables, Discard(ex.outcome))
  }

  // ------------------------------------------------------------ range query

  predicate InRange(p: PingRow, host: string, start: int, end: int) {
    p.host == host && start <= p.timestamp <= end
  }

  function RangePred(host: string, start: int, end: int): PingRow -> bool {
    (p: PingRow) => InRange(p, host, start, end)
  }

  /** The rows `WHERE host = ? AND timestamp BETWEEN ? AND ?`, both ends
      inclusive, in storage order. */
  function RangeRows(t: Tables, host: string, start: int, end: int): (rows: seq<PingRow>)
    ensures forall p :: p in rows <==> p in t.pings && InRange(p, host, start, end)
  {
    Filter(RangePred(host, start, end), t.pings)
  }

  /** `r` is a stored row of the host inside the range, read back. */
  ghost predicate StoredInRange(t: Tables, r: PingResult, host: string, start: int, end: int) {
    exists p :: p in t.pings && InRange(p, host, start, end) && r == Decode(p)
  }

  /** The same rows read back as results: one result per matching row. */
  function Matching(t: Tables, host: string, start: int, end: int): (m: seq<PingResult>)
    ensures forall i :: 0 <= i < |m| ==> m[i].host == host && start <= m[i].timestamp <= end
    ensures forall p :: p in t.pings && InRange(p, host, start, end) ==> Decode(p) in m
    ensures forall i :: 0 <= i < |m| ==> StoredInRange(t, m[i], host, start, end)
    ensures |m| == Count(RangePred(host, start, end), t.pings)
  {
    var rows := RangeRows(t, host, start, end);
    var m := DecodeAll(rows);
    FilterLength(RangePred(host, start, end), t.pings);
    DecodedRows(t, host, start, end, rows, m);
    m
  }

  lemma DecodedRows(t: Tables, host: string, start: int, end: int, rows: seq<PingRow>, m: seq<PingResult>)
    requires rows == RangeRows(t, host, start, end) && m == DecodeAll(rows)
    ensures forall i :: 0 <= i < |m| ==> StoredInRange(t, m[i], host, start, end)
    ensures forall p :: p in t.pings && InRange(p, host, start, end) ==> Decode(p) in m
  {
    forall i | 0 <= i < |m| ensures StoredInRange(t, m[i], host, start, end) {
      assert rows[i] in rows && m[i] == Decode(rows[i]);
    }
    forall p | p in t.pings && InRange(p, host, start, end) ensures Decode(p) in m {
      var k :| 0 <= k < |rows| && rows[k] == p;
      assert m[k] == Decode(p);
    }
  }

  /** A success flag survives its 1/0 encoding. */
  lemma EncodeSuccessRoundTrip(b: bool)
    ensures (EncodeSuccess(b) != 0) == b
  {
  }

  /** `insert_ping_result` then `get_ping_data`: a query for the result's host
      whose range covers its timestamp sees exactly one more result, the one
      inserted, with host, timestamp, latency, error and success intact, and a
      query it does not match sees nothing new; with room under the limit the
      new result is among those returned. */
  lemma InsertThenQuery(t: Tables, r: PingResult, host: string, start: int, end: int, limit: int)
    ensures var t' := InsertPingResult(t, r, None).tables;
      Matching(t', host, start, end) ==
        Matching(t, host, start, end) + (if r.host == host && start <= r.timestamp <= end then [r] else [])
    ensures var t' := InsertPingResult(t, r, None).tables;
      r.host == host && start <= r.timestamp <= end && (limit < 0 || |Matching(t, host, start, end)| < limit) ==>
        r in GetPingData(t', host, start, end, limit)
  {
    var t' := InsertPingResult(t, r, None).tables;
    MatchingAfterInsert(t, r, host, start, end);
    if r.host == host && start <= r.timestamp <= end && (limit < 0 || |Matching(t, host, start, end)| < limit) {
      var m' := Matching(t', host, start, end);
      var g := GetPingData(t', host, start, end, limit);
      assert multiset(g) == multiset(m');
      assert m'[|m'| - 1] == r;
      assert r in multiset(m');
    }
  }

  lemma MatchingAfterInsert(t: Tables, r: PingResult, host: string, start: int, end: int)
    ensures var t' := InsertPingResult(t, r, None).tables;
      Matching(t', host, start, end) ==
        Matching(t, host, start, end) + (if r.host == host && start <= r.timestamp <= end then [r] else [])
  {
    var t' := InsertPingResult(t, r, None).tables;
    var row := t'.pings[|t.pings|];
    assert t'.pings == t.pings + [row];
    assert Decode(row) == r;
    MatchingAppend(t, t', row, host, start, end);
  }

  lemma MatchingAppend(t: Tables, t': Tables, row: PingRow, host: string, start: int, end: int)
    requires t'.pings == t.pings + [row]
    ensures Matching(t', host, start, end) ==
      Matching(t, host, start, end) + (if InRange(row, host, start, end) then [Decode(row)] else [])
  {
    var before := RangeRows(t, host, start, end);
    var extra := if InRange(row, host, start, end) then [row] else [];
    RangeRowsAppend(t, t', row, host, start, end);
    DecodeAppend(before, extra);
    assert DecodeAll(extra) == (if InRange(row, host, start, end) then [Decode(row)] else []);
    MatchingDecodes(t, host, start, end);
    MatchingDecodes(t', host, start, end);
  }

  lemma MatchingDecodes(t: Tables, host: string, start: int, end: int)
    ensures Matching(t, host, start, end) == DecodeAll(RangeRows(t, host, start, end))
  {
  }

  lemma RangeRowsAppend(t: Tables, t': Tables, row: PingRow, host: string, start: int, end: int)
    requires t'.pings == t.pings + [row]
    ensures RangeRows(t', host, start, end) ==
      RangeRows(t, host, start, end) + (if InRange(row, host, start, end) then [row] else [])
  {
    FilterAppend(RangePred(host, start, end), t.pings, row);
  }

  lemma DecodeAppend(a: seq<PingRow>, b: seq<PingRow>)
    ensures DecodeAll(a + b) == DecodeAll(a) + DecodeAll(b)
  {
    assert |DecodeAll(a + b)| == |DecodeAll(a) + DecodeAll(b)|;
    forall i | 0 <= i < |a + b| ensures DecodeAll(a + b)[i] == (DecodeAll(a) + DecodeAll(b))[i] {
      if i < |a| {
        assert (a + b)[i] == a[i];
      } else {
        assert (a + b)[i] == b[i - |a|];
      }
    }
  }

  function TimeLe(a: PingResult, b: PingResult): bool {
    a.timestamp <= b.timestamp
  }

  lemma TimeLeTotalPreorder()
    ensures TotalPreorder(TimeLe)
  {
  }

  /** `get_ping_data`: the host's results with `start <= timestamp <= end`,
      ascending by timestamp, cut to the first `limit` of them, so when more
      rows match it is the OLDEST `limit` that are returned. */
  function GetPingData(t: Tables, host: string, start: int, end: int, limit: int): (r: seq<PingResult>)
    ensures forall i :: 0 <= i < |r| ==> r[i].host == host && start <= r[i].timestamp <= end
    ensures forall i, j :: 0 <= i < j < |r| ==> r[i].timestamp <= r[j].timestamp
    ensures limit >= 0 ==> |r| <= limit
    ensures multiset(r) <= multiset(Matching(t, host, start, end))
    ensures limit < 0 || |Matching(t, host, start, end)| <= limit ==>
              multiset(r) == multiset(Matching(t, host, start, end))
    ensures limit >= 0 ==> |r| == if limit <= |Matching(t, host, start, end)| then limit else |Matching(t, host, start, end)|
    ensures forall x :: x in multiset(Matching(t, host, start, end)) - multiset(r) ==>
              forall i :: 0 <= i < |r| ==> r[i].timestamp <= x.timestamp
  {
    var m := Matching(t, host, start, end);
    var r := OldestOf(m, limit);
    InheritsRange(m, r, host, start, end);
    r
  }

  /** `ORDER BY timestamp ASC LIMIT ?` over the results `m`. */
  function OldestOf(m: seq<PingResult>, limit: int): (r: seq<PingResult>)
    ensures forall i, j :: 0 <= i < j < |r| ==> r[i].timestamp <= r[j].timestamp
    ensures limit >= 0 ==> |r| <= limit
    ensures multiset(r) <= multiset(m)
    ensures limit < 0 || |m| <= limit ==> multiset(r) == multiset(m)
    ensures limit >= 0 ==> |r| == if limit <= |m| then limit else |m|
    ensures forall x :: x in multiset(m) - multiset(r) ==> forall i :: 0 <= i < |r| ==> r[i].timestamp <= x.timestamp
  {
    TimeLeTotalPreorder();
    OldestFirst(m, limit);
    Limit(SortBy(TimeLe, m), limit)
  }

  /** Sorting ascending and then cutting to `limit` keeps a sorted sub-multiset
      whose every element is no later than any element left out. */
  lemma OldestFirst(m: seq<PingResult>, limit: int)
    requires TotalPreorder(TimeLe)
    ensures var r := Limit(SortBy(TimeLe, m), limit);
      && (forall i, j :: 0 <= i < j < |r| ==> r[i].timestamp <= r[j].timestamp)
      && multiset(r) <= multiset(m)
      && (limit < 0 || |m| <= limit ==> multiset(r) == multiset(m))
      && (limit >= 0 ==> |r| == if limit <= |m| then limit else |m|)
      && (forall x :: x in multiset(m) - multiset(r) ==> forall i :: 0 <= i < |r| ==> r[i].timestamp <= x.timestamp)
  {
    var sorted := SortBy(TimeLe, m);
    var r := Limit(sorted, limit);
    TruncatedSorted(sorted, |r|);
    assert r == sorted[..|r|];
  }

  lemma TruncatedSorted(sorted: seq<PingResult>, k: nat)
    requires SortedBy(TimeLe, sorted) && k <= |sorted|
    ensures forall i, j :: 0 <= i < j < k ==> sorted[i].timestamp <= sorted[j].timestamp
    ensures multiset(sorted[..k]) <= multiset(sorted)
    ensures forall x :: x in multiset(sorted) - multiset(sorted[..k]) ==>
      forall i :: 0 <= i < k ==> sorted[i].timestamp <= x.timestamp
  {
    SortedPrefix(TimeLe, sorted, k);
  }

  /** Results drawn from the matching rows keep the host and range. */
  lemma InheritsRange(m: seq<PingResult>, r: seq<PingResult>, host: string, start: int, end: int)
    requires forall i :: 0 <= i < |m| ==> m[i].host == host && start <= m[i].timestamp <= end
    requires multiset(r) <= multiset(m)
    ensures forall i :: 0 <= i < |r| ==> r[i].host == host && start <= r[i].timestamp <= end
  {
    forall i | 0 <= i < |r| ensures r[i].host == host && start <= r[i].timestamp <= end {
      assert r[i] in multiset(r);
      assert r[i] in m;
    }
  }

  // --------------------------------------------------------------- registry

  /** A `hosts` row read back as a `Host`. */
  function ToHost(h: HostRow): Host {
    Host(Some(h.id), h.hostname, h.displayName, h.enabled != 0, Some(h.createdAt))
  }

  function NameLe(a: HostRow, b: HostRow): bool {
    StrLe(a.displayName, b.displayName)
  }

  lemma NameLeTotalPreorder()
    ensures TotalPreorder(NameLe)
  {
    forall a: HostRow, b: HostRow ensures NameLe(a, b) || NameLe(b, a) {
      StrLeTotal(a.displayName, b.displayName);
    }
    forall a: HostRow, b: HostRow, c: HostRow | NameLe(a, b) && NameLe(b, c) ensures NameLe(a, c) {
      StrLeTransitive(a.displayName, b.displayName, c.displayName);
    }
  }

  /** The `hosts` rows `ORDER BY display_name ASC`. */
  function HostRowsByName(t: Tables): (rows: seq<HostRow>)
    ensures multiset(rows) == multiset(t.hosts)
    ensures forall i, j :: 0 <= i < j < |rows| ==> StrLe(rows[i].displayName, rows[j].displayName)
  {
    NameLeTotalPreorder();
    SortBy(NameLe, t.hosts)
  }

  /** `get_hosts`: every registered host, enabled or not, exactly once each,
      ascending by display name. */
  function GetHosts(t: Tables): (r: seq<Host>)
    ensures |r| == |t.hosts|
    ensures forall i, j :: 0 <= i < j < |r| ==> StrLe(r[i].displayName, r[j].displayName)
    ensures forall k :: 0 <= k < |t.hosts| ==> ToHost(t.hosts[k]) in r
    ensures forall i :: 0 <= i < |r| ==> exists k :: 0 <= k < |t.hosts| && r[i] == ToHost(t.hosts[k])
  {
    var rows := HostRowsByName(t);
    var r := seq(|rows|, i requires 0 <= i < |rows| => ToHost(rows[i]));
    PermutedImage(ToHost, rows, t.hosts, r);
    r
  }

  /** On valid tables `get_hosts` lists each hostname once. */
  lemma GetHostsUnique(t: Tables)
    requires Valid(t)
    ensures forall i, j :: 0 <= i < j < |GetHosts(t)| ==> GetHosts(t)[i].hostname != GetHosts(t)[j].hostname
  {
    var rows := HostRowsByName(t);
    var r := GetHosts(t);
    assert Distinct(t.hosts) by {
      forall i, j | 0 <= i < j < |t.hosts| ensures t.hosts[i] != t.hosts[j] {
        assert HostIdBefore(t.hosts[i], t.hosts[j]);
      }
    }
    DistinctPermutation(t.hosts, rows);
    RearrangedHostnamesDiffer(t, rows);
    forall i, j | 0 <= i < j < |r| ensures r[i].hostname != r[j].hostname {
      assert r[i] == ToHost(rows[i]) && r[j] == ToHost(rows[j]);
    }
  }

  /** A repeat-free rearrangement of valid host rows has unique hostnames. */
  lemma RearrangedHostnamesDiffer(t: Tables, rows: seq<HostRow>)
    requires Valid(t) && multiset(rows) == multiset(t.hosts) && Distinct(rows)
    ensures forall i, j :: 0 <= i < j < |rows| ==> rows[i].hostname != rows[j].hostname
  {
    forall i, j | 0 <= i < j < |rows| ensures rows[i].hostname != rows[j].hostname {
      var a := PositionIn(rows[i], t.hosts);
      var b := PositionIn(rows[j], t.hosts);
      assert rows[i] != rows[j];
      if a < b {
        assert HostnamesDiffer(t.hosts[a], t.hosts[b]);
      } else {
        assert HostnamesDiffer(t.hosts[b], t.hosts[a]);
      }
    }
  }

  lemma PositionIn(x: HostRow, hosts: seq<HostRow>) returns (k: int)
    requires x in multiset(hosts)
    ensures 0 <= k < |hosts| && hosts[k] == x
  {
    k :| 0 <= k < |hosts| && hosts[k] == x;
  }

  /** The first row satisfying `p`, in table order. */
  function FindHost(hosts: seq<HostRow>, p: HostRow -> bool): (r: Option<HostRow>)
    ensures r.None? <==> forall k :: 0 <= k < |hosts| ==> !p(hosts[k])
    ensures r.Some? ==> r.value in hosts && p(r.value)
  {
    if |hosts| == 0 then None
    else if p(hosts[0]) then Some(hosts[0])
    else
      var r := FindHost(hosts[1..], p);
      assert forall k :: 1 <= k < |hosts| ==> hosts[k] == hosts[1..][k - 1];
      r
  }

  /** `get_host_by_id`: the host with that id, or `None` when there is none. */
  function GetHostById(t: Tables, id: int): (r: Option<Host>)
    ensures r.None? <==> forall k :: 0 <= k < |t.hosts| ==> t.hosts[k].id != id
    ensures r.Some? ==> exists k :: 0 <= k < |t.hosts| && t.hosts[k].id == id && r.value == ToHost(t.hosts[k])
  {
    match FindHost(t.hosts, (h: HostRow) => h.id == id)
    case None => None
    case Some(h) => Some(ToHost(h))
  }

  /** `get_host_by_hostname`: the host with that exact hostname, or `None`. */
  function GetHostByHostname(t: Tables, hostname: string): (r: Option<Host>)
    ensures r.None? <==> !HasHostname(t, hostname)
    ensures r.Some? ==> exists k :: 0 <= k < |t.hosts| && t.hosts[k].hostname == hostname && r.value == ToHost(t.hosts[k])
  {
    match FindHost(t.hosts, (h: HostRow) => h.hostname == hostname)
    case None => None
    case Some(h) => Some(ToHost(h))
  }

  /** `add_host`: stores an enabled host created at `now` and returns it with the
      id the insert was given, which is larger than every id handed out before;
      a hostname already registered violates UNIQUE and raises, as does a
      storage fault, and then nothing changes. */
  function AddHost(t: Tables, hostname: string, displayName: string, now: int, fault: Option<string>): (e: Exec<Host>)
    ensures e.outcome.Ok? <==> fault.None? && !HasHostname(t, hostname)
    ensures e.outcome.Raised? ==> e.tables == t
    ensures e.outcome.Ok? ==>
      && e.outcome.value == Host(Some(t.nextHostId), hostname, displayName, true, Some(now))
      && e.tables.hosts == t.hosts + [HostRow(t.nextHostId, hostname, displayName, 1, now)]
      && e.tables.nextHostId > t.nextHostId
    ensures e.outcome.Ok? ==> GetHostByHostname(e.tables, hostname) == Some(e.outcome.value)
    ensures Valid(t) && e.outcome.Ok? ==> forall k :: 0 <= k < |t.hosts| ==> t.hosts[k].id < e.outcome.value.id.value
    ensures e.tables.pings == t.pings
    ensures Valid(t) ==> Valid(e.tables)
  {
    var ex := ExecuteUpdate(t, InsertHost(hostname, displayName, now), fault);
    match ex.outcome
    case Raised(err) => Exec(ex.tables, Raised(err))
    case Ok(rowid) =>
      var h := Host(rowid, hostname, displayName, true, Some(now));
      var row := HostRow(t.nextHostId, hostname, displayName, 1, now);
      assert ex.tables.hosts == t.hosts + [row];
      assert !HasHostname(t, hostname);
      assert FindHost(ex.tables.hosts, (h: HostRow) => h.hostname == hostname) == Some(row) by {
        FindAppended(t.hosts, row, (h: HostRow) => h.hostname == hostname);
      }
      Exec(ex.tables, Ok(h))
  }

  lemma {:induction false} FindAppended(hosts: seq<HostRow>, row: HostRow, p: HostRow -> bool)
    requires forall k :: 0 <= k < |hosts| ==> !p(hosts[k])
    requires p(row)
    ensures FindHost(hosts + [row], p) == Some(row)
  {
    if |hosts| > 0 {
      assert (hosts + [row])[1..] == hosts[1..] + [row];
      FindAppended(hosts[1..], row, p);
    }
  }

  /** `delete_host`: an unknown id returns False and changes nothing. A known id
      first deletes every ping row carrying that host's hostname, then the host;
      the two statements commit separately, so a fault in the second leaves the
      pings deleted and the host in place. */
  function DeleteHost(t: Tables, id: int, pingsFault: Option<string>, hostFault: Option<string>): (e: Exec<bool>)
    ensures GetHostById(t, id).None? ==> e == Exec(t, Ok(false))
    ensures GetHostById(t, id).Some? && pingsFault.Some? ==> e == Exec(t, Raised(pingsFault.value))
    ensures e.outcome == Ok(true) <==> GetHostById(t, id).Some? && pingsFault.None? && hostFault.None?
    ensures GetHostById(t, id).Some? && pingsFault.None? ==>
      var hostname := GetHostById(t, id).value.hostname;
      && (forall i :: 0 <= i < |t.pings| ==> (t.pings[i] in e.tables.pings <==> t.pings[i].host != hostname))
      && (forall i :: 0 <= i < |e.tables.pings| ==> e.tables.pings[i] in t.pings)
      && (hostFault.None? ==>
            && (forall k :: 0 <= k < |t.hosts| ==> (t.hosts[k] in e.tables.hosts <==> t.hosts[k].id != id))
            && (forall k :: 0 <= k < |e.tables.hosts| ==> e.tables.hosts[k] in t.hosts))
      && (hostFault.Some? ==> e.tables.hosts == t.hosts && e.outcome == Raised(hostFault.value))
    ensures e.tables.nextHostId == t.nextHostId && e.tables.nextPingId == t.nextPingId
    ensures Valid(t) ==> Valid(e.tables)
  {
    match GetHostById(t, id)
    case None => Exec(t, Ok(false))
    case Some(host) =>
      var e1 := ExecuteUpdate(t, DeletePingsOfHost(host.hostname), pingsFault);
      if e1.outcome.Raised? then Exec(t, Raised(e1.outcome.error))
      else
        var e2 := ExecuteUpdate(e1.tables, DeleteHostWithId(id), hostFault);
        if e2.outcome.Raised? then Exec(e1.tables, Raised(e2.outcome.error))
        else Exec(e2.tables, Ok(true))
  }

  /** In valid tables, looking up a stored host's id finds that host. */
  lemma LookupById(t: Tables, k: int)
    requires Valid(t) && 0 <= k < |t.hosts|
    ensures GetHostById(t, t.hosts[k].id) == Some(ToHost(t.hosts[k]))
  {
    var j :| 0 <= j < |t.hosts| && t.hosts[j].id == t.hosts[k].id && GetHostById(t, t.hosts[k].id).value == ToHost(t.hosts[j]);
  }

  /** `delete_host` on a registered host, with no storage fault: afterwards
      neither its id nor its hostname is found, while every other host is
      still found by its id. */
  lemma DeleteHostThenQuery(t: Tables, id: int)
    requires Valid(t) && GetHostById(t, id).Some?
    ensures var t' := DeleteHost(t, id, None, None).tables;
      && GetHostById(t', id).None?
      && GetHostByHostname(t', GetHostById(t, id).value.hostname).None?
      && (forall k :: 0 <= k < |t.hosts| && t.hosts[k].id != id ==>
            GetHostById(t', t.hosts[k].id) == Some(ToHost(t.hosts[k])))
  {
    DeletedHostnameGone(t, id);
    OtherHostsKept(t, id);
  }

  /** `delete_host` on a registered host, with no storage fault: afterwards no
      row carries its hostname, and every other host's range query returns
      what it returned before. */
  lemma DeleteHostThenRange(t: Tables, id: int, other: string, start: int, end: int)
    requires GetHostById(t, id).Some?
    ensures var hostname := GetHostById(t, id).value.hostname;
      var t' := DeleteHost(t, id, None, None).tables;
      && |HostRows(t', hostname)| == 0
      && (other != hostname ==> Matching(t', other, start, end) == Matching(t, other, start, end))
  {
    DeletedPingsGone(t, id);
    if other != GetHostById(t, id).value.hostname {
      OtherRowsKept(t, id, other, start, end);
    }
  }

  lemma DeletedHostnameGone(t: Tables, id: int)
    requires Valid(t) && GetHostById(t, id).Some?
    ensures !HasHostname(DeleteHost(t, id, None, None).tables, GetHostById(t, id).value.hostname)
  {
    var hostname := GetHostById(t, id).value.hostname;
    var t' := DeleteHost(t, id, None, None).tables;
    var j :| 0 <= j < |t.hosts| && t.hosts[j].id == id && GetHostById(t, id).value == ToHost(t.hosts[j]);
    forall k | 0 <= k < |t'.hosts| ensures t'.hosts[k].hostname != hostname {
      var h := t'.hosts[k];
      var i :| 0 <= i < |t.hosts| && t.hosts[i] == h;
      assert i != j;
      if i < j {
        assert HostnamesDiffer(t.hosts[i], t.hosts[j]);
      } else {
        assert HostnamesDiffer(t.hosts[j], t.hosts[i]);
      }
    }
  }

  lemma DeletedPingsGone(t: Tables, id: int)
    requires GetHostById(t, id).Some?
    ensures |HostRows(DeleteHost(t, id, None, None).tables, GetHostById(t, id).value.hostname)| == 0
  {
    var hostname := GetHostById(t, id).value.hostname;
    var t' := DeleteHost(t, id, None, None).tables;
    var e1 := ExecuteUpdate(t, DeletePingsOfHost(hostname), None);
    assert t'.pings == e1.tables.pings == Filter((p: PingRow) => p.host != hostname, t.pings);
    FilterNone((p: PingRow) => p.host == hostname, t'.pings);
  }

  lemma OtherHostsKept(t: Tables, id: int)
    requires Valid(t) && GetHostById(t, id).Some?
    ensures var t' := DeleteHost(t, id, None, None).tables;
      forall k :: 0 <= k < |t.hosts| && t.hosts[k].id != id ==>
        GetHostById(t', t.hosts[k].id) == Some(ToHost(t.hosts[k]))
  {
    var t' := DeleteHost(t, id, None, None).tables;
    forall k | 0 <= k < |t.hosts| && t.hosts[k].id != id
      ensures GetHostById(t', t.hosts[k].id) == Some(ToHost(t.hosts[k]))
    {
      var i :| 0 <= i < |t'.hosts| && t'.hosts[i] == t.hosts[k];
      LookupById(t', i);
    }
  }

  lemma OtherRowsKept(t: Tables, id: int, other: string, start: int, end: int)
    requires GetHostById(t, id).Some? && other != GetHostById(t, id).value.hostname
    ensures Matching(DeleteHost(t, id, None, None).tables, other, start, end) == Matching(t, other, start, end)
  {
    var hostname := GetHostById(t, id).value.hostname;
    var t' := DeleteHost(t, id, None, None).tables;
    var e1 := ExecuteUpdate(t, DeletePingsOfHost(hostname), None);
    assert t'.pings == e1.tables.pings == Filter((p: PingRow) => p.host != hostname, t.pings);
    FilterFilter(RangePred(other, start, end), (p: PingRow) => p.host != hostname, t.pings);
  }

  /** AUTOINCREMENT never hands a deleted host's id out again: a host added
      after `delete_host` gets an id larger than the deleted one. */
  lemma IdNotReusedAfterDelete(t: Tables, id: int, hostname: string, displayName: string, now: int)
    requires Valid(t) && GetHostById(t, id).Some?
    ensures var t' := DeleteHost(t, id, None, None).tables;
      var added := AddHost(t', hostname, displayName, now, None);
      added.outcome.Ok? ==> added.outcome.value.id.value > id
  {
    var j :| 0 <= j < |t.hosts| && t.hosts[j].id == id && GetHostById(t, id).value == ToHost(t.hosts[j]);
  }

  // -------------------------------------------------------------- retention

  /** `cutoff_time`: `retention_days` whole days before `nowMs`. */
  function CutoffTime(nowMs: int, retentionDays: int): int {
    nowMs - retentionDays * DayMs
  }

  /** `delete_old_pings`: deletes exactly the rows strictly older than the cutoff,
      keeps every row at or after it, and returns how many it deleted; on a
      fault nothing is deleted and the error propagates. */
  function DeleteOldPings(t: Tables, nowMs: int, retentionDays: int, fault: Option<string>): (e: Exec<int>)
    ensures e.outcome.Ok? <==> fault.None?
    ensures e.outcome.Raised? ==> e.tables == t
    ensures e.tables.hosts == t.hosts
    ensures var cutoff := CutoffTime(nowMs, retentionDays);
      && (forall i :: 0 <= i < |e.tables.pings| ==> e.tables.pings[i] in t.pings)
      && (fault.None? ==> forall i :: 0 <= i < |t.pings| ==>
            (t.pings[i] in e.tables.pings <==> t.pings[i].timestamp >= cutoff))
    ensures e.outcome.Ok? ==> e.outcome.value == |t.pings| - |e.tables.pings|
    ensures fault.None? ==> forall i :: 0 <= i < |e.tables.pings| ==>
              e.tables.pings[i].timestamp >= CutoffTime(nowMs, retentionDays)
    ensures e.outcome.Ok? ==>
              (e.outcome.value == 0 <==> forall i :: 0 <= i < |t.pings| ==> t.pings[i].timestamp >= CutoffTime(nowMs, retentionDays))
    ensures e.outcome.Ok? && e.outcome.value == 0 ==> e.tables == t
    ensures Valid(t) ==> Valid(e.tables)
  {
    var cutoff := CutoffTime(nowMs, retentionDays);
    var count := Count((p: PingRow) => p.timestamp < cutoff, t.pings);
    var ex := ExecuteUpdate(t, DeletePingsBefore(cutoff), fault);
    match ex.outcome
    case Raised(err) => Exec(t, Raised(err))
    case Ok(_) =>
      var kept := Filter((p: PingRow) => p.timestamp >= cutoff, t.pings);
      assert ex.tables.pings == kept;
      FilterLength((p: PingRow) => p.timestamp >= cutoff, t.pings);
      CountComplement((p: PingRow) => p.timestamp < cutoff, (p: PingRow) => p.timestamp >= cutoff, t.pings);
      if count == 0 then
        FilterAll((p: PingRow) => p.timestamp >= cutoff, t.pings);
        Exec(ex.tables, Ok(count))
      else
        Exec(ex.tables, Ok(count))
  }

  /** Running retention twice at the same instant: the second run deletes
      nothing and leaves the tables as the first run left them. */
  lemma DeleteOldPingsTwice(t: Tables, nowMs: int, retentionDays: int)
    ensures var first := DeleteOldPings(t, nowMs, retentionDays, None);
      DeleteOldPings(first.tables, nowMs, retentionDays, None) == Exec(first.tables, Ok(0))
  {
  }

  // ------------------------------------------------------------- aggregates

  /** `successful / total * 100`, a percentage. */
  function Percentage(successful: nat, total: nat): (r: real)
    requires 0 < total && successful <= total
    ensures 0.0 <= r <= 100.0
    ensures r == 0.0 <==> successful == 0
    ensures r == 100.0 <==> successful == total
  {
    var q := (successful as real) / (total as real);
    RatioFacts(successful as real, total as real);
    q * 100.0
  }

  lemma RatioFacts(a: real, n: real)
    requires 0.0 <= a <= n && n > 0.0
    ensures 0.0 <= a / n <= 1.0
    ensures a / n == 0.0 <==> a == 0.0
    ensures a / n == 1.0 <==> a == n
  {
    QuotientBounds(a, n, 0.0, 1.0);
    assert (a / n) * n == a;
  }

  /** The latency column of `rows`. */
  function LatencyColumn(rows: seq<PingRow>): (c: seq<Option<real>>)
    ensures |c| == |rows| && forall i :: 0 <= i < |rows| ==> c[i] == rows[i].latency
  {
    seq(|rows|, i requires 0 <= i < |rows| => rows[i].latency)
  }

  function Succeeded(p: PingRow): bool {
    p.success == 1
  }

  /** Python's truthiness test `x if x else None`: `None` and `0.0` are falsy. */
  function Truthy(x: Option<real>): (r: Option<real>)
    ensures r.Some? <==> x.Some? && x.value != 0.0
    ensures r.Some? ==> r == x
  {
    if x.Some? && x.value != 0.0 then x else None
  }

  /** The one-row aggregate `calculate_stats` selects from `rows`. With no row
      the latencies are `None` and the success rate 0.0; otherwise the success
      rate is the percentage of rows with `success = 1`, and `AVG`/`MIN`/`MAX`
      range over the non-NULL latencies, each reported as `None` when it is NULL
      or equal to 0. */
  function StatsOf(rows: seq<PingRow>): (s: PingStats)
    ensures |rows| == 0 ==> s == PingStats(None, None, None, 0.0)
    ensures 0.0 <= s.successRate <= 100.0
    ensures |rows| > 0 ==>
              && (s.successRate == 100.0 <==> forall p :: p in rows ==> p.success == 1)
              && (s.successRate == 0.0 <==> forall p :: p in rows ==> p.success != 1)
    ensures (forall p :: p in rows ==> p.latency.None?) ==>
              s.avgLatency.None? && s.minLatency.None? && s.maxLatency.None?
    ensures s.minLatency.Some? ==>
              && s.minLatency.value != 0.0
              && (exists p :: p in rows && p.latency == s.minLatency)
              && (forall p :: p in rows && p.latency.Some? ==> s.minLatency.value <= p.latency.value)
    ensures forall p :: p in rows && p.latency.Some? && p.latency.value != 0.0
                        && (forall q :: q in rows && q.latency.Some? ==> p.latency.value <= q.latency.value) ==>
              s.minLatency == p.latency
    ensures s.maxLatency.Some? ==>
              && s.maxLatency.value != 0.0
              && (exists p :: p in rows && p.latency == s.maxLatency)
              && (forall p :: p in rows && p.latency.Some? ==> p.latency.value <= s.maxLatency.value)
    ensures forall p :: p in rows && p.latency.Some? && p.latency.value != 0.0
                        && (forall q :: q in rows && q.latency.Some? ==> q.latency.value <= p.latency.value) ==>
              s.maxLatency == p.latency
    ensures s.avgLatency == Truthy(Avg(NonNull(LatencyColumn(rows))))
    ensures |rows| > 0 ==> s.successRate == Percentage(Count(Succeeded, rows), |rows|)
  {
    if |rows| == 0 then
      PingStats(None, None, None, 0.0)
    else
      var successful := Count(Succeeded, rows);
      var latencies := NonNull(LatencyColumn(rows));
      MinOfRows(rows);
      MaxOfRows(rows);
      MinReported(rows);
      MaxReported(rows);
      PingStats(Truthy(Avg(latencies)), Truthy(Min(latencies)), Truthy(Max(latencies)),
                Percentage(successful, |rows|))
  }

  lemma MinOfRows(rows: seq<PingRow>)
    ensures var m := Truthy(Min(NonNull(LatencyColumn(rows))));
      m.Some? ==>
        && m.value != 0.0
        && (exists p :: p in rows && p.latency == m)
        && (forall p :: p in rows && p.latency.Some? ==> m.value <= p.latency.value)
  {
    var xs := NonNull(LatencyColumn(rows));
    LatenciesOfRows(rows);
    var m := Truthy(Min(xs));
    if m.Some? {
      forall p | p in rows && p.latency.Some? ensures m.value <= p.latency.value {
        assert p.latency.value in xs;
      }
    }
  }

  lemma MaxOfRows(rows: seq<PingRow>)
    ensures var m := Truthy(Max(NonNull(LatencyColumn(rows))));
      m.Some? ==>
        && m.value != 0.0
        && (exists p :: p in rows && p.latency == m)
        && (forall p :: p in rows && p.latency.Some? ==> p.latency.value <= m.value)
  {
    var xs := NonNull(LatencyColumn(rows));
    LatenciesOfRows(rows);
    var m := Truthy(Max(xs));
    if m.Some? {
      forall p | p in rows && p.latency.Some? ensures p.latency.value <= m.value {
        assert p.latency.value in xs;
      }
    }
  }

  /** A nonzero latency that is the smallest stored one is the one reported. */
  lemma MinReported(rows: seq<PingRow>)
    ensures forall p :: p in rows && p.latency.Some? && p.latency.value != 0.0
                        && (forall q :: q in rows && q.latency.Some? ==> p.latency.value <= q.latency.value) ==>
              Truthy(Min(NonNull(LatencyColumn(rows)))) == p.latency
  {
    var c := LatencyColumn(rows);
    var xs := NonNull(c);
    forall p | p in rows && p.latency.Some? && p.latency.value != 0.0
               && (forall q :: q in rows && q.latency.Some? ==> p.latency.value <= q.latency.value)
      ensures Truthy(Min(xs)) == p.latency
    {
      var i :| 0 <= i < |rows| && rows[i] == p;
      assert c[i] == p.latency;
      var x := p.latency.value;
      assert x in xs;
      var i2 :| 0 <= i2 < |xs| && xs[i2] == x;
      var v := Min(xs).value;
      assert v <= p.latency.value;
      var k :| 0 <= k < |xs| && xs[k] == v;
      assert Some(v) in c;
      var j :| 0 <= j < |c| && c[j] == Some(v);
      assert rows[j] in rows && rows[j].latency == Some(v);
      assert p.latency.value <= v;
      assert Min(xs) == Some(x);
    }
  }

  /** A nonzero latency that is the largest stored one is the one reported. */
  lemma MaxReported(rows: seq<PingRow>)
    ensures forall p :: p in rows && p.latency.Some? && p.latency.value != 0.0
                        && (forall q :: q in rows && q.latency.Some? ==> q.latency.value <= p.latency.value) ==>
              Truthy(Max(NonNull(LatencyColumn(rows)))) == p.latency
  {
    var c := LatencyColumn(rows);
    var xs := NonNull(c);
    forall p | p in rows && p.latency.Some? && p.latency.value != 0.0
               && (forall q :: q in rows && q.latency.Some? ==> q.latency.value <= p.latency.value)
      ensures Truthy(Max(xs)) == p.latency
    {
      var i :| 0 <= i < |rows| && rows[i] == p;
      assert c[i] == p.latency;
      var x := p.latency.value;
      assert x in xs;
      var i2 :| 0 <= i2 < |xs| && xs[i2] == x;
      var v := Max(xs).value;
      assert p.latency.value <= v;
      var k :| 0 <= k < |xs| && xs[k] == v;
      assert Some(v) in c;
      var j :| 0 <= j < |c| && c[j] == Some(v);
      assert rows[j] in rows && rows[j].latency == Some(v);
      assert v <= p.latency.value;
      assert Max(xs) == Some(x);
    }
  }

  lemma LatenciesOfRows(rows: seq<PingRow>)
    ensures forall x :: x in NonNull(LatencyColumn(rows)) <==> exists p :: p in rows && p.latency == Some(x)
  {
    var c := LatencyColumn(rows);
    forall x ensures x in NonNull(c) <==> exists p :: p in rows && p.latency == Some(x) {
      if x in NonNull(c) {
        var k :| 0 <= k < |NonNull(c)| && NonNull(c)[k] == x;
        assert Some(x) in c;
        var j :| 0 <= j < |c| && c[j] == Some(x);
        assert rows[j] in rows && rows[j].latency == Some(x);
      }
      if exists p :: p in rows && p.latency == Some(x) {
        var p :| p in rows && p.latency == Some(x);
        var j :| 0 <= j < |rows| && rows[j] == p;
        assert c[j].Some?;
      }
    }
  }

  /** `calculate_stats`: the aggregate over the host's rows in `[start, end]`. */
  function CalculateStats(t: Tables, host: string, start: int, end: int): PingStats {
    StatsOf(RangeRows(t, host, start, end))
  }

  /** When all three latency figures are reported, they are ordered. */
  lemma StatsOrdered(rows: seq<PingRow>)
    ensures var s := StatsOf(rows);
      s.minLatency.Some? && s.avgLatency.Some? && s.maxLatency.Some? ==>
        s.minLatency.value <= s.avgLatency.value <= s.maxLatency.value
  {
    if |NonNull(LatencyColumn(rows))| > 0 {
      MinLeAvgLeMax(NonNull(LatencyColumn(rows)));
    }
  }

  /** The truthiness test hides a genuine minimum of 0 ms: with non-negative
      latencies one of which is 0, `min_latency` is reported as `None`. */
  lemma ZeroMinimumReportedAsNone(rows: seq<PingRow>)
    requires exists p :: p in rows && p.latency == Some(0.0)
    requires forall p :: p in rows && p.latency.Some? ==> p.latency.value >= 0.0
    ensures StatsOf(rows).minLatency.None?
  {
    var xs := NonNull(LatencyColumn(rows));
    LatenciesOfRows(rows);
    assert 0.0 in xs;
    var m := Min(xs).value;
    assert m <= 0.0;
    assert m in xs;
  }

  // --------------------------------------------------------- current status

  /** The row `ORDER BY timestamp DESC LIMIT 1` picks: one with the largest
      timestamp (among equal timestamps, the one stored last). */
  function LatestRow(rows: seq<PingRow>): (r: Option<PingRow>)
    ensures r.None? <==> |rows| == 0
    ensures r.Some? ==> r.value in rows && forall p :: p in rows ==> p.timestamp <= r.value.timestamp
  {
    if |rows| == 0 then None
    else
      assert rows == [rows[0]] + rows[1..];
      match LatestRow(rows[1..])
      case None => Some(rows[0])
      case Some(q) => if rows[0].timestamp > q.timestamp then Some(rows[0]) else Some(q)
  }

  predicate InWindow(p: PingRow, hostname: string, nowMs: int) {
    p.host == hostname && p.timestamp >= nowMs - DayMs
  }

  /** The rows `WHERE host = ?`. */
  function HostRows(t: Tables, hostname: string): (rows: seq<PingRow>)
    ensures forall p :: p in rows <==> p in t.pings && p.host == hostname
  {
    Filter((p: PingRow) => p.host == hostname, t.pings)
  }

  /** The rows `WHERE host = ? AND timestamp >= ?` with the bound 24 hours
      before `nowMs`; there is no upper bound. */
  function WindowRows(t: Tables, hostname: string, nowMs: int): (rows: seq<PingRow>)
    ensures forall p :: p in rows <==> p in t.pings && InWindow(p, hostname, nowMs)
  {
    Filter((p: PingRow) => InWindow(p, hostname, nowMs), t.pings)
  }

  /** Fills in the most recent row of `history`, if there is one. */
  function WithLatest(s: HostStatus, history: seq<PingRow>): (r: HostStatus)
    ensures r.(lastPing := s.lastPing, latency := s.latency, success := s.success) == s
    ensures |history| == 0 ==> r == s
    ensures |history| > 0 ==>
              && r.lastPing.Some?
              && (exists p :: p in history && p.timestamp == r.lastPing.value
                    && p.latency == r.latency && (p.success != 0) == r.success)
              && (forall p :: p in history ==> p.timestamp <= r.lastPing.value)
  {
    match LatestRow(history)
    case None => s
    case Some(p) => s.(lastPing := Some(p.timestamp), latency := p.latency, success := p.success != 0)
  }

  /** Fills in the 24-hour average and uptime when `window` holds a row. */
  function With24h(s: HostStatus, window: seq<PingRow>): (r: HostStatus)
    ensures r.(last24hAvg := s.last24hAvg, uptime24h := s.uptime24h) == s
    ensures |window| == 0 ==> r == s
    ensures |window| > 0 ==> r.uptime24h.Some?
    ensures |window| > 0 ==>
              && 0.0 <= r.uptime24h.value <= 100.0
              && (r.uptime24h.value == 100.0 <==> forall p :: p in window ==> p.success == 1)
              && (r.uptime24h.value == 0.0 <==> forall p :: p in window ==> p.success != 1)
    ensures |window| > 0 && r.last24hAvg.Some? ==> exists p :: p in window && p.latency.Some?
    ensures |window| > 0 ==> r.uptime24h == Some(Percentage(Count(Succeeded, window), |window|))
  {
    if |window| == 0 then s
    else
      LatenciesOfRows(window);
      var avg := Avg(NonNull(LatencyColumn(window)));
      assert avg.Some? ==> NonNull(LatencyColumn(window))[0] in NonNull(LatencyColumn(window));
      s.(last24hAvg := avg, uptime24h := Some(Percentage(Count(Succeeded, window), |window|)))
  }

  /** One entry of `get_current_status`: the host's identity, its most recent
      row (if any), and over its rows of the last 24 hours the average latency
      and the success percentage, both `None` when that window holds no row. */
  function StatusOf(t: Tables, h: HostRow, nowMs: int): (s: HostStatus)
    ensures s.id == h.id && s.hostname == h.hostname && s.displayName == h.displayName
    ensures s.enabled == (h.enabled != 0)
    ensures |HostRows(t, h.hostname)| == 0 ==> s == NewHostStatus(h.id, h.hostname, h.displayName, h.enabled != 0)
    ensures s.lastPing.Some? <==> |HostRows(t, h.hostname)| > 0
    ensures s.lastPing.Some? ==>
              && (exists p :: p in HostRows(t, h.hostname) && p.timestamp == s.lastPing.value
                    && p.latency == s.latency && (p.success != 0) == s.success)
              && (forall p :: p in HostRows(t, h.hostname) ==> p.timestamp <= s.lastPing.value)
    ensures s.lastPing.None? ==> s.latency.None? && !s.success
    ensures s.uptime24h.Some? <==> |WindowRows(t, h.hostname, nowMs)| > 0
    ensures s.uptime24h.Some? ==>
              && 0.0 <= s.uptime24h.value <= 100.0
              && (s.uptime24h.value == 100.0 <==> forall p :: p in WindowRows(t, h.hostname, nowMs) ==> p.success == 1)
              && (s.uptime24h.value == 0.0 <==> forall p :: p in WindowRows(t, h.hostname, nowMs) ==> p.success != 1)
    ensures s.last24hAvg.Some? ==> exists p :: p in WindowRows(t, h.hostname, nowMs) && p.latency.Some?
    ensures |WindowRows(t, h.hostname, nowMs)| > 0 ==>
              s.uptime24h == Some(Percentage(Count(Succeeded, WindowRows(t, h.hostname, nowMs)), |WindowRows(t, h.hostname, nowMs)|))
  {
    var base := NewHostStatus(h.id, h.hostname, h.displayName, h.enabled != 0);
    var window := WindowRows(t, h.hostname, nowMs);
    WindowWithinHistory(t, h.hostname, nowMs);
    With24h(WithLatest(base, HostRows(t, h.hostname)), window)
  }

  /** A host with rows in the 24-hour window has rows at all. */
  lemma WindowWithinHistory(t: Tables, hostname: string, nowMs: int)
    ensures |WindowRows(t, hostname, nowMs)| > 0 ==> |HostRows(t, hostname)| > 0
  {
    if |WindowRows(t, hostname, nowMs)| > 0 {
      assert WindowRows(t, hostname, nowMs)[0] in HostRows(t, hostname);
    }
  }

  /** `s` is the status of one of the registered hosts. */
  ghost predicate StatusOfSomeHost(t: Tables, s: HostStatus, nowMs: int) {
    exists k :: 0 <= k < |t.hosts| && s == StatusOf(t, t.hosts[k], nowMs)
  }

  /** `get_current_status`: one entry per registered host, disabled hosts
      included, in `get_hosts` order (ascending display name). */
  function GetCurrentStatus(t: Tables, nowMs: int): (r: seq<HostStatus>)
    ensures |r| == |t.hosts|
    ensures forall i, j :: 0 <= i < j < |r| ==> StrLe(r[i].displayName, r[j].displayName)
    ensures forall k :: 0 <= k < |t.hosts| ==> StatusOf(t, t.hosts[k], nowMs) in r
    ensures forall i :: 0 <= i < |r| ==> StatusOfSomeHost(t, r[i], nowMs)
  {
    var rows := HostRowsByName(t);
    var r := seq(|rows|, i requires 0 <= i < |rows| => StatusOf(t, rows[i], nowMs));
    StatusesListed(t, rows, r, nowMs);
    r
  }

  lemma StatusesListed(t: Tables, rows: seq<HostRow>, r: seq<HostStatus>, nowMs: int)
    requires multiset(rows) == multiset(t.hosts)
    requires forall i, j :: 0 <= i < j < |rows| ==> StrLe(rows[i].displayName, rows[j].displayName)
    requires |r| == |rows| && forall i :: 0 <= i < |rows| ==> r[i] == StatusOf(t, rows[i], nowMs)
    ensures |r| == |t.hosts|
    ensures forall i, j :: 0 <= i < j < |r| ==> StrLe(r[i].displayName, r[j].displayName)
    ensures forall k :: 0 <= k < |t.hosts| ==> StatusOf(t, t.hosts[k], nowMs) in r
    ensures forall i :: 0 <= i < |r| ==> StatusOfSomeHost(t, r[i], nowMs)
  {
    assert |multiset(rows)| == |multiset(t.hosts)|;
    forall i | 0 <= i < |r| ensures r[i].displayName == rows[i].displayName {
      assert r[i] == StatusOf(t, rows[i], nowMs);
    }
    StatusesCover(t, rows, r, nowMs);
    StatusesFrom(t, rows, r, nowMs);
  }

  lemma StatusesCover(t: Tables, rows: seq<HostRow>, r: seq<HostStatus>, nowMs: int)
    requires multiset(rows) == multiset(t.hosts)
    requires |r| == |rows| && forall i :: 0 <= i < |rows| ==> r[i] == StatusOf(t, rows[i], nowMs)
    ensures forall k :: 0 <= k < |t.hosts| ==> StatusOf(t, t.hosts[k], nowMs) in r
  {
    forall k | 0 <= k < |t.hosts| ensures StatusOf(t, t.hosts[k], nowMs) in r {
      assert t.hosts[k] in multiset(rows);
      var i :| 0 <= i < |rows| && rows[i] == t.hosts[k];
      assert r[i] == StatusOf(t, t.hosts[k], nowMs);
    }
  }

  lemma StatusesFrom(t: Tables, rows: seq<HostRow>, r: seq<HostStatus>, nowMs: int)
    requires multiset(rows) == multiset(t.hosts)
    requires |r| == |rows| && forall i :: 0 <= i < |rows| ==> r[i] == StatusOf(t, rows[i], nowMs)
    ensures forall i :: 0 <= i < |r| ==> StatusOfSomeHost(t, r[i], nowMs)
  {
    forall i | 0 <= i < |r| ensures StatusOfSomeHost(t, r[i], nowMs) {
      assert rows[i] in multiset(t.hosts);
      var k :| 0 <= k < |t.hosts| && t.hosts[k] == rows[i];
      assert r[i] == StatusOf(t, t.hosts[k], nowMs);
    }
  }
}
