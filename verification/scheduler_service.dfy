/** The periodic probe scheduler: its running flag, one probe cycle over the
    enabled hosts, and the manual probe. A cycle is modelled as running its
    probes one after another, in `get_hosts` order. */
module SchedulerService {
  import opened Wrappers
  import opened Seqs
  import opened Strings
  import opened Schemas
  import opened Config
  import opened Database
  import opened PingRepository
  import opened PingService

  /** `running`, and the interval of the registered `ping_all_hosts` job
      once `start` has registered it. */
  datatype Scheduler = Scheduler(running: bool, jobInterval: Option<int>)

  const Idle := Scheduler(false, None)

  /** `start`: a no-op while running; otherwise registers the job at the
      configured interval and sets `running`. */
  function Start(s: Scheduler, settings: Settings): (r: Scheduler)
    ensures r.running
    ensures s.running ==> r == s
    ensures !s.running ==> r.jobInterval == Some(settings.pingInterval)
  {
    if s.running then s else Scheduler(true, Some(settings.pingInterval))
  }

  /** `stop`: a no-op while stopped; otherwise shuts down and clears
      `running`. */
  function Stop(s: Scheduler): (r: Scheduler)
    ensures !r.running
    ensures !s.running ==> r == s
    ensures r.jobInterval == s.jobInterval
  {
    if !s.running then s else s.(running := false)
  }

  /** Starting twice is starting once; stopping twice is stopping once. */
  lemma StartStopIdempotent(s: Scheduler, settings: Settings)
    ensures Start(Start(s, settings), settings) == Start(s, settings)
    ensures Stop(Stop(s)) == Stop(s)
    ensures Stop(Start(Idle, settings)).running == Idle.running
  {
  }

  /** What the network and the store do for one host's probe: the clock
      reading `execute_ping` takes, the outcome of each attempt, and whether
      storing the result raises. */
  datatype Probe = Probe(timestamp: int, attempts: seq<Attempt>, storeFault: Option<string>)

  predicate Feasible(service: PingService, p: Probe) {
    service.retries < |p.attempts|
  }

  function ProbeResult(service: PingService, hostname: string, p: Probe): PingResult
    requires Feasible(service, p)
  {
    ExecutePing(service, hostname, p.timestamp, p.attempts).0
  }

  /** `_ping_and_store`: probes the host, stores the result and returns its
      success flag; if storing raises, the exception is swallowed and the
      answer is `False`. */
  function PingAndStore(t: Tables, service: PingService, hostname: string, p: Probe): (e: (Tables, bool))
    requires Feasible(service, p)
    ensures e.1 <==> ProbeResult(service, hostname, p).success && p.storeFault.None?
    ensures p.storeFault.Some? ==> e.0 == t
    ensures p.storeFault.None? ==>
      && |e.0.pings| == |t.pings| + 1 && e.0.pings[..|t.pings|] == t.pings
      && Decode(e.0.pings[|t.pings|]) == ProbeResult(service, hostname, p)
    ensures e.0.hosts == t.hosts
    ensures Valid(t) ==> Valid(e.0)
  {
    var result := ProbeResult(service, hostname, p);
    var ex := InsertPingResult(t, result, p.storeFault);
    match ex.outcome
    case Raised(_) => (ex.tables, false)
    case Ok(_) => (ex.tables, result.success)
  }

  /** The results a run of probes stores, in order: those whose store did not
      raise. */
  function Stored(service: PingService, hostnames: seq<string>, probes: seq<Probe>): seq<PingResult>
    requires |probes| == |hostnames| && forall i :: 0 <= i < |probes| ==> Feasible(service, probes[i])
  {
    if |hostnames| == 0 then []
    else
      (if probes[0].storeFault.None? then [ProbeResult(service, hostnames[0], probes[0])] else [])
      + Stored(service, hostnames[1..], probes[1..])
  }

  /** `_ping_and_store` for each host in turn: the tables afterwards and each
      probe's answer. Every probe's answer is true exactly when its ping
      succeeded and its result was stored, the stored results are appended
      after the existing rows in probe order, and the registry is untouched. */
  function RunProbes(t: Tables, service: PingService, hostnames: seq<string>, probes: seq<Probe>): (c: (Tables, seq<bool>))
    requires |probes| == |hostnames| && forall i :: 0 <= i < |probes| ==> Feasible(service, probes[i])
    decreases hostnames
    ensures |c.1| == |hostnames|
    ensures forall i :: 0 <= i < |hostnames| ==>
              (c.1[i] <==> ProbeResult(service, hostnames[i], probes[i]).success && probes[i].storeFault.None?)
    ensures |t.pings| <= |c.0.pings| && c.0.pings[..|t.pings|] == t.pings
    ensures DecodeAll(c.0.pings[|t.pings|..]) == Stored(service, hostnames, probes)
    ensures c.0.hosts == t.hosts
    ensures Valid(t) ==> Valid(c.0)
  {
    if |hostnames| == 0 then (t, [])
    else
      var first := PingAndStore(t, service, hostnames[0], probes[0]);
      var rest := RunProbes(first.0, service, hostnames[1..], probes[1..]);
      AnswersShift(service, hostnames, probes, first.1, rest.1);
      StoredSuffix(t, first.0, rest.0, service, hostnames, probes);
      (rest.0, [first.1] + rest.1)
  }

  /** The first probe's answer followed by the answers for the rest. */
  lemma AnswersShift(service: PingService, hostnames: seq<string>, probes: seq<Probe>, first: bool, rest: seq<bool>)
    requires |probes| == |hostnames| > 0 && forall i :: 0 <= i < |probes| ==> Feasible(service, probes[i])
    requires first <==> ProbeResult(service, hostnames[0], probes[0]).success && probes[0].storeFault.None?
    requires |rest| == |hostnames| - 1
    requires forall i :: 0 <= i < |rest| ==>
               (rest[i] <==> ProbeResult(service, hostnames[1..][i], probes[1..][i]).success && probes[1..][i].storeFault.None?)
    ensures forall i :: 0 <= i < |hostnames| ==>
              (([first] + rest)[i] <==> ProbeResult(service, hostnames[i], probes[i]).success && probes[i].storeFault.None?)
  {
    var c := [first] + rest;
    forall i | 0 <= i < |hostnames|
      ensures c[i] <==> ProbeResult(service, hostnames[i], probes[i]).success && probes[i].storeFault.None?
    {
      if i > 0 {
        assert c[i] == rest[i - 1];
        assert hostnames[i] == hostnames[1..][i - 1] && probes[i] == probes[1..][i - 1];
      }
    }
  }

  lemma StoredSuffix(t: Tables, t1: Tables, t2: Tables, service: PingService, hostnames: seq<string>, probes: seq<Probe>)
    requires |probes| == |hostnames| > 0 && forall i :: 0 <= i < |probes| ==> Feasible(service, probes[i])
    requires t1 == PingAndStore(t, service, hostnames[0], probes[0]).0
    requires |t1.pings| <= |t2.pings| && t2.pings[..|t1.pings|] == t1.pings
    requires DecodeAll(t2.pings[|t1.pings|..]) == Stored(service, hostnames[1..], probes[1..])
    ensures |t.pings| <= |t2.pings| && t2.pings[..|t.pings|] == t.pings
    ensures DecodeAll(t2.pings[|t.pings|..]) == Stored(service, hostnames, probes)
  {
    var extra := t1.pings[|t.pings|..];
    var tail := t2.pings[|t1.pings|..];
    if probes[0].storeFault.None? {
      assert extra == [t1.pings[|t.pings|]];
    } else {
      assert extra == [];
    }
    assert DecodeAll(extra) ==
      (if probes[0].storeFault.None? then [ProbeResult(service, hostnames[0], probes[0])] else []);
    PrefixChain(t.pings, t1.pings, t2.pings);
    DecodeAppend(extra, tail);
  }

  function IsEnabled(h: Host): bool {
    h.enabled
  }

  function NameOrdered(a: Host, b: Host): bool {
    StrLe(a.displayName, b.displayName)
  }

  function HostnameDiffers(a: Host, b: Host): bool {
    a.hostname != b.hostname
  }

  /** `[h for h in get_hosts() if h.enabled]`: the enabled hosts, still
      ascending by display name. */
  function EnabledHosts(t: Tables): (r: seq<Host>)
    ensures forall i :: 0 <= i < |r| ==> r[i].enabled && r[i] in GetHosts(t)
    ensures forall h :: h in GetHosts(t) && h.enabled ==> h in r
    ensures forall i, j :: 0 <= i < j < |r| ==> StrLe(r[i].displayName, r[j].displayName)
  {
    var hosts := GetHosts(t);
    var r := Filter(IsEnabled, hosts);
    assert forall h :: h in hosts && h.enabled ==> h in r by {
      forall h | h in hosts && h.enabled ensures h in r {
        var k :| 0 <= k < |hosts| && hosts[k] == h;
      }
    }
    assert Pairwise(NameOrdered, hosts);
    FilterPairwise(IsEnabled, NameOrdered, hosts);
    assert forall i, j :: 0 <= i < j < |r| ==> NameOrdered(r[i], r[j]);
    r
  }

  /** The enabled hosts are the listing's enabled entries in listing order:
      `idx[k]` is where the k-th of them stands in `get_hosts`, and no enabled
      entry is skipped. */
  lemma EnabledHostsPositions(t: Tables) returns (idx: seq<int>)
    ensures |idx| == |EnabledHosts(t)|
    ensures forall k :: 0 <= k < |idx| ==> 0 <= idx[k] < |GetHosts(t)| && EnabledHosts(t)[k] == GetHosts(t)[idx[k]]
    ensures forall k, l :: 0 <= k < l < |idx| ==> idx[k] < idx[l]
    ensures forall j :: 0 <= j < |GetHosts(t)| && GetHosts(t)[j].enabled ==> j in idx
  {
    var hosts := GetHosts(t);
    assert EnabledHosts(t) == Filter(IsEnabled, hosts);
    idx := FilterPositions(IsEnabled, hosts);
    forall j | 0 <= j < |hosts| && hosts[j].enabled ensures j in idx {
      assert IsEnabled(hosts[j]);
    }
  }

  /** On valid tables no hostname is listed twice among the enabled hosts. */
  lemma EnabledHostsUnique(t: Tables)
    requires Valid(t)
    ensures forall i, j :: 0 <= i < j < |EnabledHosts(t)| ==> EnabledHosts(t)[i].hostname != EnabledHosts(t)[j].hostname
  {
    var hosts := GetHosts(t);
    GetHostsUnique(t);
    assert Pairwise(HostnameDiffers, hosts);
    assert EnabledHosts(t) == Filter(IsEnabled, hosts);
    FilterPairwise(IsEnabled, HostnameDiffers, hosts);
    var r := EnabledHosts(t);
    assert forall i, j :: 0 <= i < j < |r| ==> HostnameDiffers(r[i], r[j]);
  }

  function Hostnames(hosts: seq<Host>): (r: seq<string>)
    ensures |r| == |hosts| && forall i :: 0 <= i < |hosts| ==> r[i] == hosts[i].hostname
  {
    seq(|hosts|, i requires 0 <= i < |hosts| => hosts[i].hostname)
  }

  /** One cycle's outcome: the tables afterwards, the hostnames probed, and the
      two counts the cycle logs. */
  datatype Cycle = Cycle(tables: Tables, probed: seq<string>, successes: nat, failures: nat)

  function IsTrue(b: bool): bool {
    b
  }

  /** `_ping_all_hosts`: probes each enabled host once, in `get_hosts` order,
      and counts as successes the probes whose ping succeeded and was stored;
      the other probes are failures. With no enabled host nothing is probed
      and nothing stored. `probes[i]` is what happens to the i-th enabled
      host's probe. */
  function PingAllHosts(t: Tables, service: PingService, probes: seq<Probe>): (c: Cycle)
    requires |probes| == |EnabledHosts(t)|
    requires forall i :: 0 <= i < |probes| ==> Feasible(service, probes[i])
    ensures c.probed == Hostnames(EnabledHosts(t))
    ensures c.successes + c.failures == |EnabledHosts(t)|
    ensures c.successes == Count(IsTrue, RunProbes(t, service, c.probed, probes).1)
    ensures |EnabledHosts(t)| == 0 ==> c.tables == t
    ensures |t.pings| <= |c.tables.pings| && c.tables.pings[..|t.pings|] == t.pings
    ensures DecodeAll(c.tables.pings[|t.pings|..]) == Stored(service, c.probed, probes)
    ensures c.tables.hosts == t.hosts
    ensures Valid(t) ==> Valid(c.tables)
  {
    var hostnames := Hostnames(EnabledHosts(t));
    if |hostnames| == 0 then
      Cycle(t, [], 0, 0)
    else
      var run := RunProbes(t, service, hostnames, probes);
      var successes := Count(IsTrue, run.1);
      Cycle(run.0, hostnames, successes, |run.1| - successes)
  }

  /** A cycle probes the enabled hosts of the listing in listing order, none
      skipped, and on valid tables no hostname twice. */
  lemma PingAllHostsOrder(t: Tables, service: PingService, probes: seq<Probe>) returns (idx: seq<int>)
    requires |probes| == |EnabledHosts(t)|
    requires forall i :: 0 <= i < |probes| ==> Feasible(service, probes[i])
    ensures var probed := PingAllHosts(t, service, probes).probed;
      && |idx| == |probed|
      && (forall k :: 0 <= k < |idx| ==>
            0 <= idx[k] < |GetHosts(t)| && GetHosts(t)[idx[k]].enabled && probed[k] == GetHosts(t)[idx[k]].hostname)
      && (forall k, l :: 0 <= k < l < |idx| ==> idx[k] < idx[l])
      && (forall j :: 0 <= j < |GetHosts(t)| && GetHosts(t)[j].enabled ==> j in idx)
    ensures Valid(t) ==>
      var probed := PingAllHosts(t, service, probes).probed;
      forall i, j :: 0 <= i < j < |probed| ==> probed[i] != probed[j]
  {
    var enabled := EnabledHosts(t);
    idx := EnabledHostsPositions(t);
    var probed := PingAllHosts(t, service, probes).probed;
    assert probed == Hostnames(enabled);
    forall k | 0 <= k < |idx|
      ensures 0 <= idx[k] < |GetHosts(t)| && GetHosts(t)[idx[k]].enabled && probed[k] == GetHosts(t)[idx[k]].hostname
    {
      assert enabled[k] == GetHosts(t)[idx[k]];
    }
    if Valid(t) {
      EnabledHostsUnique(t);
    }
  }

  /** Every stored probe adds one row, and a cycle's successes never exceed the
      rows it added. */
  lemma {:induction false} StoredCount(t: Tables, service: PingService, hostnames: seq<string>, probes: seq<Probe>)
    requires |probes| == |hostnames| && forall i :: 0 <= i < |probes| ==> Feasible(service, probes[i])
    decreases hostnames
    ensures Count(IsTrue, RunProbes(t, service, hostnames, probes).1) <= |Stored(service, hostnames, probes)|
  {
    if |hostnames| > 0 {
      var first := PingAndStore(t, service, hostnames[0], probes[0]);
      assert forall i :: 0 <= i < |probes| - 1 ==> probes[1..][i] == probes[i + 1];
      StoredCount(first.0, service, hostnames[1..], probes[1..]);
      var run := RunProbes(t, service, hostnames, probes);
      assert run.1 == [first.1] + RunProbes(first.0, service, hostnames[1..], probes[1..]).1;
      assert run.1[1..] == RunProbes(first.0, service, hostnames[1..], probes[1..]).1;
    }
  }

  /** What `ping_now` returns. */
  datatype PingReport = PingReport(success: bool, latency: Option<real>, timestamp: Option<int>, error: Option<string>)

  /** `ping_now`: probes the host and stores the result, reporting its fields;
      if storing raises, it reports a failure with no latency and no
      timestamp, whose error is the exception's text, and nothing is stored. */
  function PingNow(t: Tables, service: PingService, hostname: string, p: Probe): (e: (Tables, PingReport))
    requires Feasible(service, p)
    ensures var result := ProbeResult(service, hostname, p);
      p.storeFault.None? ==>
        && e.1 == PingReport(result.success, result.latency, Some(result.timestamp), result.error)
        && |e.0.pings| == |t.pings| + 1 && e.0.pings[..|t.pings|] == t.pings
        && Decode(e.0.pings[|t.pings|]) == result
    ensures p.storeFault.Some? ==> e == (t, PingReport(false, None, None, p.storeFault))
    ensures e.1.success ==> e.1.latency.Some? && e.1.error.None?
    ensures e.0.hosts == t.hosts
    ensures Valid(t) ==> Valid(e.0)
  {
    var result := ProbeResult(service, hostname, p);
    var ex := InsertPingResult(t, result, p.storeFault);
    match ex.outcome
    case Raised(err) => (ex.tables, PingReport(false, None, None, Some(err)))
    case Ok(_) => (ex.tables, PingReport(result.success, result.latency, Some(result.timestamp), result.error))
  }
}
