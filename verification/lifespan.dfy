/** Application startup and shutdown: database initialisation, registration
    of the configured hosts, and starting and stopping the two services. */
module Lifespan {
  import opened Wrappers
  import opened Strings
  import opened Schemas
  import opened Config
  import opened Database
  import opened PingRepository
  import SchedulerService
  import CleanupService

  /** `hostname.split('.')[0].title() if '.' in hostname else hostname`.
      `title` stands for `str.title()`, whose Unicode casing rules are not
      modelled. */
  function DisplayName(hostname: string, title: string -> string): (r: string)
    ensures '.' !in hostname ==> r == hostname
    ensures '.' in hostname ==> r == title(hostname[..IndexOf(hostname, '.')])
  {
    if '.' in hostname then
      FirstPiece(hostname, '.');
      title(Split(hostname, '.')[0])
    else hostname
  }

  /** The first piece of a split is the text before the first separator. */
  lemma {:induction false} FirstPiece(s: string, sep: char)
    requires sep in s
    ensures Split(s, sep)[0] == s[..IndexOf(s, sep)]
  {
    if s[0] != sep {
      FirstPiece(s[1..], sep);
      assert s[..IndexOf(s, sep)] == [s[0]] + s[1..][..IndexOf(s[1..], sep)];
    }
  }

  /** One pass of the bootstrap loop: a hostname already registered is left
      alone; otherwise it is added, enabled, with its derived display name.
      `now` is the clock reading `add_host` takes. */
  function Register(t: Tables, hostname: string, title: string -> string, now: int): (r: Tables)
    ensures HasHostname(r, hostname)
    ensures HasHostname(t, hostname) ==> r == t
    ensures !HasHostname(t, hostname) ==>
      r.hosts == t.hosts + [HostRow(t.nextHostId, hostname, DisplayName(hostname, title), 1, now)]
    ensures r.pings == t.pings
    ensures Valid(t) ==> Valid(r)
  {
    if GetHostByHostname(t, hostname).Some? then t
    else
      var r := AddHost(t, hostname, DisplayName(hostname, title), now, None).tables;
      assert r.hosts[|t.hosts|].hostname == hostname;
      r
  }

  /** The bootstrap loop over the configured hostnames, in order. */
  function Bootstrap(t: Tables, hostnames: seq<string>, title: string -> string, now: int): (r: Tables)
    decreases |hostnames|
    ensures forall i :: 0 <= i < |hostnames| ==> HasHostname(r, hostnames[i])
    ensures |t.hosts| <= |r.hosts| && r.hosts[..|t.hosts|] == t.hosts
    ensures forall k :: |t.hosts| <= k < |r.hosts| ==>
              && r.hosts[k].hostname in hostnames
              && !HasHostname(t, r.hosts[k].hostname)
              && r.hosts[k].displayName == DisplayName(r.hosts[k].hostname, title)
              && r.hosts[k].enabled == 1
    ensures r.pings == t.pings
    ensures Valid(t) ==> Valid(r)
  {
    if |hostnames| == 0 then t
    else
      var t1 := Register(t, hostnames[0], title, now);
      var r := Bootstrap(t1, hostnames[1..], title, now);
      assert forall i :: 1 <= i < |hostnames| ==> hostnames[i] == hostnames[1..][i - 1];
      BootstrapSteps(t, t1, r, hostnames, title, now);
      r
  }

  lemma BootstrapSteps(t: Tables, t1: Tables, r: Tables, hostnames: seq<string>, title: string -> string, now: int)
    requires |hostnames| > 0 && t1 == Register(t, hostnames[0], title, now)
    requires HasHostname(t1, hostnames[0])
    requires |t1.hosts| <= |r.hosts| && r.hosts[..|t1.hosts|] == t1.hosts
    requires forall k :: |t1.hosts| <= k < |r.hosts| ==>
              && r.hosts[k].hostname in hostnames[1..]
              && !HasHostname(t1, r.hosts[k].hostname)
              && r.hosts[k].displayName == DisplayName(r.hosts[k].hostname, title)
              && r.hosts[k].enabled == 1
    ensures HasHostname(r, hostnames[0])
    ensures |t.hosts| <= |r.hosts| && r.hosts[..|t.hosts|] == t.hosts
    ensures forall k :: |t.hosts| <= k < |r.hosts| ==>
              && r.hosts[k].hostname in hostnames
              && !HasHostname(t, r.hosts[k].hostname)
              && r.hosts[k].displayName == DisplayName(r.hosts[k].hostname, title)
              && r.hosts[k].enabled == 1
  {
    var i :| 0 <= i < |t1.hosts| && t1.hosts[i].hostname == hostnames[0];
    assert r.hosts[i] == t1.hosts[i];
    assert t1.hosts[..|t.hosts|] == t.hosts;
    forall k | |t.hosts| <= k < |r.hosts|
      ensures && r.hosts[k].hostname in hostnames
              && !HasHostname(t, r.hosts[k].hostname)
              && r.hosts[k].displayName == DisplayName(r.hosts[k].hostname, title)
              && r.hosts[k].enabled == 1
    {
      if k < |t1.hosts| {
        assert r.hosts[k] == t1.hosts[k];
        assert k == |t.hosts|;
      } else {
        var h := r.hosts[k].hostname;
        assert h in hostnames[1..];
      }
    }
  }

  /** Registering names that are all already registered changes nothing. */
  lemma {:induction false} BootstrapRegistered(t: Tables, hostnames: seq<string>, title: string -> string, now: int)
    requires forall i :: 0 <= i < |hostnames| ==> HasHostname(t, hostnames[i])
    ensures Bootstrap(t, hostnames, title, now) == t
    decreases |hostnames|
  {
    if |hostnames| > 0 {
      assert forall i :: 1 <= i < |hostnames| ==> hostnames[i] == hostnames[1..][i - 1];
      BootstrapRegistered(t, hostnames[1..], title, now);
    }
  }

  /** Bootstrapping a second time adds nothing. */
  lemma BootstrapIdempotent(t: Tables, hostnames: seq<string>, title: string -> string, now: int, later: int)
    ensures var once := Bootstrap(t, hostnames, title, now);
      Bootstrap(once, hostnames, title, later) == once
  {
    BootstrapRegistered(Bootstrap(t, hostnames, title, now), hostnames, title, later);
  }

  /** However often a hostname is listed, valid tables end up with exactly one
      host carrying it, and it is the one that was there before, if any. */
  lemma BootstrapOnce(t: Tables, hostnames: seq<string>, title: string -> string, now: int, h: string)
    returns (k: int)
    requires Valid(t) && h in hostnames
    ensures OnlyAt(Bootstrap(t, hostnames, title, now).hosts, h, k)
    ensures HasHostname(t, h) ==> k < |t.hosts|
  {
    var r := Bootstrap(t, hostnames, title, now);
    var i :| 0 <= i < |hostnames| && hostnames[i] == h;
    assert HasHostname(r, h);
    k :| 0 <= k < |r.hosts| && r.hosts[k].hostname == h;
    assert Valid(r);
    forall j | 0 <= j < |r.hosts| && j != k ensures r.hosts[j].hostname != h {
      if j < k {
        assert HostnamesDiffer(r.hosts[j], r.hosts[k]);
      } else {
        assert HostnamesDiffer(r.hosts[k], r.hosts[j]);
      }
    }
  }

  /** `hosts[k]` is the one host carrying `h`. */
  predicate OnlyAt(hosts: seq<HostRow>, h: string, k: int) {
    && 0 <= k < |hosts| && hosts[k].hostname == h
    && forall j :: 0 <= j < |hosts| && hosts[j].hostname == h ==> j == k
  }

  /** The steps of the lifespan handler, in the order it takes them. */
  datatype Phase = InitDatabase | RegisterHosts | StartScheduler | StartCleanup | StopScheduler | StopCleanup

  /** The process state the handler drives. */
  datatype App = App(db: Database, scheduler: SchedulerService.Scheduler, cleanup: CleanupService.Cleanup)

  /** Startup: initialise the database, register the configured hosts in the
      now-existing tables, then start the scheduler, then the cleanup
      service. The order of the first two is carried by the data: `Bootstrap`
      runs on the tables `Initialize` returns. The two services are
      independent of each other and of the tables, so their order shows only
      in the returned phase list, which records the handler's sequence. */
  function Startup(a: App, settings: Settings, title: string -> string, now: int): (r: (App, seq<Phase>))
    requires Coherent(a.db)
    ensures r.1 == [InitDatabase, RegisterHosts, StartScheduler, StartCleanup]
    ensures r.0.db.initialized && r.0.db.schema.Some?
    ensures forall h :: h in MonitoredHostsList(settings) ==> HasHostname(r.0.db.schema.value, h)
    ensures r.0.scheduler.running && r.0.cleanup.running
    ensures a.db.schema.Some? ==> r.0.db.schema.value.pings == a.db.schema.value.pings
    ensures Valid(Initialize(a.db).schema.value) ==> Valid(r.0.db.schema.value)
  {
    var d := Initialize(a.db);
    var tables := Bootstrap(d.schema.value, MonitoredHostsList(settings), title, now);
    var app := App(d.(schema := Some(tables)),
                   SchedulerService.Start(a.scheduler, settings),
                   CleanupService.Start(a.cleanup, settings));
    (app, [InitDatabase, RegisterHosts, StartScheduler, StartCleanup])
  }

  /** Freshly created tables are valid, so a first startup leaves them valid. */
  lemma FirstStartupValid(a: App, settings: Settings, title: string -> string, now: int)
    requires a.db == Database(None, false)
    ensures Valid(Startup(a, settings, title, now).0.db.schema.value)
  {
    assert Initialize(a.db).schema.value == EmptyTables;
  }

  /** Shutdown: stop the scheduler, then the cleanup service. The two stops
      are independent, so their order shows only in the returned phase list. */
  function Shutdown(a: App): (r: (App, seq<Phase>))
    ensures r.1 == [StopScheduler, StopCleanup]
    ensures !r.0.scheduler.running && !r.0.cleanup.running
    ensures r.0.db == a.db
  {
    (App(a.db, SchedulerService.Stop(a.scheduler), CleanupService.Stop(a.cleanup)), [StopScheduler, StopCleanup])
  }
}
