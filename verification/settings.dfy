/** The application settings: their defaults and the two comma-separated
    list parsers. Loading values from the environment or a `.env` file is not
    modelled; a `Settings` value is whatever was loaded. */
module Config {
  import opened Seqs
  import opened Strings

  datatype Settings = Settings(
    port: int,
    host: string,
    pingInterval: int,
    pingTimeout: int,
    pingRetries: int,
    databasePath: string,
    retentionDays: int,
    cleanupHour: int,
    monitoredHosts: string,
    corsOrigins: string)

  /** The values used when nothing overrides them. */
  const Defaults := Settings(
    8000, "0.0.0.0",
    60, 5, 2,
    "./data/pings.db",
    120, 2,
    "router.local,8.8.8.8,1.1.1.1",
    "http://localhost:3000,http://localhost:5173")

  predicate NotBlank(x: string) {
    x != ""
  }

  function StripAll(pieces: seq<string>): (r: seq<string>)
    ensures |r| == |pieces| && forall i :: 0 <= i < |pieces| ==> r[i] == Strip(pieces[i])
    ensures forall x :: x in r ==> IsStripped(x)
  {
    seq(|pieces|, i requires 0 <= i < |pieces| => Strip(pieces[i]))
  }

  /** `[x.strip() for x in pieces if x.strip()]`: the stripped pieces that are
      not blank, in order. */
  function Clean(pieces: seq<string>): (r: seq<string>)
    ensures |r| <= |pieces|
    ensures forall k :: 0 <= k < |r| ==> r[k] != "" && IsStripped(r[k])
    ensures forall x :: x in r <==> x in StripAll(pieces) && x != ""
  {
    var stripped := StripAll(pieces);
    FilterMembers(NotBlank, stripped);
    Filter(NotBlank, stripped)
  }

  /** The comma-separated list parse both `get_*_list` methods apply: the
      results are the non-blank stripped comma-separated pieces, none of them
      empty, padded or holding a comma. */
  function ParseList(s: string): (r: seq<string>)
    ensures forall k :: 0 <= k < |r| ==> r[k] != "" && IsStripped(r[k]) && ',' !in r[k]
    ensures forall x :: x in r <==> x in StripAll(Split(s, ',')) && x != ""
  {
    var pieces := Split(s, ',');
    CleanWithout(pieces, ',');
    Clean(pieces)
  }

  /** Cleaning goes piece by piece in order: a further piece adds its stripped
      form at the end, unless that is blank. With `Clean([]) == []` this fixes
      the whole result. */
  lemma CleanSnoc(pieces: seq<string>, x: string)
    ensures Clean([]) == []
    ensures Clean(pieces + [x]) == Clean(pieces) + (if Strip(x) != "" then [Strip(x)] else [])
  {
    var before := StripAll(pieces);
    StripAllAppend(pieces, x);
    assert Clean(pieces + [x]) == Filter(NotBlank, before + [Strip(x)]);
    FilterAppend(NotBlank, before, Strip(x));
  }

  lemma StripAllAppend(pieces: seq<string>, x: string)
    ensures StripAll(pieces + [x]) == StripAll(pieces) + [Strip(x)]
  {
    var all := pieces + [x];
    var l := StripAll(all);
    var front := StripAll(pieces);
    var r := front + [Strip(x)];
    assert |l| == |r|;
    forall i | 0 <= i < |l| ensures l[i] == r[i] {
      if i < |pieces| {
        assert all[i] == pieces[i] && r[i] == front[i];
      } else {
        assert all[i] == x;
      }
    }
  }

  /** The parsed items are the non-blank stripped comma-separated pieces, in
      order: `idx[k]` is the piece the k-th item came from, and no non-blank
      piece is skipped. */
  lemma ParseListPositions(s: string) returns (idx: seq<int>)
    ensures |idx| == |ParseList(s)|
    ensures forall k :: 0 <= k < |idx| ==>
              0 <= idx[k] < |Split(s, ',')| && ParseList(s)[k] == Strip(Split(s, ',')[idx[k]])
    ensures forall k, l :: 0 <= k < l < |idx| ==> idx[k] < idx[l]
    ensures forall j :: 0 <= j < |Split(s, ',')| && Strip(Split(s, ',')[j]) != "" ==> j in idx
  {
    var pieces := Split(s, ',');
    var stripped := StripAll(pieces);
    assert ParseList(s) == Filter(NotBlank, stripped);
    idx := FilterPositions(NotBlank, stripped);
    forall j | 0 <= j < |pieces| && Strip(pieces[j]) != "" ensures j in idx {
      assert NotBlank(stripped[j]);
    }
  }

  /** Stripped pieces keep out any character the pieces lacked. */
  lemma CleanWithout(pieces: seq<string>, c: char)
    requires forall j :: 0 <= j < |pieces| ==> c !in pieces[j]
    ensures forall k :: 0 <= k < |Clean(pieces)| ==> c !in Clean(pieces)[k]
  {
    var stripped := StripAll(pieces);
    forall x | x in stripped ensures c !in x {
      var j :| 0 <= j < |stripped| && stripped[j] == x;
      StripWithin(pieces[j], c);
    }
    var r := Clean(pieces);
    forall k | 0 <= k < |r| ensures c !in r[k] {
      assert r[k] in r;
    }
  }

  /** `get_monitored_hosts_list`. */
  function MonitoredHostsList(settings: Settings): (r: seq<string>)
    ensures forall k :: 0 <= k < |r| ==> r[k] != "" && IsStripped(r[k]) && ',' !in r[k]
    ensures forall x :: x in r <==> x in StripAll(Split(settings.monitoredHosts, ',')) && x != ""
  {
    ParseList(settings.monitoredHosts)
  }

  /** `get_cors_origins_list`: the same parse, over `cors_origins`. */
  function CorsOriginsList(settings: Settings): (r: seq<string>)
    ensures forall k :: 0 <= k < |r| ==> r[k] != "" && IsStripped(r[k]) && ',' !in r[k]
    ensures forall x :: x in r <==> x in StripAll(Split(settings.corsOrigins, ',')) && x != ""
  {
    ParseList(settings.corsOrigins)
  }

  /** Cleaning pieces that are already non-blank and stripped keeps them all. */
  lemma CleanClean(parts: seq<string>)
    requires forall k :: 0 <= k < |parts| ==> parts[k] != "" && IsStripped(parts[k])
    ensures Clean(parts) == parts
  {
    assert StripAll(parts) == parts by {
      forall i | 0 <= i < |parts| ensures StripAll(parts)[i] == parts[i] {
        StripStripped(parts[i]);
      }
    }
    FilterAll(NotBlank, parts);
  }

  /** Parsing the comma-join of non-blank, stripped, comma-free items gives
      back the items, in order. */
  lemma ParseJoin(parts: seq<string>)
    requires |parts| >= 1
    requires forall k :: 0 <= k < |parts| ==> parts[k] != "" && IsStripped(parts[k]) && ',' !in parts[k]
    ensures ParseList(Join(parts, ',')) == parts
  {
    SplitJoin(parts, ',');
    CleanClean(parts);
  }

  /** A non-blank value without a comma is a list of one: the value stripped. */
  lemma ParseSingle(s: string)
    requires ',' !in s && !AllSpace(s)
    ensures ParseList(s) == [Strip(s)]
  {
    SplitFree(s, ',');
    StripBlank(s);
    assert Split(s, ',')[1..] == [];
  }

  /** A blank value parses to the empty list. */
  lemma ParseBlank(s: string)
    requires AllSpace(s)
    ensures ParseList(s) == []
  {
    var pieces := Split(s, ',');
    if |ParseList(s)| > 0 {
      assert ParseList(s)[0] in StripAll(pieces);
      var j :| 0 <= j < |pieces| && ParseList(s)[0] == StripAll(pieces)[j];
      PieceAllSpace(s, pieces, j);
      StripAllSpace(pieces[j]);
    }
  }

  /** Every piece of a split of whitespace is whitespace. */
  lemma PieceAllSpace(s: string, pieces: seq<string>, j: int)
    requires AllSpace(s) && pieces == Split(s, ',') && 0 <= j < |pieces|
    ensures AllSpace(pieces[j])
  {
    JoinContains(pieces, ',', j);
    forall k | 0 <= k < |pieces[j]| ensures IsSpace(pieces[j][k]) {
      assert pieces[j][k] in s;
    }
  }

  /** Every character of a joined piece occurs in the join. */
  lemma {:induction false} JoinContains(parts: seq<string>, sep: char, j: int)
    requires |parts| >= 1 && 0 <= j < |parts|
    ensures forall c :: c in parts[j] ==> c in Join(parts, sep)
  {
    if |parts| > 1 {
      if j > 0 {
        JoinContains(parts[1..], sep, j - 1);
        assert parts[1..][j - 1] == parts[j];
      }
      assert Join(parts, sep) == parts[0] + [sep] + Join(parts[1..], sep);
    }
  }

  /** The default probe and retention figures. */
  lemma DefaultValues()
    ensures Defaults.pingInterval == 60 && Defaults.pingTimeout == 5 && Defaults.pingRetries == 2
    ensures Defaults.retentionDays == 120 && Defaults.cleanupHour == 2
    ensures Defaults.port == 8000 && Defaults.databasePath == "./data/pings.db"
  {
  }

  /** The default `monitored_hosts` names three hosts. */
  lemma DefaultMonitoredHosts()
    ensures MonitoredHostsList(Defaults) == ["router.local", "8.8.8.8", "1.1.1.1"]
  {
    var parts := ["router.local", "8.8.8.8", "1.1.1.1"];
    assert Join(parts, ',') == Defaults.monitoredHosts;
    ParseJoin(parts);
  }

  /** The default `cors_origins` names the two development servers. */
  lemma DefaultCorsOrigins()
    ensures CorsOriginsList(Defaults) == ["http://localhost:3000", "http://localhost:5173"]
  {
    var parts := ["http://localhost:3000", "http://localhost:5173"];
    assert Join(parts, ',') == Defaults.corsOrigins;
    ParseJoin(parts);
  }
}
