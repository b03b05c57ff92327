/**
 `Command.region_import`: the first field of each record is the compound key
 `code2.code`; the key must split on `.` into exactly two parts (any other count
 is a fatal `ValueError`); the country is resolved through the run's country
 cache (an unknown code is fatal); the Region under (country, code) is looked up
 or created and its name is overwritten.
 */
module RegionImport {
  import opened Wrappers
  import opened Errors
  import opened Text
  import opened Parser
  import opened Store
  import opened CountryCache
  import opened Refresh

  /** The fields `region_import` reads: `items[0]` and `items[2]`. */
  predicate RegionRow(items: Record) {
    |items| >= 3
  }

  predicate RegionRows(rows: seq<Record>) {
    forall i :: 0 <= i < |rows| ==> RegionRow(rows[i])
  }

  /** `code2, id = key.split('.')`: the two parts when the key holds exactly one dot. */
  function SplitCode(key: string): (r: Option<(string, string)>)
    ensures '.' !in key ==> r.None?
  {
    SplitSingleIff(key, '.');
    var parts := Split(key, '.');
    if |parts| == 2 then Some((parts[0], parts[1])) else None
  }

  /** The parts of a split key are dot-free and join back into the key. */
  lemma SplitCodeParts(key: string)
    requires SplitCode(key).Some?
    ensures var (code2, code) := SplitCode(key).value;
            code2 + ['.'] + code == key && '.' !in code2 && '.' !in code
  {
    var parts := Split(key, '.');
    JoinSplit(key, '.');
    SplitPiecesFree(key, '.');
    assert Join(parts, '.') == parts[0] + ['.'] + Join(parts[1..], '.');
  }

  /** A key made of two dot-free parts splits back into them. */
  lemma SplitCodeJoin(code2: string, code: string)
    requires '.' !in code2 && '.' !in code
    ensures SplitCode(code2 + ['.'] + code) == Some((code2, code))
  {
    SplitAround(code2, '.', code);
    SplitNoSeparator(code2, '.');
    SplitNoSeparator(code, '.');
  }

  /** A key with two dots is rejected. */
  lemma SplitCodeTwoDots(a: string, b: string, c: string)
    ensures SplitCode(a + ['.'] + b + ['.'] + c) == None
  {
    assert a + ['.'] + b + ['.'] + c == a + ['.'] + (b + ['.'] + c);
    SplitAround(a, '.', b + ['.'] + c);
    SplitAround(b, '.', c);
  }

  /** The key and the region a well-formed record stores, the country given by its
      code. */
  function RegionEntry(items: Record): (e: (RegionKey, Region))
    requires RegionRow(items) && SplitCode(items[0]).Some?
    ensures e.1.Key() == e.0 && e.1.name == items[2]
    ensures SplitCode(items[0]) == Some((e.0.country, e.0.code))
  {
    var (code2, code) := SplitCode(items[0]).value;
    (RegionKey(code2, code), Region(code2, code, items[2]))
  }

  /** One record: split the key, resolve the country, store the region. */
  function ImportRegionRow(s: Session, items: Record): (r: Result<Session, ImportError>)
    requires RegionRow(items)
    ensures r.Failure? <==> SplitCode(items[0]).None?
                            || var code2 := SplitCode(items[0]).value.0;
                               code2 !in s.cache && code2 !in s.store.countries
    ensures r.Success? ==> r.value.store.countries == s.store.countries
                           && r.value.store.cities == s.store.cities
                           && s.store.regions.Keys <= r.value.store.regions.Keys
    ensures r.Success? && SessionValid(s) ==>
              SessionValid(r.value)
              && r.value.store.regions == s.store.regions[RegionEntry(items).0 := RegionEntry(items).1]
  {
    match SplitCode(items[0])
    case None => Failure(MalformedRegionCode(items[0]))
    case Some((code2, code)) =>
      var found :- GetCountry(s.cache, s.store.countries, code2);
      var region := Region(found.country.code2, code, items[2]);
      GetCountryValid(s.cache, s.store.countries, code2);
      Success(Session(s.store.(regions := s.store.regions[region.Key() := region]), found.cache))
  }

  /** The records of a file, in order, until the first fatal one. */
  function ImportRegions(s: Session, rows: seq<Record>): (r: Outcome)
    requires RegionRows(rows)
    ensures r.session.store.countries == s.store.countries && r.session.store.cities == s.store.cities
    ensures s.store.regions.Keys <= r.session.store.regions.Keys
    ensures SessionValid(s) ==> SessionValid(r.session)
    decreases |rows|
  {
    if |rows| == 0 then Outcome(s, None)
    else
      match ImportRegionRow(s, rows[0])
      case Failure(e) => Outcome(s, Some(e))
      case Success(next) => ImportRegions(next, rows[1..])
  }

  /** A record a valid session imports: its key splits and names a stored country. */
  predicate Resolves(countries: map<string, Country>, items: Record)
    requires RegionRow(items)
  {
    SplitCode(items[0]).Some? && SplitCode(items[0]).value.0 in countries
  }

  /** The fatal error a record that does not resolve raises. */
  function RowError(items: Record): ImportError
    requires RegionRow(items)
  {
    match SplitCode(items[0])
    case None => MalformedRegionCode(items[0])
    case Some((code2, _)) => CountryNotFound(code2)
  }

  /** The number of leading records that resolve. */
  function Resolved(countries: map<string, Country>, rows: seq<Record>): (n: nat)
    requires RegionRows(rows)
    ensures n <= |rows|
    ensures forall i :: 0 <= i < n ==> Resolves(countries, rows[i])
    ensures n < |rows| ==> !Resolves(countries, rows[n])
  {
    if |rows| == 0 || !Resolves(countries, rows[0]) then 0
    else
      var n := 1 + Resolved(countries, rows[1..]);
      assert forall i :: 1 <= i < |rows| ==> rows[i] == rows[1..][i - 1];
      n
  }

  function RegionEntries(rows: seq<Record>): (entries: seq<(RegionKey, Region)>)
    requires RegionRows(rows) && forall i :: 0 <= i < |rows| ==> SplitCode(rows[i][0]).Some?
    ensures |entries| == |rows|
    ensures forall i :: 0 <= i < |rows| ==> entries[i] == RegionEntry(rows[i])
  {
    seq(|rows|, i requires 0 <= i < |rows| => RegionEntry(rows[i]))
  }

  /** The regions after storing the leading records that resolve, in order. */
  function StoredRegions(regions: map<RegionKey, Region>, countries: map<string, Country>, rows: seq<Record>): map<RegionKey, Region>
    requires RegionRows(rows)
    decreases |rows|
  {
    if |rows| == 0 || !Resolves(countries, rows[0]) then regions
    else
      var (key, region) := RegionEntry(rows[0]);
      StoredRegions(regions[key := region], countries, rows[1..])
  }

  /** When every record resolves, the stored regions are the refresh of `regions` by
      the entries of all records. */
  lemma {:induction false} StoredRegionsAll(regions: map<RegionKey, Region>, countries: map<string, Country>, rows: seq<Record>)
    requires RegionRows(rows) && Resolved(countries, rows) == |rows|
    ensures StoredRegions(regions, countries, rows) == Apply(regions, RegionEntries(rows))
    decreases |rows|
  {
    if |rows| > 0 {
      var e := RegionEntry(rows[0]);
      assert Resolved(countries, rows[1..]) == |rows| - 1;
      StoredRegionsAll(regions[e.0 := e.1], countries, rows[1..]);
      assert RegionEntries(rows)[1..] == RegionEntries(rows[1..]);
      ApplyCons(regions, regions[e.0 := e.1], RegionEntries(rows), RegionEntries(rows[1..]));
    }
  }

  /** An outcome stores the regions of the leading records that resolve against
      `countries`, the last record for a key winning, and stops with the error of the
      first record that does not resolve, if any. */
  predicate StoresResolved(r: Outcome, regions: map<RegionKey, Region>, countries: map<string, Country>, rows: seq<Record>)
    requires RegionRows(rows)
  {
    var n := Resolved(countries, rows);
    r.session.store.regions == StoredRegions(regions, countries, rows)
    && (r.error.None? <==> n == |rows|)
    && (n < |rows| ==> r.error == Some(RowError(rows[n])))
  }

  /** What a region import from `s` does. */
  predicate ImportsResolved(s: Session, rows: seq<Record>)
    requires RegionRows(rows)
  {
    StoresResolved(ImportRegions(s, rows), s.store.regions, s.store.countries, rows)
  }

  /** From a valid session, a region import does what `ImportsResolved` says. */
  lemma {:induction false} ImportRegionsResult(s: Session, rows: seq<Record>)
    requires RegionRows(rows) && SessionValid(s)
    ensures ImportsResolved(s, rows)
    decreases |rows|
  {
    if |rows| > 0 && Resolves(s.store.countries, rows[0]) {
      var next := ImportRegionRow(s, rows[0]).value;
      ImportRegionsResult(next, rows[1..]);
      ResultStep(s, rows);
    }
  }

  lemma ResultStep(s: Session, rows: seq<Record>)
    requires RegionRows(rows) && SessionValid(s) && |rows| > 0 && Resolves(s.store.countries, rows[0])
    requires ImportsResolved(ImportRegionRow(s, rows[0]).value, rows[1..])
    ensures ImportsResolved(s, rows)
  {
    var next := ImportRegionRow(s, rows[0]).value;
    assert ImportRegions(s, rows) == ImportRegions(next, rows[1..]);
    RowStores(s, next, rows);
    StoresResolvedStep(ImportRegions(s, rows), s.store, next.store, rows);
  }

  lemma StoresResolvedStep(r: Outcome, store: Store, next: Store, rows: seq<Record>)
    requires RegionRows(rows) && |rows| > 0 && Resolves(store.countries, rows[0])
    requires next.countries == store.countries
    requires next.regions == store.regions[RegionEntry(rows[0]).0 := RegionEntry(rows[0]).1]
    requires StoresResolved(r, next.regions, next.countries, rows[1..])
    ensures StoresResolved(r, store.regions, store.countries, rows)
  {
    var n := Resolved(store.countries, rows);
    assert n == 1 + Resolved(store.countries, rows[1..]);
    if n < |rows| {
      assert rows[n] == rows[1..][n - 1];
    }
  }

  lemma RowStores(s: Session, next: Session, rows: seq<Record>)
    requires RegionRows(rows) && SessionValid(s) && |rows| > 0 && Resolves(s.store.countries, rows[0])
    requires next == ImportRegionRow(s, rows[0]).value
    ensures next.store.regions == s.store.regions[RegionEntry(rows[0]).0 := RegionEntry(rows[0]).1]
  {
  }

  /** An import that ends without error stored a region for every record, the last
      record for a key winning. */
  lemma ImportRegionsComplete(s: Session, rows: seq<Record>)
    requires RegionRows(rows) && SessionValid(s)
    requires ImportRegions(s, rows).error.None?
    ensures forall i :: 0 <= i < |rows| ==>
              SplitCode(rows[i][0]).Some? && SplitCode(rows[i][0]).value.0 in s.store.countries
    ensures ImportRegions(s, rows).session.store.regions == Apply(s.store.regions, RegionEntries(rows))
  {
    ImportRegionsResult(s, rows);
    StoredRegionsAll(s.store.regions, s.store.countries, rows);
  }

  /** Importing a file again from where a complete import left off changes no region. */
  lemma ImportRegionsIdempotent(s: Session, rows: seq<Record>)
    requires RegionRows(rows) && SessionValid(s)
    requires ImportRegions(s, rows).error.None?
    ensures var once := ImportRegions(s, rows).session;
            var twice := ImportRegions(once, rows);
            twice.error.None? && twice.session.store == once.store
  {
    var once := ImportRegions(s, rows).session;
    ImportRegionsComplete(s, rows);
    ImportRegionsResult(once, rows);
    assert Resolved(once.store.countries, rows) == |rows|;
    StoredRegionsAll(once.store.regions, once.store.countries, rows);
    ApplyIdempotent(s.store.regions, RegionEntries(rows));
  }
}
