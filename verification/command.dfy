/**
 `Command.handle`: for every URL of `SOURCES`, in order, download the file when it
 is stale or forced, extract it when it is a zip archive, and import it when it
 was downloaded or its import is forced, as countries, regions or cities
 depending on the source lists the URL is in. The first fatal error ends the run;
 what was saved before it stays saved.
 */
module Command {
  import opened Wrappers
  import opened Errors
  import opened Parser
  import opened Store
  import opened CountryCache
  import opened Fetcher
  import opened Settings
  import opened Naming
  import opened Signals
  import opened CountryImport
  import opened RegionImport
  import opened CityImport
  import opened Refresh

  /** The command-line options `--force-all`, `--force-import-all`, `--force` and
      `--force-import`. */
  datatype Options = Options(forceAll: bool, forceImportAll: bool, force: set<string>, forceImport: set<string>)

  /** A run without any option. */
  function Quiet(): Options {
    Options(false, false, {}, {})
  }

  /** What the command finds outside itself: the server's metadata for each URL, the
      archives in the data directory that open as zip files with the size of each
      of their entries, the lines each data file holds when it is read, the clock,
      the receivers connected to the signal and the Unicode normalisation of search
      names. */
  datatype Env = Env(remote: map<string, RemoteMeta>, archives: map<string, map<string, nat>>,
                     files: map<string, seq<string>>, now: int,
                     receivers: seq<Receiver>, normalize: string -> string)

  /** What was done for one source. */
  datatype Step = Step(url: string, fileName: string, downloaded: bool, extracted: bool,
                       importName: string, imported: seq<Kind>)

  /** The store and country cache, the cached copies in the data directory by file
      name, and the sources handled so far. */
  datatype RunState = RunState(session: Session, local: map<string, LocalFile>, trace: seq<Step>)

  datatype Run = Run(state: RunState, error: Option<ImportError>)

  /** The importers a URL is handed to: cities, or else countries; and, independently,
      regions. */
  function Routes(sources: Sources, url: string): (kinds: seq<Kind>)
    ensures CityKind in kinds <==> url in sources.cities
    ensures CountryKind in kinds <==> url in sources.countries && url !in sources.cities
    ensures RegionKind in kinds <==> url in sources.regions
    ensures |kinds| > 0 <==> url in sources.All()
    ensures |kinds| <= 2 && (RegionKind in kinds ==> kinds[|kinds| - 1] == RegionKind)
  {
    (if url in sources.cities then [CityKind] else if url in sources.countries then [CountryKind] else [])
    + (if url in sources.regions then [RegionKind] else [])
  }

  /** The records of a file have the fields the importer of `kind` reads. */
  predicate Fits(kind: Kind, records: seq<Record>) {
    match kind
    case CountryKind => CountryRows(records)
    case RegionKind => RegionRows(records)
    case CityKind => CityRows(records)
  }

  /** Every file a URL would be imported from has the fields its importers read. */
  predicate FitsFor(sources: Sources, env: Env, url: string) {
    var name := ImportName(FileName(url));
    name in env.files ==> forall k :: k in Routes(sources, url) ==> Fits(k, Parse(env.files[name]))
  }

  /** One importer over the records of a file. Only the region and city importers can
      fail. */
  function ImportKind(s: Session, kind: Kind, records: seq<Record>, env: Env): (r: Outcome)
    requires Fits(kind, records)
    ensures Keeps(s.store, r.session.store)
    ensures SessionValid(s) ==> SessionValid(r.session)
    ensures kind == CountryKind ==>
              r.error.None? && r.session.cache == s.cache
              && r.session.store == s.store.(countries := ImportCountries(s.store.countries, records))
    ensures kind == RegionKind ==> r == ImportRegions(s, records)
    ensures kind == CityKind ==> r == ImportCities(s, records, env.receivers, env.normalize)
  {
    match kind
    case CountryKind =>
      var store := ImportCountryFile(s.store, records);
      CacheValidGrows(s.cache, s.store.countries, store.countries);
      Outcome(Session(store, s.cache), None)
    case RegionKind =>
      ImportRegions(s, records)
    case CityKind =>
      ImportCitiesValid(s, records, env.receivers, env.normalize);
      ImportCities(s, records, env.receivers, env.normalize)
  }

  /** The importers of one URL, in order, until one fails. */
  function ImportRoutes(s: Session, kinds: seq<Kind>, records: seq<Record>, env: Env): (r: Outcome)
    requires forall k :: k in kinds ==> Fits(k, records)
    ensures Keeps(s.store, r.session.store)
    ensures SessionValid(s) ==> SessionValid(r.session)
    ensures |kinds| == 1 ==> r == ImportKind(s, kinds[0], records, env)
    decreases |kinds|
  {
    if |kinds| == 0 then Outcome(s, None)
    else
      var first := ImportKind(s, kinds[0], records, env);
      if first.error.Some? then first
      else
        var r := ImportRoutes(first.session, kinds[1..], records, env);
        KeepsTransitive(s.store, first.session.store, r.session.store);
        r
  }

  /** The importers of `a + b` are those of `a`, then, unless one of them failed,
      those of `b`: the first error stops the chain. */
  lemma {:induction false} ImportRoutesAppend(s: Session, a: seq<Kind>, b: seq<Kind>, records: seq<Record>, env: Env)
    requires forall k :: k in a + b ==> Fits(k, records)
    ensures forall k :: k in a ==> Fits(k, records)
    ensures var x := ImportRoutes(s, a, records, env);
            ImportRoutes(s, a + b, records, env)
            == if x.error.Some? then x else ImportRoutes(x.session, b, records, env)
    decreases |a|
  {
    assert forall k :: k in a ==> k in a + b;
    if |a| > 0 {
      assert (a + b)[0] == a[0] && (a + b)[1..] == a[1..] + b;
      var first := ImportKind(s, a[0], records, env);
      if first.error.None? {
        ImportRoutesAppend(first.session, a[1..], b, records, env);
      }
    } else {
      assert a + b == b;
    }
  }

  /** What the importers of a URL do with the records of its file: a city source is
      imported as cities, and never as countries; any other country source as
      countries; a region source as regions, after the other import and only if it
      succeeded. */
  lemma RoutedImport(sources: Sources, s: Session, url: string, records: seq<Record>, env: Env)
    requires forall k :: k in Routes(sources, url) ==> Fits(k, records)
    ensures var r := ImportRoutes(s, Routes(sources, url), records, env);
            (url in sources.cities ==>
               CityRows(records)
               && var cities := ImportCities(s, records, env.receivers, env.normalize);
               (url !in sources.regions ==> r == cities)
               && (url in sources.regions ==>
                     RegionRows(records)
                     && r == if cities.error.Some? then cities else ImportRegions(cities.session, records)))
            && (url !in sources.cities && url in sources.countries ==>
                  CountryRows(records)
                  && var countries := Session(s.store.(countries := ImportCountries(s.store.countries, records)), s.cache);
                  r == if url in sources.regions then ImportRegions(countries, records) else Outcome(countries, None))
            && (url !in sources.cities && url !in sources.countries && url in sources.regions ==>
                  RegionRows(records) && r == ImportRegions(s, records))
            && (url in sources.cities ==> r.session.store.countries == s.store.countries)
  {
    var kinds := Routes(sources, url);
    if |kinds| == 2 {
      assert kinds == [kinds[0]] + [RegionKind];
      ImportRoutesAppend(s, [kinds[0]], [RegionKind], records, env);
    }
  }

  /** Importing the file `name` with the importers `kinds`: nothing when there are
      none; the file must exist otherwise. */
  function ImportFile(s: Session, kinds: seq<Kind>, name: string, env: Env): (r: Outcome)
    requires name in env.files ==> forall k :: k in kinds ==> Fits(k, Parse(env.files[name]))
    ensures Keeps(s.store, r.session.store)
    ensures SessionValid(s) ==> SessionValid(r.session)
    ensures |kinds| == 0 ==> r == Outcome(s, None)
    ensures |kinds| > 0 && name !in env.files ==> r == Outcome(s, Some(MissingFile(name)))
    ensures |kinds| > 0 && name in env.files ==> r == ImportRoutes(s, kinds, Parse(env.files[name]), env)
  {
    if |kinds| == 0 then
      KeepsReflexive(s.store);
      Outcome(s, None)
    else if name !in env.files then
      KeepsReflexive(s.store);
      Outcome(s, Some(MissingFile(name)))
    else ImportRoutes(s, kinds, Parse(env.files[name]), env)
  }

  /** What `handle` promises about one step. The file is named after the URL; the
      body was fetched when it was forced by the download name; an archive is
      extracted into the same name with `zip` replaced; the file is imported, by
      every importer its URL is routed to, exactly when it was downloaded or its
      import was forced by the import name. */
  predicate StepOk(sources: Sources, opts: Options, step: Step) {
    step.fileName == FileName(step.url)
    && step.extracted == IsArchive(step.fileName)
    && step.importName == ImportName(step.fileName)
    && (opts.forceAll || step.fileName in opts.force ==> step.downloaded)
    && (|step.imported| > 0 <==>
          step.downloaded || opts.forceImportAll || step.importName in opts.forceImport)
    && (|step.imported| > 0 ==> step.imported == Routes(sources, step.url))
  }

  /** The step for a source of `SOURCES` once its download has been decided. */
  function PlanStep(sources: Sources, opts: Options, url: string, downloaded: bool): (step: Step)
    requires url in sources.All()
    requires opts.forceAll || FileName(url) in opts.force ==> downloaded
    ensures StepOk(sources, opts, step) && step.url == url && step.downloaded == downloaded
  {
    var name := FileName(url);
    var importName := ImportName(name);
    var doImport := downloaded || opts.forceImportAll || importName in opts.forceImport;
    Step(url, name, downloaded, IsArchive(name), importName, if doImport then Routes(sources, url) else [])
  }

  /** The local copy of a file, if any. */
  function LocalOf(local: map<string, LocalFile>, name: string): LocalFile {
    if name in local then local[name] else Absent
  }

  /** The archive `name` holds the entry `entry`. */
  predicate Holds(env: Env, name: string, entry: string) {
    name in env.archives && entry in env.archives[name]
  }

  /** The copy `extract` writes for the archive `name`: stamped with the run's clock,
      as large as the entry; empty when the archive lacks the entry, because the
      destination is opened for writing before the entry is read. */
  function Extracted(env: Env, name: string): LocalFile
    requires name in env.archives
  {
    Present(env.now, if ImportName(name) in env.archives[name] then env.archives[name][ImportName(name)] else 0)
  }

  /** `url` is an archive whose entry `extract` writes into the file `name`. */
  predicate ExtractsTo(url: string, name: string) {
    IsArchive(FileName(url)) && name == ImportName(FileName(url))
  }

  /** `url` writes the file `name` of the data directory: its download or its
      extracted entry. */
  predicate Writes(url: string, name: string) {
    name == FileName(url) || ExtractsTo(url, name)
  }

  /** The data directory after `extract` for `url`: an archive that opens writes its
      entry into the import name; a plain file, or an archive that does not open,
      writes nothing. */
  function ExtractInto(env: Env, local: map<string, LocalFile>, url: string): (r: map<string, LocalFile>)
    ensures forall n :: n in local && !ExtractsTo(url, n) ==> n in r && r[n] == local[n]
    ensures forall n :: n in r ==> n in local || ExtractsTo(url, n)
    ensures IsArchive(FileName(url)) && FileName(url) in env.archives ==>
              ImportName(FileName(url)) in r && r[ImportName(FileName(url))] == Extracted(env, FileName(url))
  {
    var name := FileName(url);
    if IsArchive(name) && name in env.archives then local[ImportName(name) := Extracted(env, name)] else local
  }

  /** The data directory after one iteration of the loop has downloaded and
      extracted `url`: the download decision's copy under the file name, the
      extracted entry under the import name, and every other file as it was. */
  function Written(opts: Options, env: Env, local: map<string, LocalFile>, url: string): map<string, LocalFile>
    requires url in env.remote
  {
    ExtractInto(env, local[FileName(url) := FetchOf(opts, env, local, url).local], url)
  }

  /** After one iteration the download decision's copy is under the file name,
      every file `url` does not write is as it was, and no other file appears. */
  lemma WrittenFiles(opts: Options, env: Env, local: map<string, LocalFile>, url: string)
    requires url in env.remote
    ensures var w := Written(opts, env, local, url);
            FileName(url) in w && w[FileName(url)] == FetchOf(opts, env, local, url).local
            && (forall n :: n in local && !Writes(url, n) ==> n in w && w[n] == local[n])
            && (forall n :: n in w ==> n in local || Writes(url, n))
  {
  }

  /** The download decision `handle` takes for `url`: forced by `--force-all` or by
      the download name in `--force`. */
  function FetchOf(opts: Options, env: Env, local: map<string, LocalFile>, url: string): Fetched
    requires url in env.remote
  {
    var name := FileName(url);
    Download(LocalOf(local, name), env.remote[url], opts.forceAll || name in opts.force, env.now)
  }

  /** One iteration of the loop in `handle`. */
  function ProcessSource(sources: Sources, opts: Options, env: Env, st: RunState, url: string): (r: Run)
    requires url in sources.All() && FitsFor(sources, env, url)
    ensures Keeps(st.session.store, r.state.session.store)
    ensures SessionValid(st.session) ==> SessionValid(r.state.session)
    ensures url !in env.remote ==> r == Run(st, Some(NetworkError(url)))
    ensures url in env.remote ==> r.state.local == Written(opts, env, st.local, url)
    ensures url in env.remote && IsArchive(FileName(url)) && !Holds(env, FileName(url), ImportName(FileName(url))) ==>
              r.state.session == st.session && r.error == Some(ExtractionError(FileName(url), ImportName(FileName(url))))
    ensures url in env.remote && (IsArchive(FileName(url)) ==> Holds(env, FileName(url), ImportName(FileName(url)))) ==>
              var step := PlanStep(sources, opts, url, FetchOf(opts, env, st.local, url).downloaded);
              var out := ImportFile(st.session, step.imported, step.importName, env);
              r.state.session == out.session && r.error == out.error
    ensures r.error.None? ==> url in env.remote
                              && (IsArchive(FileName(url)) ==> Holds(env, FileName(url), ImportName(FileName(url))))
    ensures r.error.None? ==> |r.state.trace| == |st.trace| + 1 && r.state.trace[..|st.trace|] == st.trace
    ensures r.error.None? ==> var step := r.state.trace[|st.trace|];
                              StepOk(sources, opts, step) && step.url == url
                              && step.downloaded == FetchOf(opts, env, st.local, url).downloaded
    ensures r.error.Some? ==> r.state.trace == st.trace
  {
    var name := FileName(url);
    if url !in env.remote then Run(st, Some(NetworkError(url)))
    else
      var fetched := FetchOf(opts, env, st.local, url);
      var locals := Written(opts, env, st.local, url);
      if IsArchive(name) && !Holds(env, name, ImportName(name)) then
        KeepsReflexive(st.session.store);
        Run(st.(local := locals), Some(ExtractionError(name, ImportName(name))))
      else
        var step := PlanStep(sources, opts, url, fetched.downloaded);
        var out := ImportFile(st.session, step.imported, step.importName, env);
        Run(RunState(out.session, locals, if out.error.None? then st.trace + [step] else st.trace), out.error)
  }

  /** A source whose file is imported, because it was downloaded or its import was
      forced, has its file parsed and handed to the importers of its URL, and the
      iteration ends with their session and error; a missing file is an error that
      changes nothing. */
  lemma ProcessSourceImports(sources: Sources, opts: Options, env: Env, st: RunState, url: string)
    requires url in sources.All() && FitsFor(sources, env, url) && url in env.remote
    requires IsArchive(FileName(url)) ==> Holds(env, FileName(url), ImportName(FileName(url)))
    requires FetchOf(opts, env, st.local, url).downloaded || opts.forceImportAll
             || ImportName(FileName(url)) in opts.forceImport
    ensures var name := ImportName(FileName(url));
            var r := ProcessSource(sources, opts, env, st, url);
            (name !in env.files ==> r.state.session == st.session && r.error == Some(MissingFile(name)))
            && (name in env.files ==>
                  var out := ImportRoutes(st.session, Routes(sources, url), Parse(env.files[name]), env);
                  r.state.session == out.session && r.error == out.error)
  {
  }

  /** A source whose file is neither downloaded nor forced to import leaves the
      session alone; it can only fail to extract. */
  lemma ProcessSourceSkipsImport(sources: Sources, opts: Options, env: Env, st: RunState, url: string)
    requires url in sources.All() && FitsFor(sources, env, url) && url in env.remote
    requires !FetchOf(opts, env, st.local, url).downloaded && !opts.forceImportAll
             && ImportName(FileName(url)) !in opts.forceImport
    ensures var r := ProcessSource(sources, opts, env, st, url);
            r.state.session == st.session
            && (r.error.None? || r.error == Some(ExtractionError(FileName(url), ImportName(FileName(url)))))
  {
  }

  /** Under `--force-all` or `--force-import-all`, a source that succeeds had its
      file, and its iteration ends with the session its importers produced without
      error. */
  lemma ForcedImport(sources: Sources, opts: Options, env: Env, st: RunState, url: string)
    requires url in sources.All() && FitsFor(sources, env, url)
    requires opts.forceAll || opts.forceImportAll
    requires ProcessSource(sources, opts, env, st, url).error.None?
    ensures var name := ImportName(FileName(url));
            name in env.files
            && (forall k :: k in Routes(sources, url) ==> Fits(k, Parse(env.files[name])))
            && var out := ImportRoutes(st.session, Routes(sources, url), Parse(env.files[name]), env);
            out.error.None? && ProcessSource(sources, opts, env, st, url).state.session == out.session
  {
    var r := ProcessSource(sources, opts, env, st, url);
    assert StepOk(sources, opts, r.state.trace[|st.trace|]);
    ProcessSourceImports(sources, opts, env, st, url);
  }

  /** The importers of every source can read its file. */
  predicate FilesFit(sources: Sources, env: Env) {
    forall u :: u in sources.All() ==> FitsFor(sources, env, u)
  }

  /** The steps of `trace` from position `start` on handled `urls`, in order, as
      `StepOk` says. */
  predicate TraceFrom(sources: Sources, opts: Options, trace: seq<Step>, start: nat, urls: seq<string>) {
    start <= |trace| <= start + |urls|
    && forall i :: start <= i < |trace| ==> trace[i].url == urls[i - start] && StepOk(sources, opts, trace[i])
  }

  lemma TraceFromStep(sources: Sources, opts: Options, trace: seq<Step>, start: nat, urls: seq<string>)
    requires |urls| > 0 && start < |trace|
    requires trace[start].url == urls[0] && StepOk(sources, opts, trace[start])
    requires TraceFrom(sources, opts, trace, start + 1, urls[1..])
    ensures TraceFrom(sources, opts, trace, start, urls)
  {
  }

  /** Every URL of `urls` is one of `SOURCES`. */
  predicate Within(sources: Sources, urls: seq<string>) {
    forall u :: u in urls ==> u in sources.All()
  }

  lemma WithinTail(sources: Sources, urls: seq<string>)
    requires Within(sources, urls) && |urls| > 0
    ensures urls[0] in sources.All() && Within(sources, urls[1..])
  {
    assert urls[0] in urls;
    assert forall u :: u in urls[1..] ==> u in urls;
  }

  lemma PrefixOfPrefix(a: seq<Step>, b: seq<Step>, c: seq<Step>)
    requires |a| <= |b| <= |c| && b[..|a|] == a && c[..|b|] == b
    ensures c[..|a|] == a
  {
    assert c[..|a|] == c[..|b|][..|a|];
  }

  /** The loop of `handle` over `urls` from `st`, ending at the first error. */
  function RunSources(sources: Sources, opts: Options, env: Env, st: RunState, urls: seq<string>): (r: Run)
    requires Within(sources, urls) && FilesFit(sources, env)
    ensures TraceFrom(sources, opts, r.state.trace, |st.trace|, urls)
    ensures r.state.trace[..|st.trace|] == st.trace
    ensures r.error.None? <==> |r.state.trace| == |st.trace| + |urls|
    decreases |urls|
  {
    if |urls| == 0 then Run(st, None)
    else
      WithinTail(sources, urls);
      var first := ProcessSource(sources, opts, env, st, urls[0]);
      if first.error.Some? then first
      else
        var r := RunSources(sources, opts, env, first.state, urls[1..]);
        TraceFromStep(sources, opts, r.state.trace, |st.trace|, urls);
        PrefixOfPrefix(st.trace, first.state.trace, r.state.trace);
        r
  }

  /** The loop over `a + b` is the loop over `a`, then, unless it failed, the loop
      over `b` from where it stopped: the first error ends the run. */
  lemma {:induction false} RunSourcesAppend(sources: Sources, opts: Options, env: Env, st: RunState, a: seq<string>, b: seq<string>)
    requires Within(sources, a + b) && FilesFit(sources, env)
    ensures Within(sources, a) && Within(sources, b)
    ensures var x := RunSources(sources, opts, env, st, a);
            RunSources(sources, opts, env, st, a + b)
            == if x.error.Some? then x else RunSources(sources, opts, env, x.state, b)
    decreases |a|
  {
    assert forall u :: u in a ==> u in a + b;
    assert forall u :: u in b ==> u in a + b;
    if |a| > 0 {
      assert (a + b)[0] == a[0] && (a + b)[1..] == a[1..] + b;
      WithinTail(sources, a + b);
      var first := ProcessSource(sources, opts, env, st, a[0]);
      if first.error.None? {
        RunSourcesAppend(sources, opts, env, first.state, a[1..], b);
      }
    } else {
      assert a + b == b;
    }
  }

  /** A source that fails after the sources before it succeeded ends the run with
      its error: the sources after it are not handled. */
  lemma FailedSourceEndsRun(sources: Sources, opts: Options, env: Env, st: RunState, a: seq<string>, url: string, b: seq<string>)
    requires Within(sources, a + [url] + b) && FilesFit(sources, env)
    requires RunSources(sources, opts, env, st, a).error.None?
    requires ProcessSource(sources, opts, env, RunSources(sources, opts, env, st, a).state, url).error.Some?
    ensures RunSources(sources, opts, env, st, a + [url] + b)
         == ProcessSource(sources, opts, env, RunSources(sources, opts, env, st, a).state, url)
  {
    assert a + [url] + b == a + ([url] + b);
    RunSourcesAppend(sources, opts, env, st, a, [url] + b);
    FailedFirst(sources, opts, env, RunSources(sources, opts, env, st, a).state, url, b);
  }

  /** A loop whose first source fails ends with that failure. */
  lemma FailedFirst(sources: Sources, opts: Options, env: Env, st: RunState, url: string, rest: seq<string>)
    requires Within(sources, [url] + rest) && FilesFit(sources, env)
    requires url in sources.All() && ProcessSource(sources, opts, env, st, url).error.Some?
    ensures RunSources(sources, opts, env, st, [url] + rest) == ProcessSource(sources, opts, env, st, url)
  {
    assert ([url] + rest)[0] == url;
  }

  /** The loop keeps what is stored, and keeps a valid session valid. */
  lemma {:induction false} RunSourcesKeeps(sources: Sources, opts: Options, env: Env, st: RunState, urls: seq<string>)
    requires Within(sources, urls) && FilesFit(sources, env)
    ensures var r := RunSources(sources, opts, env, st, urls);
            Keeps(st.session.store, r.state.session.store)
            && (SessionValid(st.session) ==> SessionValid(r.state.session))
    decreases |urls|
  {
    if |urls| == 0 {
      KeepsReflexive(st.session.store);
    } else {
      WithinTail(sources, urls);
      var first := ProcessSource(sources, opts, env, st, urls[0]);
      if first.error.None? {
        RunSourcesKeeps(sources, opts, env, first.state, urls[1..]);
        var r := RunSources(sources, opts, env, first.state, urls[1..]);
        KeepsTransitive(st.session.store, first.state.session.store, r.state.session.store);
      }
    }
  }

  /** `handle`: every source of `SOURCES` in order, from the given store and data
      directory and an empty country cache. The trace names the sources handled
      before the first error, or all of them. */
  function Handle(sources: Sources, opts: Options, env: Env, store: Store, local: map<string, LocalFile>): (r: Run)
    requires FilesFit(sources, env)
    ensures Keeps(store, r.state.session.store)
    ensures Valid(store) ==> Valid(r.state.session.store)
    ensures TraceFrom(sources, opts, r.state.trace, 0, sources.All())
    ensures r.error.None? <==> |r.state.trace| == |sources.All()|
  {
    var st := RunState(Session(store, map[]), local, []);
    assert Within(sources, sources.All());
    RunSourcesKeeps(sources, opts, env, st, sources.All());
    RunSources(sources, opts, env, st, sources.All())
  }

  /** `--force` is matched against the name of the downloaded file: naming the
      extracted file instead, as the command's help text does with
      `--force cities15000.txt`, leaves the download of an archive to the staleness
      check. */
  lemma ForceByExtractedNameIgnored(sources: Sources, env: Env, st: RunState, url: string)
    requires url in sources.All() && FitsFor(sources, env, url) && url in env.remote
    requires IsArchive(FileName(url))
    ensures var opts := Options(false, false, {ImportName(FileName(url))}, {});
            var r := ProcessSource(sources, opts, env, st, url);
            r.error.None? ==>
              r.state.trace[|st.trace|].downloaded == !UpToDate(LocalOf(st.local, FileName(url)), env.remote[url])
  {
  }

  /** With `--force-all` every source handled was downloaded and imported by every
      importer it is routed to. */
  lemma ForceAllImportsEverything(sources: Sources, env: Env, store: Store, local: map<string, LocalFile>, force: set<string>, forceImport: set<string>)
    requires FilesFit(sources, env)
    ensures var opts := Options(true, false, force, forceImport);
            var trace := Handle(sources, opts, env, store, local).state.trace;
            forall i :: 0 <= i < |trace| ==>
              trace[i].downloaded && trace[i].imported == Routes(sources, sources.All()[i])
  {
  }

  /** The clock of the run is not behind any source's `last-modified`. */
  predicate ClockAhead(env: Env) {
    forall u :: u in env.remote ==> env.now >= env.remote[u].lastModified
  }

  /** `u` writes neither the download of `v` nor, if `v` is an archive, its
      extracted entry. */
  predicate Apart(u: string, v: string) {
    !Writes(u, FileName(v)) && (IsArchive(FileName(v)) ==> !Writes(u, ImportName(FileName(v))))
  }

  /** Different sources write different files into the data directory: no two share
      a download name, and no archive is extracted over another source's file. */
  predicate DistinctNames(urls: seq<string>) {
    forall i, j :: 0 <= i < |urls| && 0 <= j < |urls| && urls[i] != urls[j] ==> Apart(urls[i], urls[j])
  }

  /** The URL is served, has an up-to-date copy in the data directory, and, if it is
      an archive, holds the file it is extracted into. */
  predicate SettledAt(env: Env, local: map<string, LocalFile>, url: string) {
    url in env.remote && FileName(url) in local && UpToDate(local[FileName(url)], env.remote[url])
    && (IsArchive(FileName(url)) ==> Holds(env, FileName(url), ImportName(FileName(url))))
  }

  predicate Settled(env: Env, local: map<string, LocalFile>, urls: seq<string>) {
    forall u :: u in urls ==> SettledAt(env, local, u)
  }

  /** The loop leaves alone the copy of a file no source of `urls` downloads or
      extracts into. */
  lemma {:induction false} RunKeepsOtherCopies(sources: Sources, opts: Options, env: Env, st: RunState, urls: seq<string>, name: string)
    requires Within(sources, urls) && FilesFit(sources, env)
    requires forall u :: u in urls ==> !Writes(u, name)
    requires name in st.local
    ensures var r := RunSources(sources, opts, env, st, urls);
            name in r.state.local && r.state.local[name] == st.local[name]
    decreases |urls|
  {
    if |urls| > 0 {
      WithinTail(sources, urls);
      var first := ProcessSource(sources, opts, env, st, urls[0]);
      assert urls[0] in urls;
      FirstKeepsOtherCopy(sources, opts, env, st, urls[0], name);
      if first.error.None? {
        assert forall u :: u in urls[1..] ==> u in urls;
        RunKeepsOtherCopies(sources, opts, env, first.state, urls[1..], name);
        assert RunSources(sources, opts, env, st, urls) == RunSources(sources, opts, env, first.state, urls[1..]);
      }
    }
  }

  /** One iteration, whether it fails or not, leaves alone the copy of a file its
      source does not write. */
  lemma FirstKeepsOtherCopy(sources: Sources, opts: Options, env: Env, st: RunState, url: string, name: string)
    requires url in sources.All() && FitsFor(sources, env, url)
    requires !Writes(url, name) && name in st.local
    ensures var first := ProcessSource(sources, opts, env, st, url);
            name in first.state.local && first.state.local[name] == st.local[name]
  {
    if url in env.remote {
      WrittenFiles(opts, env, st.local, url);
    }
  }

  /** A run that ends without error, with the clock not behind the server, leaves
      every source settled. */
  lemma {:induction false} RunSettles(sources: Sources, opts: Options, env: Env, st: RunState, urls: seq<string>)
    requires Within(sources, urls) && FilesFit(sources, env)
    requires DistinctNames(urls) && ClockAhead(env)
    requires RunSources(sources, opts, env, st, urls).error.None?
    ensures Settled(env, RunSources(sources, opts, env, st, urls).state.local, urls)
    decreases |urls|
  {
    if |urls| > 0 {
      var url := urls[0];
      var rest := urls[1..];
      WithinTail(sources, urls);
      DistinctTail(urls);
      var first := ProcessSource(sources, opts, env, st, url);
      FirstSettled(sources, opts, env, st, url);
      RunSettles(sources, opts, env, first.state, rest);
      var r := RunSources(sources, opts, env, first.state, rest);
      assert r == RunSources(sources, opts, env, st, urls);
      if url !in rest {
        NoLaterWrites(urls);
        RunKeepsOtherCopies(sources, opts, env, first.state, rest, FileName(url));
        SettledKept(env, first.state.local, r.state.local, url);
      }
      assert forall u :: u in urls ==> u == url || u in rest;
    }
  }

  /** When the first source occurs only once, no later source writes its download. */
  lemma NoLaterWrites(urls: seq<string>)
    requires DistinctNames(urls) && |urls| > 0 && urls[0] !in urls[1..]
    ensures forall u :: u in urls[1..] ==> !Writes(u, FileName(urls[0]))
  {
    forall u | u in urls[1..]
      ensures !Writes(u, FileName(urls[0]))
    {
      var j :| 0 <= j < |urls[1..]| && urls[1..][j] == u;
      assert urls[j + 1] == u;
      assert Apart(u, urls[0]);
    }
  }

  /** A source stays settled while its download is kept. */
  lemma SettledKept(env: Env, local: map<string, LocalFile>, local': map<string, LocalFile>, url: string)
    requires SettledAt(env, local, url)
    requires FileName(url) in local' && local'[FileName(url)] == local[FileName(url)]
    ensures SettledAt(env, local', url)
  {
  }

  lemma DistinctTail(urls: seq<string>)
    requires DistinctNames(urls) && |urls| > 0
    ensures DistinctNames(urls[1..])
  {
    var rest := urls[1..];
    forall i, j | 0 <= i < |rest| && 0 <= j < |rest| && rest[i] != rest[j]
      ensures Apart(rest[i], rest[j])
    {
      assert rest[i] == urls[i + 1] && rest[j] == urls[j + 1];
    }
  }

  /** A source handled without error, with the clock not behind the server, is
      settled right after. */
  lemma FirstSettled(sources: Sources, opts: Options, env: Env, st: RunState, url: string)
    requires url in sources.All() && FilesFit(sources, env) && ClockAhead(env)
    ensures var first := ProcessSource(sources, opts, env, st, url);
            first.error.None? ==> SettledAt(env, first.state.local, url)
  {
    var first := ProcessSource(sources, opts, env, st, url);
    if first.error.None? {
      var name := FileName(url);
      DownloadLeavesUpToDate(LocalOf(st.local, name), env.remote[url], opts.forceAll || name in opts.force, env.now);
      WrittenFiles(opts, env, st.local, url);
    }
  }

  /** The data directory after `extract` has run again for every source of `urls`,
      in order. Only the files archives are extracted into change. */
  function Reextract(env: Env, local: map<string, LocalFile>, urls: seq<string>): (r: map<string, LocalFile>)
    ensures forall n :: n in local && (forall u :: u in urls ==> !ExtractsTo(u, n)) ==> n in r && r[n] == local[n]
    ensures forall n :: n in r ==> n in local || exists u :: u in urls && ExtractsTo(u, n)
    decreases |urls|
  {
    if |urls| == 0 then local
    else
      var r := Reextract(env, ExtractInto(env, local, urls[0]), urls[1..]);
      assert forall u :: u in urls[1..] ==> u in urls;
      assert urls[0] in urls;
      r
  }

  /** When no two sources write the same file, re-extracting leaves every archive
      that opens with a fresh copy of its entry. */
  lemma {:induction false} ReextractStamps(env: Env, local: map<string, LocalFile>, urls: seq<string>)
    requires DistinctNames(urls)
    ensures var r := Reextract(env, local, urls);
            forall u :: u in urls && IsArchive(FileName(u)) && FileName(u) in env.archives ==>
              ImportName(FileName(u)) in r && r[ImportName(FileName(u))] == Extracted(env, FileName(u))
    decreases |urls|
  {
    if |urls| > 0 {
      var url := urls[0];
      var rest := urls[1..];
      var next := ExtractInto(env, local, url);
      DistinctTail(urls);
      ReextractStamps(env, next, rest);
      var r := Reextract(env, local, urls);
      assert r == Reextract(env, next, rest);
      if IsArchive(FileName(url)) && FileName(url) in env.archives && url !in rest {
        var n := ImportName(FileName(url));
        forall u | u in rest
          ensures !ExtractsTo(u, n)
        {
          var j :| 0 <= j < |rest| && rest[j] == u;
          assert urls[j + 1] == u && urls[0] == url;
          assert Apart(u, url);
        }
      }
      assert forall u :: u in urls ==> u == url || u in rest;
    }
  }

  /** The run without options over `urls` from `st` ends without error, downloads
      and imports nothing, keeps the session, and leaves the data directory as
      re-extracting every archive of `urls` does. */
  predicate QuietRan(sources: Sources, env: Env, st: RunState, urls: seq<string>)
    requires Within(sources, urls) && FilesFit(sources, env)
  {
    var r := RunSources(sources, Quiet(), env, st, urls);
    r.error.None? && r.state.session == st.session && r.state.local == Reextract(env, st.local, urls)
    && forall i :: |st.trace| <= i < |r.state.trace| ==>
         !r.state.trace[i].downloaded && r.state.trace[i].imported == []
  }

  /** From settled sources, a run without options downloads and imports nothing,
      leaves the store as it is and changes the data directory only by extracting
      every archive again. */
  lemma {:induction false} QuietRunIsNoOp(sources: Sources, env: Env, st: RunState, urls: seq<string>)
    requires Within(sources, urls) && FilesFit(sources, env)
    requires DistinctNames(urls) && Settled(env, st.local, urls)
    ensures var r := RunSources(sources, Quiet(), env, st, urls);
            r.error.None? && r.state.session == st.session && r.state.local == Reextract(env, st.local, urls)
            && forall i :: |st.trace| <= i < |r.state.trace| ==>
                 !r.state.trace[i].downloaded && r.state.trace[i].imported == []
    decreases |urls|
  {
    if |urls| > 0 {
      WithinTail(sources, urls);
      DistinctTail(urls);
      assert urls[0] in urls;
      QuietStep(sources, env, st, urls[0]);
      var first := ProcessSource(sources, Quiet(), env, st, urls[0]);
      ExtractKeepsSettled(env, st.local, urls);
      QuietRunIsNoOp(sources, env, first.state, urls[1..]);
      QuietRunStep(sources, env, st, urls);
    }
    assert QuietRan(sources, env, st, urls);
  }

  /** A quiet run is quiet when its first step is and the rest of it is. */
  lemma QuietRunStep(sources: Sources, env: Env, st: RunState, urls: seq<string>)
    requires |urls| > 0 && Within(sources, urls) && FilesFit(sources, env)
    requires var first := ProcessSource(sources, Quiet(), env, st, urls[0]);
             first.error.None? && first.state.session == st.session
             && first.state.local == ExtractInto(env, st.local, urls[0])
             && !first.state.trace[|st.trace|].downloaded && first.state.trace[|st.trace|].imported == []
    requires Within(sources, urls[1..])
    requires QuietRan(sources, env, ProcessSource(sources, Quiet(), env, st, urls[0]).state, urls[1..])
    ensures QuietRan(sources, env, st, urls)
  {
    var first := ProcessSource(sources, Quiet(), env, st, urls[0]);
    var r := RunSources(sources, Quiet(), env, first.state, urls[1..]);
    assert RunSources(sources, Quiet(), env, st, urls) == r;
    assert Reextract(env, st.local, urls) == Reextract(env, first.state.local, urls[1..]);
    assert r.state.trace[..|first.state.trace|] == first.state.trace;
    forall i | |st.trace| <= i < |r.state.trace|
      ensures !r.state.trace[i].downloaded && r.state.trace[i].imported == []
    {
      if i == |st.trace| {
        assert r.state.trace[i] == first.state.trace[i];
      }
    }
  }

  /** Extracting the first source keeps the others settled: it writes none of their
      downloads. */
  lemma ExtractKeepsSettled(env: Env, local: map<string, LocalFile>, urls: seq<string>)
    requires |urls| > 0 && DistinctNames(urls) && Settled(env, local, urls)
    ensures Settled(env, ExtractInto(env, local, urls[0]), urls[1..])
  {
    var rest := urls[1..];
    forall u | u in rest
      ensures SettledAt(env, ExtractInto(env, local, urls[0]), u)
    {
      var j :| 0 <= j < |rest| && rest[j] == u;
      assert urls[j + 1] == u && u in urls;
      if u != urls[0] {
        assert Apart(urls[0], u);
      }
    }
  }

  /** A settled source, handled without options, is neither downloaded nor imported,
      leaves the store as it is and only extracts its archive again. */
  lemma QuietStep(sources: Sources, env: Env, st: RunState, url: string)
    requires url in sources.All() && FilesFit(sources, env)
    requires url in env.remote && FileName(url) in st.local
    requires UpToDate(st.local[FileName(url)], env.remote[url])
    requires IsArchive(FileName(url)) ==> Holds(env, FileName(url), ImportName(FileName(url)))
    ensures var r := ProcessSource(sources, Quiet(), env, st, url);
            r.error.None? && r.state.session == st.session && r.state.local == ExtractInto(env, st.local, url)
            && !r.state.trace[|st.trace|].downloaded && r.state.trace[|st.trace|].imported == []
  {
    var name := FileName(url);
    assert st.local[name := st.local[name]] == st.local;
  }

  /** Running the command again without options, at any time, after a run that ended
      without error downloads nothing, imports nothing, leaves the store as the first
      run left it, and changes the data directory only by extracting every archive
      again, provided the clock of the first run is not behind the server and no two
      sources write the same file. */
  lemma RerunIsNoOp(sources: Sources, opts: Options, env: Env, later: int, store: Store, local: map<string, LocalFile>)
    requires FilesFit(sources, env) && DistinctNames(sources.All()) && ClockAhead(env)
    requires Handle(sources, opts, env, store, local).error.None?
    ensures var first := Handle(sources, opts, env, store, local).state;
            var env' := env.(now := later);
            var second := Handle(sources, Quiet(), env', first.session.store, first.local);
            second.error.None? && second.state.session.store == first.session.store
            && second.state.local == Reextract(env', first.local, sources.All())
            && forall i :: 0 <= i < |second.state.trace| ==>
                 !second.state.trace[i].downloaded && second.state.trace[i].imported == []
  {
    var first := Handle(sources, opts, env, store, local).state;
    HandleSettles(sources, opts, env, later, store, local);
    QuietHandle(sources, env.(now := later), first.session.store, first.local);
  }

  /** `handle` without options, from a data directory where every source is
      settled, downloads and imports nothing, leaves the store as it is and only
      extracts every archive again. */
  lemma QuietHandle(sources: Sources, env: Env, store: Store, local: map<string, LocalFile>)
    requires FilesFit(sources, env) && DistinctNames(sources.All()) && Settled(env, local, sources.All())
    ensures var r := Handle(sources, Quiet(), env, store, local);
            r.error.None? && r.state.session.store == store
            && r.state.local == Reextract(env, local, sources.All())
            && forall i :: 0 <= i < |r.state.trace| ==>
                 !r.state.trace[i].downloaded && r.state.trace[i].imported == []
  {
    HandleRuns(sources, Quiet(), env, store, local);
    QuietRunIsNoOp(sources, env, RunState(Session(store, map[]), local, []), sources.All());
  }

  /** `handle` is the loop over `SOURCES` from an empty trace and country cache. */
  lemma HandleRuns(sources: Sources, opts: Options, env: Env, store: Store, local: map<string, LocalFile>)
    requires FilesFit(sources, env)
    ensures Within(sources, sources.All())
    ensures Handle(sources, opts, env, store, local)
         == RunSources(sources, opts, env, RunState(Session(store, map[]), local, []), sources.All())
  {
  }

  /** A run that ends without error, with the clock not behind the server, leaves
      every source settled, whatever the clock reads afterwards. */
  lemma HandleSettles(sources: Sources, opts: Options, env: Env, later: int, store: Store, local: map<string, LocalFile>)
    requires FilesFit(sources, env) && DistinctNames(sources.All()) && ClockAhead(env)
    requires Handle(sources, opts, env, store, local).error.None?
    ensures var first := Handle(sources, opts, env, store, local).state;
            FilesFit(sources, env.(now := later)) && Settled(env.(now := later), first.local, sources.All())
  {
    var first := Handle(sources, opts, env, store, local).state;
    RunSettles(sources, opts, env, RunState(Session(store, map[]), local, []), sources.All());
    SettledAnyTime(sources, env, later, first.local);
  }

  /** Being settled, and the files fitting their importers, do not depend on the
      clock. */
  lemma SettledAnyTime(sources: Sources, env: Env, later: int, local: map<string, LocalFile>)
    requires FilesFit(sources, env) && Settled(env, local, sources.All())
    ensures FilesFit(sources, env.(now := later)) && Settled(env.(now := later), local, sources.All())
  {
    var env' := env.(now := later);
    assert forall u :: FitsFor(sources, env', u) == FitsFor(sources, env, u);
    assert forall u :: SettledAt(env', local, u) == SettledAt(env, local, u);
  }

  /** With the default sources, the country file goes to the country importer, the
      region file to the region importer and the city archive to the city importer. */
  lemma DefaultRoutes()
    ensures var d := Defaults();
            Routes(d, d.countries[0]) == [CountryKind]
            && Routes(d, d.regions[0]) == [RegionKind]
            && Routes(d, d.cities[0]) == [CityKind]
  {
    var d := Defaults();
    DefaultFileNames();
    assert d.countries[0] != d.regions[0] && d.countries[0] != d.cities[0] && d.regions[0] != d.cities[0];
  }

  /** A loop that ends without error ran its first source without error and went
      on from where that left off. */
  lemma FirstStep(sources: Sources, opts: Options, env: Env, st: RunState, url: string, rest: seq<string>)
    requires Within(sources, [url] + rest) && FilesFit(sources, env)
    requires RunSources(sources, opts, env, st, [url] + rest).error.None?
    ensures url in sources.All() && Within(sources, rest)
    ensures var p := ProcessSource(sources, opts, env, st, url);
            p.error.None? && RunSources(sources, opts, env, st, [url] + rest) == RunSources(sources, opts, env, p.state, rest)
  {
    assert ([url] + rest)[0] == url && ([url] + rest)[1..] == rest;
    WithinTail(sources, [url] + rest);
  }

  /** The loop over three sources is their three iterations, as long as none fails. */
  lemma ThreeSteps(sources: Sources, opts: Options, env: Env, st: RunState, c: string, r: string, z: string)
    requires Within(sources, [c, r, z]) && FilesFit(sources, env)
    requires RunSources(sources, opts, env, st, [c, r, z]).error.None?
    ensures var p1 := ProcessSource(sources, opts, env, st, c);
            p1.error.None?
            && var p2 := ProcessSource(sources, opts, env, p1.state, r);
            p2.error.None?
            && var p3 := ProcessSource(sources, opts, env, p2.state, z);
            p3.error.None? && RunSources(sources, opts, env, st, [c, r, z]).state == p3.state
  {
    assert [c, r, z] == [c] + [r, z] && [r, z] == [r] + [z] && [z] == [z] + [];
    FirstStep(sources, opts, env, st, c, [r, z]);
    var p1 := ProcessSource(sources, opts, env, st, c);
    FirstStep(sources, opts, env, p1.state, r, [z]);
    var p2 := ProcessSource(sources, opts, env, p1.state, r);
    FirstStep(sources, opts, env, p2.state, z, []);
  }

  /** A forced country source that succeeds replaces the stored countries by the
      import of its file and leaves the rest of the session alone. */
  lemma CountryStage(sources: Sources, opts: Options, env: Env, st: RunState, url: string)
    requires url in sources.All() && FitsFor(sources, env, url) && Routes(sources, url) == [CountryKind]
    requires opts.forceAll || opts.forceImportAll
    requires ProcessSource(sources, opts, env, st, url).error.None?
    ensures var name := ImportName(FileName(url));
            name in env.files && CountryRows(Parse(env.files[name]))
            && ProcessSource(sources, opts, env, st, url).state.session
               == Session(st.session.store.(countries := ImportCountries(st.session.store.countries, Parse(env.files[name]))),
                          st.session.cache)
  {
    ForcedImport(sources, opts, env, st, url);
  }

  /** A forced region source that succeeds from a valid session refreshes the
      stored regions by the records of its file and changes no country or city. */
  lemma RegionStage(sources: Sources, opts: Options, env: Env, st: RunState, url: string)
    requires url in sources.All() && FitsFor(sources, env, url) && Routes(sources, url) == [RegionKind]
    requires opts.forceAll || opts.forceImportAll
    requires SessionValid(st.session)
    requires ProcessSource(sources, opts, env, st, url).error.None?
    ensures var name := ImportName(FileName(url));
            name in env.files
            && var rows := Parse(env.files[name]);
            RegionRows(rows) && (forall i :: 0 <= i < |rows| ==> SplitCode(rows[i][0]).Some?)
            && var out := ProcessSource(sources, opts, env, st, url).state.session.store;
            out.countries == st.session.store.countries && out.cities == st.session.store.cities
            && out.regions == Apply(st.session.store.regions, RegionEntries(rows))
  {
    ForcedImport(sources, opts, env, st, url);
    ImportRegionsComplete(st.session, Parse(env.files[ImportName(FileName(url))]));
  }

  /** A forced city source that succeeds from a valid session had every accepted
      record under a stored country, stores each of them, and changes no country
      or region. */
  lemma CityStage(sources: Sources, opts: Options, env: Env, st: RunState, url: string)
    requires url in sources.All() && FitsFor(sources, env, url) && Routes(sources, url) == [CityKind]
    requires opts.forceAll || opts.forceImportAll
    requires SessionValid(st.session)
    requires ProcessSource(sources, opts, env, st, url).error.None?
    ensures var name := ImportName(FileName(url));
            name in env.files
            && var rows := Parse(env.files[name]);
            CityRows(rows)
            && var out := ProcessSource(sources, opts, env, st, url).state.session.store;
            out.countries == st.session.store.countries && out.regions == st.session.store.regions
            && CountriesKnown(st.session.store.countries, rows, env.receivers)
            && StoresAccepted(out.cities, rows, env.receivers)
  {
    ForcedImport(sources, opts, env, st, url);
    ImportCitiesComplete(st.session, Parse(env.files[ImportName(FileName(url))]), env.receivers, env.normalize);
  }

  /** A first run with one country, one region and one city source, every import
      forced and no error, stores the countries of the country file, the regions of
      the region file on top of those already stored, and every city record the
      receivers accept, each under a known country. */
  lemma ThreeSourceRun(c: string, r: string, z: string, opts: Options, env: Env, store: Store, local: map<string, LocalFile>)
    requires c != r && c != z && r != z
    requires FilesFit(Sources([c], [r], [z]), env) && Valid(store)
    requires opts.forceAll || opts.forceImportAll
    requires Handle(Sources([c], [r], [z]), opts, env, store, local).error.None?
    ensures var (nc, nr, nz) := (ImportName(FileName(c)), ImportName(FileName(r)), ImportName(FileName(z)));
            nc in env.files && nr in env.files && nz in env.files
            && var (countries, regions, cities) := (Parse(env.files[nc]), Parse(env.files[nr]), Parse(env.files[nz]));
            CountryRows(countries) && RegionRows(regions) && CityRows(cities)
            && (forall i :: 0 <= i < |regions| ==> SplitCode(regions[i][0]).Some?)
            && var out := Handle(Sources([c], [r], [z]), opts, env, store, local).state.session.store;
            out.countries == ImportCountries(store.countries, countries)
            && out.regions == Apply(store.regions, RegionEntries(regions))
            && CountriesKnown(out.countries, cities, env.receivers)
            && StoresAccepted(out.cities, cities, env.receivers)
  {
    var st := RunState(Session(store, map[]), local, []);
    ThreeRoutes(c, r, z, opts, env, store, local);
    ThreeStages(Sources([c], [r], [z]), opts, env, st, c, r, z);
  }

  /** The loop over a country, a region and a city source, each forced and none
      failing, from a valid session. */
  lemma ThreeStages(sources: Sources, opts: Options, env: Env, st: RunState, c: string, r: string, z: string)
    requires Within(sources, [c, r, z]) && FilesFit(sources, env) && SessionValid(st.session)
    requires Routes(sources, c) == [CountryKind] && Routes(sources, r) == [RegionKind] && Routes(sources, z) == [CityKind]
    requires opts.forceAll || opts.forceImportAll
    requires RunSources(sources, opts, env, st, [c, r, z]).error.None?
    ensures var (nc, nr, nz) := (ImportName(FileName(c)), ImportName(FileName(r)), ImportName(FileName(z)));
            nc in env.files && nr in env.files && nz in env.files
            && var (countries, regions, cities) := (Parse(env.files[nc]), Parse(env.files[nr]), Parse(env.files[nz]));
            CountryRows(countries) && RegionRows(regions) && CityRows(cities)
            && (forall i :: 0 <= i < |regions| ==> SplitCode(regions[i][0]).Some?)
            && var out := RunSources(sources, opts, env, st, [c, r, z]).state.session.store;
            out.countries == ImportCountries(st.session.store.countries, countries)
            && out.regions == Apply(st.session.store.regions, RegionEntries(regions))
            && CountriesKnown(out.countries, cities, env.receivers)
            && StoresAccepted(out.cities, cities, env.receivers)
  {
    assert c in [c, r, z] && r in [c, r, z] && z in [c, r, z];
    ThreeSteps(sources, opts, env, st, c, r, z);
    var p1 := ProcessSource(sources, opts, env, st, c);
    var p2 := ProcessSource(sources, opts, env, p1.state, r);
    CountryStage(sources, opts, env, st, c);
    RegionStage(sources, opts, env, p1.state, r);
    CityStage(sources, opts, env, p2.state, z);
  }

  /** Three distinct single-URL lists: each URL has its own importer, and `handle`
      is the loop over the three from the given store with an empty cache. */
  lemma ThreeRoutes(c: string, r: string, z: string, opts: Options, env: Env, store: Store, local: map<string, LocalFile>)
    requires c != r && c != z && r != z
    requires FilesFit(Sources([c], [r], [z]), env)
    ensures var sources := Sources([c], [r], [z]);
            sources.All() == [c, r, z] && Within(sources, [c, r, z])
            && Routes(sources, c) == [CountryKind] && Routes(sources, r) == [RegionKind] && Routes(sources, z) == [CityKind]
            && Handle(sources, opts, env, store, local)
               == RunSources(sources, opts, env, RunState(Session(store, map[]), local, []), [c, r, z])
  {
    assert Sources([c], [r], [z]).All() == [c, r, z];
  }

  /** With the default sources: a first run that forces every import and ends
      without error stores the countries of `countryInfo.txt`, the regions of
      `admin1CodesASCII.txt`, and the accepted cities of `cities15000.txt`. */
  lemma DefaultRunStores(opts: Options, env: Env, store: Store, local: map<string, LocalFile>)
    requires FilesFit(Defaults(), env) && Valid(store)
    requires opts.forceAll || opts.forceImportAll
    requires Handle(Defaults(), opts, env, store, local).error.None?
    ensures "countryInfo.txt" in env.files && "admin1CodesASCII.txt" in env.files && "cities15000.txt" in env.files
            && var (countries, regions, cities) :=
                 (Parse(env.files["countryInfo.txt"]), Parse(env.files["admin1CodesASCII.txt"]), Parse(env.files["cities15000.txt"]));
            CountryRows(countries) && RegionRows(regions) && CityRows(cities)
            && (forall i :: 0 <= i < |regions| ==> SplitCode(regions[i][0]).Some?)
            && var out := Handle(Defaults(), opts, env, store, local).state.session.store;
            out.countries == ImportCountries(store.countries, countries)
            && out.regions == Apply(store.regions, RegionEntries(regions))
            && CountriesKnown(out.countries, cities, env.receivers)
            && StoresAccepted(out.cities, cities, env.receivers)
  {
    var d := Defaults();
    DefaultFileNames();
    DefaultCityImportName();
    assert d.countries[0] != d.regions[0] && d.countries[0] != d.cities[0] && d.regions[0] != d.cities[0];
    ThreeSourceRun(d.countries[0], d.regions[0], d.cities[0], opts, env, store, local);
  }

  /** The default sources write distinct files, so `RerunIsNoOp` applies to them. */
  lemma DefaultNamesDistinct()
    ensures DistinctNames(Defaults().All())
  {
    var c, r, z := Defaults().countries[0], Defaults().regions[0], Defaults().cities[0];
    assert Defaults().All() == [c, r, z];
    DefaultFileNames();
    DefaultArchives();
    DefaultCityImportName();
    assert "countryInfo.txt"[1] != "cities15000.txt"[1] && "countryInfo.txt"[1] != "cities15000.zip"[1];
    PlainApart(c, r);
    ArchiveApart(c, z);
    ArchiveApart(r, z);
    ThreeApart(c, r, z);
  }

  /** Two plain files with different names write nothing of each other's. */
  lemma PlainApart(u: string, v: string)
    requires !IsArchive(FileName(u)) && !IsArchive(FileName(v)) && FileName(u) != FileName(v)
    ensures Apart(u, v) && Apart(v, u)
  {
  }

  /** A plain file and an archive write nothing of each other's when the plain
      file is named neither like the archive nor like its entry. */
  lemma ArchiveApart(u: string, z: string)
    requires !IsArchive(FileName(u)) && IsArchive(FileName(z))
    requires FileName(u) != FileName(z) && FileName(u) != ImportName(FileName(z))
    ensures Apart(u, z) && Apart(z, u)
  {
  }

  lemma ThreeApart(a: string, b: string, c: string)
    requires Apart(a, b) && Apart(b, a) && Apart(a, c) && Apart(c, a) && Apart(b, c) && Apart(c, b)
    ensures DistinctNames([a, b, c])
  {
    var urls := [a, b, c];
    forall i, j | 0 <= i < 3 && 0 <= j < 3 && urls[i] != urls[j]
      ensures Apart(urls[i], urls[j])
    {
      assert i == 0 || i == 1 || i == 2;
      assert j == 0 || j == 1 || j == 2;
    }
  }

}
