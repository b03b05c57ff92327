# cities_reduced_fat synchronisation command, modelled in Dafny

This project models the `cities_reduced_fat` management command of
django-cities-reduced-fat. The command keeps a database of countries, regions
and cities in step with the GeoNames dump files. For each source URL of
`SOURCES`, in order, it does the following:

- It downloads the file when the cached copy is stale or the download is
  forced.
- It extracts the `.txt` entry when the file is a zip archive.
- It imports the file, if it was downloaded or its import is forced. The file
  is handed to the city, country or region importer according to the source
  lists the URL belongs to.

The importers work as follows:

- Countries and regions are refreshed in full: the last record for a key wins.
- Cities are filled once: a field is written only while it is unset.
- Before a city record is used, it is offered to the receivers of the
  `city_items_pre_import` signal. A receiver may reject it. The receiver
  `filter_non_cities` is connected by default and keeps only populated places
  (`PPL…` feature codes).

One module per file:

| module | models |
|---|---|
| `Text` | Python's `strip`, `split`, `join`, `split(...)[-1]`, substring `in` and `replace` on strings |
| `Parser` | `parse`: the record stream of a data file |
| `Store` | Country, Region and City, keyed by their natural keys, with the store invariants and the fill-once relation `Keeps` |
| `CountryCache` | `_get_country`: the per-run lazy identity map, a `Session` (store plus cache) and an `Outcome` (session plus fatal error) |
| `Refresh` | the last-wins refresh shared by the country and region importers |
| `Settings` | the three source lists, `SOURCES` and the defaults |
| `Fetcher` | the staleness decision of `download` |
| `Signals` | `city_items_pre_import`, `connect`, `filter_non_cities` and the allow-list receiver from the signal's documentation |
| `Naming` | the download name, the archive test and the extracted name |
| `CountryImport`, `RegionImport`, `CityImport` | the three importers |
| `Command` | one iteration of `handle`'s loop, the loop, and `handle` itself |

The model's inputs:

- The ORM is replaced by maps.
- Each data file is the sequence of its lines.
- The HTTP server is a map from URL to (`last-modified`, `content-length`).
- An archive that opens as a zip file is a map from its entry names to their
  sizes.
- The clock is an integer.
- The Unicode normalisation of search names is a function parameter.

A run returns the final store, the cached copies and a trace with one `Step`
per source handled. The trace says whether the file was downloaded or
extracted, and which importers it was handed to.

The model follows the code as written, also where it does not do what its
authors evidently meant:

- **Blank lines:** the test `len(line) < 1 ... continue` in `parse`
  (cities_reduced_fat.py:141-142) shows that blank lines were meant to be
  skipped. But the `while line` loop (cities_reduced_fat.py:138) tests the
  stripped line before that, so the first line that is empty once stripped
  ends the file, and nothing after it is imported
  (`Parser.ParseStopsAtBlank`).
- **The tld:** the country's tld is `items[9][1:]`, which drops the first
  character whatever it is, not only a leading dot (`CountryImport.Tld`).
- **Extraction errors:** an archive that does not open, or lacks the entry
  named after it, makes `extract` raise. Nothing catches the exception, so it
  ends the whole run and the later sources are not handled. When the entry is
  missing, the destination has already been opened for writing, so an empty
  file is left behind (`Command.ProcessSource`, `Command.ExtractInto`).
- **`--force` and archives:** the help text suggests
  `--force cities15000.txt`. But `--force` is matched against the downloaded
  name, `cities15000.zip`, so that option does not force the download of the
  archive (`Command.ForceByExtractedNameIgnored`).

## Model

| member | source | states |
|---|---|---|
| Text.Strip | cities_reduced_fat/management/commands/cities_reduced_fat.py:139 | `strip()` leaves no whitespace (codes 9 to 13, space) at either end and never lengthens the string |
| Text.TrimLeftIsSuffix | cities_reduced_fat/management/commands/cities_reduced_fat.py:139 | removing leading whitespace keeps a suffix of the string |
| Text.TrimLeftDropsSpace | cities_reduced_fat/management/commands/cities_reduced_fat.py:139 | what is removed at the front is all whitespace |
| Text.TrimRightIsPrefix | cities_reduced_fat/management/commands/cities_reduced_fat.py:139 | removing trailing whitespace keeps a prefix of the string |
| Text.TrimRightDropsSpace | cities_reduced_fat/management/commands/cities_reduced_fat.py:139 | what is removed at the end is all whitespace |
| Text.StripIsInfix | cities_reduced_fat/management/commands/cities_reduced_fat.py:144 | the stripped string is the infix of the input between an all-whitespace prefix and an all-whitespace suffix |
| Text.StripEmptyIff | cities_reduced_fat/management/commands/cities_reduced_fat.py:139-141 | a line strips to nothing exactly when it is all whitespace |
| Text.StripKeepsAbsent | cities_reduced_fat/management/commands/cities_reduced_fat.py:144 | stripping introduces no character, so a tab-free field stays tab-free |
| Text.StripStripped | cities_reduced_fat/management/commands/cities_reduced_fat.py:216 | a string with no surrounding whitespace strips to itself |
| Text.StripIdempotent | cities_reduced_fat/management/commands/cities_reduced_fat.py:216 | stripping twice is stripping once |
| Text.Split | cities_reduced_fat/management/commands/cities_reduced_fat.py:144 | `split(sep)` always yields at least one piece, also for the empty string |
| Text.SplitPiecesFree | cities_reduced_fat/management/commands/cities_reduced_fat.py:144 | no piece of a split holds the separator |
| Text.SplitSingleIff | cities_reduced_fat/management/commands/cities_reduced_fat.py:173 | a string splits into one piece exactly when it has no separator |
| Text.SplitFirst | cities_reduced_fat/management/commands/cities_reduced_fat.py:144 | the first piece is a prefix of the string, non-empty when the string starts with another character |
| Text.JoinSplit | cities_reduced_fat/management/commands/cities_reduced_fat.py:215-219 | joining the pieces of a split with the same separator restores the string |
| Text.SplitJoin | cities_reduced_fat/management/commands/cities_reduced_fat.py:219 | separator-free pieces, joined and split again, come back unchanged |
| Text.SplitNoSeparator | cities_reduced_fat/management/commands/cities_reduced_fat.py:173 | a separator-free string splits into itself alone |
| Text.SplitAround | cities_reduced_fat/management/commands/cities_reduced_fat.py:173 | `(a + sep + b).split(sep)` is the pieces of `a` followed by those of `b` |
| Text.LastSegment | cities_reduced_fat/management/commands/cities_reduced_fat.py:66 | `split(sep)[-1]` holds no separator |
| Text.LastSegmentIsSuffix | cities_reduced_fat/management/commands/cities_reduced_fat.py:66 | `split(sep)[-1]` is the longest separator-free suffix: the whole string or what follows its last separator |
| Text.LastSegmentAfter | cities_reduced_fat/management/commands/cities_reduced_fat.py:74 | after the last separator comes the last segment |
| Text.ContainsIff | cities_reduced_fat/signals.py:39 | `p in s` holds exactly when `p` occurs at some index of `s` |
| Text.ReplaceAllAbsent | cities_reduced_fat/management/commands/cities_reduced_fat.py:77-78 | `replace` leaves a string alone when the pattern's first character never occurs in it |
| Text.ReplaceAllAround | cities_reduced_fat/management/commands/cities_reduced_fat.py:77-78 | no match spans a character the pattern lacks, so `replace` acts independently on either side of it |
| Text.ShortUnchanged | cities_reduced_fat/management/commands/cities_reduced_fat.py:77-78 | a string shorter than the pattern is left alone |
| Parser.Fields | cities_reduced_fat/management/commands/cities_reduced_fat.py:144 | a line yields at least one field; every field is stripped and tab-free |
| Parser.FieldsJoin | cities_reduced_fat/management/commands/cities_reduced_fat.py:144 | stripped, tab-free fields joined by tabs parse back into the same record |
| Parser.FirstFieldStartsLine | cities_reduced_fat/management/commands/cities_reduced_fat.py:141-144 | the first field of a stripped non-empty line starts with the line's first character |
| Parser.Parse | cities_reduced_fat/management/commands/cities_reduced_fat.py:134-144 | a file yields at most one record per line |
| Parser.StopIndex | cities_reduced_fat/management/commands/cities_reduced_fat.py:136-139 | the position of the first line that is empty once stripped, with every line before it non-blank |
| Parser.DropComments | cities_reduced_fat/management/commands/cities_reduced_fat.py:141-142 | the kept lines are lines of the file and none is a comment |
| Parser.FieldsOfEach | cities_reduced_fat/management/commands/cities_reduced_fat.py:144 | record `k` is the fields of stripped line `k` |
| Parser.ParseIsPipeline | cities_reduced_fat/management/commands/cities_reduced_fat.py:134-144 | parsing equals the pipeline: cut at the first blank line, drop the comments, split each line into fields |
| Parser.ParseStep | cities_reduced_fat/management/commands/cities_reduced_fat.py:138-144 | a blank first line ends the file; a comment is skipped; any other line yields its fields, then the rest follows |
| Parser.RecordsAreData | cities_reduced_fat/management/commands/cities_reduced_fat.py:141-144 | every record has a non-empty first field that does not start with `#` |
| Parser.ParseStopsAtBlank | cities_reduced_fat/management/commands/cities_reduced_fat.py:136-139 | nothing after a line that is empty once stripped is parsed |
| Store.CityKeptTransitive | cities_reduced_fat/management/commands/cities_reduced_fat.py:204-231 | the fill-once relation between two versions of a city composes |
| Store.KeepsTransitive | cities_reduced_fat/management/commands/cities_reduced_fat.py:189-234 | "nothing stored disappears, no set city field is overwritten" composes across imports |
| Store.KeepsReflexive | cities_reduced_fat/management/commands/cities_reduced_fat.py:189-234 | a store keeps itself |
| CountryCache.GetCountry | cities_reduced_fat/management/commands/cities_reduced_fat.py:146-156 | a cached code is answered from the cache; otherwise a stored country is returned and cached; an unknown code fails with `DoesNotExist` |
| CountryCache.GetCountryValid | cities_reduced_fat/management/commands/cities_reduced_fat.py:153-156 | from a consistent cache, the country found has the code asked for, and the cache stays consistent |
| CountryCache.GetCountryMemoized | cities_reduced_fat/management/commands/cities_reduced_fat.py:153-156 | once looked up, a code returns the same country again, whatever the store holds later |
| CountryCache.CacheValidGrows | cities_reduced_fat/management/commands/cities_reduced_fat.py:146-169 | a consistent cache stays consistent while the country importer adds countries |
| Refresh.Apply | cities_reduced_fat/management/commands/cities_reduced_fat.py:158-180 | a refresh never removes a key |
| Refresh.ApplyLastWins | cities_reduced_fat/management/commands/cities_reduced_fat.py:159-169 | the keys after a refresh are the old ones plus those mentioned; a mentioned key holds its last entry; any other key is untouched |
| Refresh.ApplyIdempotent | cities_reduced_fat/management/commands/cities_reduced_fat.py:158-169 | applying the same entries twice equals applying them once |
| Refresh.ApplyPreserves | cities_reduced_fat/management/commands/cities_reduced_fat.py:158-180 | a property of every old binding and of every entry holds of every binding after the refresh |
| Settings.SourcesOrder | cities_reduced_fat/settings.py:34 | `SOURCES` lists each kind's sources in their own order, all countries before all regions before all cities |
| Settings.Sources.All | cities_reduced_fat/settings.py:34 | `SOURCES` has one position per entry of the three lists, duplicates kept, and holds exactly the URLs of the three lists |
| Fetcher.NeedsDownload | cities_reduced_fat/management/commands/cities_reduced_fat.py:104-112 | no download exactly when not forced and the local copy exists, is at least as new and has the remote size |
| Fetcher.Download | cities_reduced_fat/management/commands/cities_reduced_fat.py:98-121 | returns whether it fetched; a fetch leaves a copy of the remote size stamped now; otherwise the copy is unchanged and up to date |
| Fetcher.DownloadLeavesUpToDate | cities_reduced_fat/management/commands/cities_reduced_fat.py:104-121 | with the clock not behind the server, the copy is up to date afterwards |
| Fetcher.SecondDownloadIsNoOp | cities_reduced_fat/management/commands/cities_reduced_fat.py:104-112 | an unforced second download of an unchanged source fetches nothing |
| Fetcher.StaleCopyIsFetched | cities_reduced_fat/management/commands/cities_reduced_fat.py:108-114 | a copy older than the server's is fetched even unforced |
| Signals.FirstRejecting | cities_reduced_fat/signals.py:4-7 | receivers run in order up to the first that raises; `None` means no receiver raises |
| Signals.RejectsIff | cities_reduced_fat/signals.py:4-7 | a record is skipped exactly when some receiver raises |
| Signals.ConnectRejects | cities_reduced_fat/signals.py:9-18 | after connecting a receiver, a record is skipped exactly when it or an earlier receiver rejects it |
| Signals.FilterNonCities | cities_reduced_fat/signals.py:38-40 | `filter_non_cities` raises exactly when `PPL` occurs nowhere in `items[7]` |
| Signals.DefaultFilter | cities_reduced_fat/signals.py:38-41 | the default receiver decides as `filter_non_cities` on every record with a feature code |
| Signals.FilterReadsFeatureCode | cities_reduced_fat/signals.py:39 | the filter's decision depends only on `items[7]` |
| Signals.PopulatedPlaceKept | cities_reduced_fat/signals.py:23-26 | every feature code starting with `PPL` is kept |
| Signals.NonPlaceSkipped | cities_reduced_fat/signals.py:38-40 | a feature code without `P` is skipped |
| Signals.AllowListRejects | cities_reduced_fat/signals.py:9-18 | with the documented allow-list connected, a record is skipped exactly when it is not a populated place or its country is not allowed |
| Naming.FileName | cities_reduced_fat/management/commands/cities_reduced_fat.py:66 | the download name is a `/`-free suffix of the URL: all of it, or what follows its last `/` |
| Naming.IsArchive | cities_reduced_fat/management/commands/cities_reduced_fat.py:74 | a name is an archive exactly when it is `zip` or ends in `.zip` |
| Naming.ImportName | cities_reduced_fat/management/commands/cities_reduced_fat.py:74-78 | an archive is imported from a name whose last `.`-segment is `txt`, so never from an archive; any other file is imported as it was downloaded |
| Naming.ArchiveRenamed | cities_reduced_fat/management/commands/cities_reduced_fat.py:74-78 | `stem.zip` is an archive, imported from the stem with `zip` replaced, plus `.txt` |
| Naming.PlainArchiveRenamed | cities_reduced_fat/management/commands/cities_reduced_fat.py:77-78 | an archive whose stem has no `z` is imported from `stem.txt` |
| Naming.ZipInStemIsRenamed | cities_reduced_fat/management/commands/cities_reduced_fat.py:77-78 | the replacement is global: `zip` inside the stem becomes `txt` too |
| Naming.DefaultFileNames | cities_reduced_fat/settings.py:27-32 | the default sources are saved as `countryInfo.txt`, `admin1CodesASCII.txt` and `cities15000.zip` |
| Naming.DumpFileName | cities_reduced_fat/management/commands/cities_reduced_fat.py:66 | a file of the dump directory is saved under its own name |
| Naming.DefaultArchives | cities_reduced_fat/management/commands/cities_reduced_fat.py:74 | of the default files only the city file is an archive |
| Naming.DefaultCityImportName | cities_reduced_fat/management/commands/cities_reduced_fat.py:74-78 | the default city archive is imported from `cities15000.txt`; the country and region files are imported as downloaded |
| CountryImport.Tld | cities_reduced_fat/management/commands/cities_reduced_fat.py:168 | the tld is the field without its first character; an empty field gives an empty tld |
| CountryImport.TldDropsDot | cities_reduced_fat/management/commands/cities_reduced_fat.py:168 | `.fr` is stored as `fr` |
| CountryImport.CountryOf | cities_reduced_fat/management/commands/cities_reduced_fat.py:161-168 | the country a record stores has the record's code |
| CountryImport.CountryEntries | cities_reduced_fat/management/commands/cities_reduced_fat.py:159-168 | one entry per record, in order, keyed and coded by `items[0]` |
| CountryImport.ImportCountries | cities_reduced_fat/management/commands/cities_reduced_fat.py:158-169 | no country disappears |
| CountryImport.ImportCountriesLastWins | cities_reduced_fat/management/commands/cities_reduced_fat.py:158-169 | a code holds the country of the last record naming it |
| CountryImport.ImportCountriesKeys | cities_reduced_fat/management/commands/cities_reduced_fat.py:158-169 | the stored codes are the old ones plus those named; an unnamed code keeps its country |
| CountryImport.ImportCountriesValid | cities_reduced_fat/management/commands/cities_reduced_fat.py:161-169 | every country stays stored under its own code |
| CountryImport.ImportCountriesIdempotent | cities_reduced_fat/management/commands/cities_reduced_fat.py:158-169 | importing a file twice equals importing it once |
| CountryImport.ImportCountryFile | cities_reduced_fat/management/commands/cities_reduced_fat.py:158-169 | only countries change; a valid store stays valid and nothing stored is lost |
| RegionImport.SplitCode | cities_reduced_fat/management/commands/cities_reduced_fat.py:173 | a key without a dot cannot be unpacked |
| RegionImport.SplitCodeParts | cities_reduced_fat/management/commands/cities_reduced_fat.py:173 | unpacked parts are dot-free and join back into the key with one dot |
| RegionImport.SplitCodeJoin | cities_reduced_fat/management/commands/cities_reduced_fat.py:173 | two dot-free parts joined by a dot unpack into themselves |
| RegionImport.SplitCodeTwoDots | cities_reduced_fat/management/commands/cities_reduced_fat.py:173 | a key with two dots raises `ValueError` |
| RegionImport.RegionEntry | cities_reduced_fat/management/commands/cities_reduced_fat.py:173-179 | the region is stored under its own (country, code) key, with name `items[2]` |
| RegionImport.ImportRegionRow | cities_reduced_fat/management/commands/cities_reduced_fat.py:172-180 | a record fails exactly when its key does not unpack or its country is neither cached nor stored; otherwise it stores its region, and nothing else changes |
| RegionImport.ImportRegions | cities_reduced_fat/management/commands/cities_reduced_fat.py:171-180 | countries and cities are untouched, no region disappears, a valid session stays valid |
| RegionImport.Resolved | cities_reduced_fat/management/commands/cities_reduced_fat.py:172-174 | the length of the leading run of records whose key unpacks to a stored country |
| RegionImport.StoredRegionsAll | cities_reduced_fat/management/commands/cities_reduced_fat.py:171-180 | when every record resolves, storing them one by one is the last-wins refresh by their entries |
| RegionImport.ImportRegionsResult | cities_reduced_fat/management/commands/cities_reduced_fat.py:171-180 | the regions of the leading resolving records are stored; the import fails exactly when a record does not resolve, with that first record's error |
| RegionImport.ImportRegionsComplete | cities_reduced_fat/management/commands/cities_reduced_fat.py:171-180 | after an error-free import every key unpacked to a stored country, and the regions are the last-wins refresh by all records |
| RegionImport.ImportRegionsIdempotent | cities_reduced_fat/management/commands/cities_reduced_fat.py:171-180 | importing a region file again after an error-free import changes nothing |
| CityImport.CleanSegments | cities_reduced_fat/management/commands/cities_reduced_fat.py:214-218 | the kept search names are non-empty and stripped |
| CityImport.CleanSegmentsCommaFree | cities_reduced_fat/management/commands/cities_reduced_fat.py:215-219 | cleaning comma-free segments keeps them comma-free |
| CityImport.CleanSegmentsOfClean | cities_reduced_fat/management/commands/cities_reduced_fat.py:214-218 | segments already non-empty and stripped are all kept, unchanged |
| CityImport.CleanNamesIdempotent | cities_reduced_fat/management/commands/cities_reduced_fat.py:214-219 | cleaning the stored value again changes nothing |
| CityImport.CleanSegmentsEmptyIff | cities_reduced_fat/management/commands/cities_reduced_fat.py:216-218 | no segment is kept exactly when every segment is whitespace |
| CityImport.CleanNames | cities_reduced_fat/management/commands/cities_reduced_fat.py:212-221 | the search names are empty, and so left unset, exactly when every comma-separated segment is blank; otherwise they split back on commas into exactly the stripped non-empty segments of the input |
| CityImport.CleanNamesPair | cities_reduced_fat/management/commands/cities_reduced_fat.py:213-219 | `a, b` is stored as `a,b` |
| CityImport.NewCity | cities_reduced_fat/management/commands/cities_reduced_fat.py:201-202 | a new city has the looked-up key and every other field unset |
| CityImport.FillCity | cities_reduced_fat/management/commands/cities_reduced_fat.py:204-234 | each unset field takes the record's value and set fields stay; with an unset geoname id the region becomes the region (country, `items[10]`) exactly when it exists, and otherwise stays; the city is saved exactly when some field was written |
| CityImport.FillCityIdempotent | cities_reduced_fat/management/commands/cities_reduced_fat.py:204-234 | the same record applied again changes nothing, and saves nothing when its id and coordinates are non-empty |
| CityImport.FillCityRegionOk | cities_reduced_fat/management/commands/cities_reduced_fat.py:224-230 | a filled city's region is a stored region of its own country |
| CityImport.ImportCityRow | cities_reduced_fat/management/commands/cities_reduced_fat.py:190-234 | a rejected record changes nothing; an accepted record fails exactly when its country is unknown; otherwise only cities change, and fill-once |
| CityImport.ImportCityRowStores | cities_reduced_fat/management/commands/cities_reduced_fat.py:196-234 | an accepted record leaves the session valid and stores under (`items[1]`, `items[8]`) the stored or new city as `FillCity` fills it from the record; no other city changes |
| CityImport.ImportCities | cities_reduced_fat/management/commands/cities_reduced_fat.py:189-234 | countries and regions are untouched, and no set city field is overwritten |
| CityImport.ImportCitiesValid | cities_reduced_fat/management/commands/cities_reduced_fat.py:189-234 | a city import keeps a valid session valid |
| CityImport.ImportCitiesComplete | cities_reduced_fat/management/commands/cities_reduced_fat.py:189-234 | the import ends without error exactly when every accepted record names a stored country, and then every accepted record has its city stored |
| CityImport.Accepted | cities_reduced_fat/management/commands/cities_reduced_fat.py:191-194 | the records the receivers let through, each taken from the file |
| CityImport.SkippedRecordsIgnored | cities_reduced_fat/management/commands/cities_reduced_fat.py:191-194 | importing a file is importing only the records the receivers accept |
| Command.Routes | cities_reduced_fat/management/commands/cities_reduced_fat.py:91-96 | city sources go to the city importer, other country sources to the country importer, region sources to the region importer; a URL of `SOURCES` gets at least one and at most two, and the region importer comes last |
| Command.ImportKind | cities_reduced_fat/management/commands/cities_reduced_fat.py:91-96 | the country importer never fails, keeps the cache and replaces the stored countries by `country_import` of the records; the region and city importers are `region_import` and `city_import` of the records, with the receivers and the name normaliser; any importer keeps what is stored and keeps a valid session valid |
| Command.ImportRoutes | cities_reduced_fat/management/commands/cities_reduced_fat.py:91-96 | chaining the importers of a URL keeps what is stored and keeps a valid session valid; a single importer is that importer |
| Command.ImportRoutesAppend | cities_reduced_fat/management/commands/cities_reduced_fat.py:91-96 | the importers of a URL run in order and the first error stops the chain: the later importers do not run |
| Command.RoutedImport | cities_reduced_fat/management/commands/cities_reduced_fat.py:91-96 | a city source is imported by `city_import` and never changes the countries; any other country source by `country_import`; a region source by `region_import`, after the other import and only if it succeeded |
| Command.ImportFile | cities_reduced_fat/management/commands/cities_reduced_fat.py:88-96 | no importer means no change; a missing file fails when there is one; otherwise the file is parsed and handed to the importers in order |
| Command.PlanStep | cities_reduced_fat/management/commands/cities_reduced_fat.py:65-96 | the step for a source meets the promise of `handle` for one source |
| Command.ExtractInto | cities_reduced_fat/management/commands/cities_reduced_fat.py:74-80 | `extract` writes only the import name of an archive that opens: a copy stamped now, as large as the entry, or empty when the entry is missing; every other file stays |
| Command.WrittenFiles | cities_reduced_fat/management/commands/cities_reduced_fat.py:66-83 | after one iteration the download name holds what `download` left, the files the source does not write are as they were, and no other file appears |
| Command.ProcessSource | cities_reduced_fat/management/commands/cities_reduced_fat.py:65-96 | an unserved URL is a network error; the data directory becomes what `download` and `extract` leave; an archive without its entry is an extraction error that changes no data; otherwise the iteration ends with the session and error of importing the planned file; a successful step is recorded with its download decision and meets the promise of `handle` |
| Command.ProcessSourceImports | cities_reduced_fat/management/commands/cities_reduced_fat.py:85-96 | a source that was downloaded or whose import is forced fails on a missing file without changing data, and otherwise ends with the session and error of its importers over the parsed file |
| Command.ProcessSourceSkipsImport | cities_reduced_fat/management/commands/cities_reduced_fat.py:85-90 | a source neither downloaded nor forced to import leaves the data alone and can only fail to extract |
| Command.ForcedImport | cities_reduced_fat/management/commands/cities_reduced_fat.py:85-96 | under `--force-all` or `--force-import-all`, a source that succeeds had its file and ends with the session its importers produced without error |
| Command.RunSources | cities_reduced_fat/management/commands/cities_reduced_fat.py:65-96 | the trace extends the old one with one step per handled URL, in order; the loop succeeds exactly when it handled all URLs |
| Command.RunSourcesAppend | cities_reduced_fat/management/commands/cities_reduced_fat.py:65-96 | the loop over two lists of URLs is the loop over the first, then, unless it failed, the loop over the second from where it stopped |
| Command.FailedSourceEndsRun | cities_reduced_fat/management/commands/cities_reduced_fat.py:65-96 | a source that fails after the earlier ones succeeded ends the run with its own error and leaves the later sources unhandled |
| Command.FailedFirst | cities_reduced_fat/management/commands/cities_reduced_fat.py:65-96 | a loop whose first source fails ends with that failure |
| Command.FirstStep | cities_reduced_fat/management/commands/cities_reduced_fat.py:65-96 | a loop that ends without error ran its first source without error and went on from where it left off |
| Command.RunSourcesKeeps | cities_reduced_fat/management/commands/cities_reduced_fat.py:65-96 | the loop keeps what is stored and keeps a valid session valid |
| Command.Handle | cities_reduced_fat/management/commands/cities_reduced_fat.py:60-96 | a run keeps what is stored and keeps a valid store valid; its trace handles `SOURCES` in order; it succeeds exactly when it handled every source |
| Command.ForceByExtractedNameIgnored | cities_reduced_fat/management/commands/cities_reduced_fat.py:70-86 | `--force` with the extracted name of an archive downloads it only when the cached archive is stale |
| Command.ForceAllImportsEverything | cities_reduced_fat/management/commands/cities_reduced_fat.py:70-96 | with `--force-all` every handled source is downloaded and imported by all its importers |
| Command.RunKeepsOtherCopies | cities_reduced_fat/management/commands/cities_reduced_fat.py:65-83 | a cached file no source downloads or extracts into is left alone |
| Command.FirstSettled | cities_reduced_fat/management/commands/cities_reduced_fat.py:70-83 | with the clock not behind the server, a source handled without error has an up-to-date copy after |
| Command.RunSettles | cities_reduced_fat/management/commands/cities_reduced_fat.py:65-121 | an error-free run in which no two sources write the same file, with a clock not behind the server, leaves every source up to date |
| Command.QuietStep | cities_reduced_fat/management/commands/cities_reduced_fat.py:70-112 | an up-to-date source handled without options is neither downloaded nor imported, keeps the session, and only extracts its archive again |
| Command.QuietRunIsNoOp | cities_reduced_fat/management/commands/cities_reduced_fat.py:65-112 | from up-to-date sources that write distinct files, a run without options downloads and imports nothing, keeps the session, and changes the data directory only by extracting every archive again |
| Command.Reextract | cities_reduced_fat/management/commands/cities_reduced_fat.py:74-80 | extracting every archive again changes only the files archives are extracted into, and adds no other file |
| Command.ReextractStamps | cities_reduced_fat/management/commands/cities_reduced_fat.py:74-80 | when no two sources write the same file, each archive that opens ends with a fresh copy of its entry |
| Command.QuietHandle | cities_reduced_fat/management/commands/cities_reduced_fat.py:60-112 | `handle` without options over settled sources downloads and imports nothing, keeps the store and only extracts every archive again |
| Command.RerunIsNoOp | cities_reduced_fat/management/commands/cities_reduced_fat.py:60-132 | a second run without options, at any time after an error-free run, downloads and imports nothing, keeps the store, and changes the data directory only by extracting every archive again |
| Command.DefaultRoutes | cities_reduced_fat/management/commands/cities_reduced_fat.py:91-96 | with the default sources, the country, region and city files each go to their own importer |
| Command.ThreeSteps | cities_reduced_fat/management/commands/cities_reduced_fat.py:65-96 | an error-free loop over three sources is their three iterations, none failing |
| Command.CountryStage | cities_reduced_fat/management/commands/cities_reduced_fat.py:85-96 | a forced country source that succeeds replaces the stored countries by `country_import` of its file and keeps the cache, regions and cities |
| Command.RegionStage | cities_reduced_fat/management/commands/cities_reduced_fat.py:85-96 | a forced region source that succeeds from a valid session had only well-formed codes and refreshes the stored regions by its records, keeping countries and cities |
| Command.CityStage | cities_reduced_fat/management/commands/cities_reduced_fat.py:85-96 | a forced city source that succeeds from a valid session had every accepted record under a stored country and stores each such record, keeping countries and regions |
| Command.ThreeStages | cities_reduced_fat/management/commands/cities_reduced_fat.py:65-96 | an error-free forced loop over a country, a region and a city source stores the imported countries, the refreshed regions and every accepted city |
| Command.ThreeRoutes | cities_reduced_fat/management/commands/cities_reduced_fat.py:60-96 | three distinct single-URL lists route each URL to its own importer, and `handle` is the loop over them from the store and an empty cache |
| Command.ThreeSourceRun | cities_reduced_fat/management/commands/cities_reduced_fat.py:60-96 | a first run with one source per list, every import forced and no error, stores the countries of the country file, the region refresh by the region file, and every accepted city of the city file under a known country |
| Command.DefaultRunStores | cities_reduced_fat/management/commands/cities_reduced_fat.py:60-96 | with the default sources, such a run stores the countries of `countryInfo.txt`, the region refresh by `admin1CodesASCII.txt`, and every accepted record of `cities15000.txt` |
| Command.DefaultNamesDistinct | cities_reduced_fat/settings.py:27-34 | the default sources write distinct files: no two share a download name, and `cities15000.txt` is none of them |

## Left out

- The network is left out. `urlopen`, the header parsing and the chunked copy
  loop are replaced by `Env.remote`. An unserved URL is the `NetworkError`
  outcome; partial downloads are not modelled.
- The data directory is left out: `DATA_DIR`, its creation and path joining.
  Cached copies are keyed by file name.
- The zip library is left out. An archive that opens is the map from its
  entry names to their sizes; one that does not open is absent from
  `Env.archives`. Extraction writes a copy with the entry's size, stamped with
  the run's clock; the bytes of the entry are not modelled, and the lines an
  import reads are given by `Env.files`.
- File reading is left out: each file's lines at import time are an input. A
  file that cannot be opened is the `MissingFile` outcome.
- Unicode handling is left out: `force_unicode`, NFKD normalisation and the
  ASCII encoding of search names. They form the parameter `normalize`.
  Stripping uses the Python 2 byte-string whitespace (codes 9 to 13 and
  space).
- The Django ORM is left out. Each table is a map keyed by its natural key, so
  `MultipleObjectsReturned` cannot occur. `save()` is a map update, and the
  database's type conversion of latitude and longitude is not modelled: the
  raw field string is stored.
- Django's signal machinery is left out: connection deduplication, weak
  references, the `sender` argument, and exceptions other than
  `InvalidItems`. A receiver is modelled by its decision.
- Logging, the admin, the contrib widgets, the exceptions module and
  `setup.py` are left out.
- Timestamps are whole seconds. Comparing `struct_time` values is
  chronological at that resolution.
- Overriding the source lists through Django settings is modelled by passing
  `Sources` as a parameter; `Settings.Defaults` holds the defaults.
- `models.py` is not part of this model. The entity fields are those the
  command reads and writes.
- CountryImport.ImportCountries: requires every record to have at least ten
  fields. The code raises `IndexError` on a shorter record, and that crash is
  not modelled.
- RegionImport.ImportRegions: requires every record to have at least three
  fields, for the same reason.
- CityImport.ImportCities: requires every record to have at least eleven
  fields, which is stronger than the code. The code reads only `items[7]` of
  a record a receiver rejects, and reads `items[10]` only when the city's
  geoname id is unset. So a shorter record that the code imports, or skips,
  without `IndexError` is outside the model.
- Command.Handle: requires every data file to have the fields its importers
  read (`FilesFit`), for the same reasons, and for city files as strongly as
  `CityImport.ImportCities`.
- Signals.DefaultFilter: accepts a record with fewer than eight fields, which
  the code's `filter_non_cities` would fail on with `IndexError`. City
  records shorter than eleven fields are excluded anyway.
