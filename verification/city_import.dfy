/**
 `Command.city_import`: each record is first offered to the receivers of
 `city_items_pre_import`; a rejected record is skipped before anything is looked
 up. Otherwise the country `items[8]` is resolved through the run's country
 cache, the City under (`items[1]`, country) is looked up or created, and each of
 latitude, longitude, search names and geoname id is written only while it is
 unset (falsy). The region is resolved only together with a geoname id that was
 unset, and the city is saved only when some field was written.
 */
module CityImport {
  import opened Wrappers
  import opened Errors
  import opened Text
  import opened Parser
  import opened Store
  import opened CountryCache
  import opened Signals

  /** The fields `city_import` may read: up to `items[10]`. */
  predicate CityRow(items: Record) {
    |items| >= 11
  }

  predicate CityRows(rows: seq<Record>) {
    forall i :: 0 <= i < |rows| ==> CityRow(rows[i])
  }

  /** The stripped, non-empty segments of `parts`, in order. */
  function CleanSegments(parts: seq<string>): (r: seq<string>)
    ensures |r| <= |parts|
    ensures forall k :: 0 <= k < |r| ==> |r[k]| > 0 && IsStripped(r[k])
  {
    if |parts| == 0 then []
    else
      var t := Strip(parts[0]);
      (if |t| > 0 then [t] else []) + CleanSegments(parts[1..])
  }

  /** The search names stored for a normalized name list: split on commas, each part
      stripped, the empty ones dropped, joined with commas again. They are empty, and
      so left unset, exactly when every segment is blank; otherwise they split back
      on commas into exactly the clean segments of the input. */
  function CleanNames(names: string): (stored: string)
    ensures stored == "" <==> AllBlank(Split(names, ','))
    ensures stored != "" ==> Split(stored, ',') == CleanSegments(Split(names, ','))
  {
    SplitPiecesFree(names, ',');
    CleanJoin(Split(names, ','));
    Join(CleanSegments(Split(names, ',')), ',')
  }

  /** Joining the clean segments of comma-free parts gives the empty string exactly
      when every part is blank, and a string that splits back into those segments
      otherwise. */
  lemma CleanJoin(parts: seq<string>)
    requires CommaFree(parts)
    ensures var joined := Join(CleanSegments(parts), ',');
            (joined == "" <==> AllBlank(parts))
            && (joined != "" ==> Split(joined, ',') == CleanSegments(parts))
  {
    var clean := CleanSegments(parts);
    CleanSegmentsEmptyIff(parts);
    CleanSegmentsCommaFree(parts);
    if |clean| == 1 {
      assert Join(clean, ',') == clean[0];
    } else if |clean| > 1 {
      assert Join(clean, ',') == clean[0] + [','] + Join(clean[1..], ',');
    }
    if |clean| > 0 {
      SplitJoin(clean, ',');
    }
  }

  /** No segment of `parts` contains a comma. */
  predicate CommaFree(parts: seq<string>) {
    forall k :: 0 <= k < |parts| ==> ',' !in parts[k]
  }

  lemma {:induction false} CleanSegmentsCommaFree(parts: seq<string>)
    requires CommaFree(parts)
    ensures CommaFree(CleanSegments(parts))
    decreases |parts|
  {
    if |parts| > 0 {
      StripKeepsAbsent(parts[0], ',');
      CleanSegmentsCommaFree(parts[1..]);
    }
  }

  /** Segments that are already clean are kept as they are. */
  lemma {:induction false} CleanSegmentsOfClean(parts: seq<string>)
    requires forall k :: 0 <= k < |parts| ==> |parts[k]| > 0 && IsStripped(parts[k])
    ensures CleanSegments(parts) == parts
    decreases |parts|
  {
    if |parts| > 0 {
      var rest := parts[1..];
      StripStripped(parts[0]);
      assert forall k :: 0 <= k < |rest| ==> rest[k] == parts[k + 1];
      CleanSegmentsOfClean(rest);
      assert CleanSegments(parts) == [parts[0]] + CleanSegments(rest);
      assert parts == [parts[0]] + rest;
    }
  }

  /** Cleaning is idempotent: the stored value cleans to itself. */
  lemma CleanNamesIdempotent(names: string)
    ensures CleanNames(CleanNames(names)) == CleanNames(names)
  {
    var clean := CleanNames(names);
    if clean != "" {
      CleanSegmentsOfClean(CleanSegments(Split(names, ',')));
    } else {
      assert Split("", ',') == [""];
      assert CleanSegments([""]) == [] by {
        assert Strip("") == "";
        assert [""][1..] == [];
      }
    }
  }

  /** Every segment is whitespace only. */
  predicate AllBlank(parts: seq<string>) {
    forall k :: 0 <= k < |parts| ==> AllSpace(parts[k])
  }

  /** No clean segment remains exactly when every segment is blank. */
  lemma {:induction false} CleanSegmentsEmptyIff(parts: seq<string>)
    ensures CleanSegments(parts) == [] <==> AllBlank(parts)
    decreases |parts|
  {
    if |parts| > 0 {
      StripEmptyIff(parts[0]);
      CleanSegmentsEmptyIff(parts[1..]);
      assert forall k :: 1 <= k < |parts| ==> parts[k] == parts[1..][k - 1];
    }
  }

  /** `"Cordoba, Cordova"` is stored as `"Cordoba,Cordova"`: the space after the comma
      goes. */
  lemma CleanNamesPair(a: string, b: string)
    requires |a| > 0 && IsStripped(a) && ',' !in a
    requires |b| > 0 && IsStripped(b) && ',' !in b
    ensures CleanNames(a + ", " + b) == a + "," + b
  {
    assert a + ", " + b == a + [','] + (" " + b);
    SplitAround(a, ',', " " + b);
    assert ',' !in " " + b;
    SplitNoSeparator(a, ',');
    SplitNoSeparator(" " + b, ',');
    StripStripped(a);
    PaddedStrip(b);
    assert CleanSegments([a, " " + b]) == [a, b] by {
      assert [a, " " + b][1..] == [" " + b];
      assert CleanSegments([" " + b]) == [b] by {
        assert [" " + b][1..] == [];
      }
    }
    assert Join([a, b], ',') == a + [','] + b by {
      assert [a, b][1..] == [b];
    }
  }

  /** A leading space is stripped off a stripped, non-empty string. */
  lemma PaddedStrip(b: string)
    requires |b| > 0 && IsStripped(b)
    ensures Strip(" " + b) == b
  {
    assert (" " + b)[1..] == b;
    assert TrimLeft(" " + b) == TrimLeft(b) == b;
  }

  /** A new `City(name=..., country=...)`: every other field unset. */
  function NewCity(name: string, country: string): (c: City)
    ensures c.Key() == CityKey(name, country)
    ensures !Truthy(c.latitude) && !Truthy(c.longitude) && !Truthy(c.searchNames) && !Truthy(c.geonameId)
    ensures c.region.None?
  {
    City(name, country, Null, Null, Null, Null, None)
  }

  /** A city after one record, and whether it is saved. */
  datatype Filled = Filled(city: City, save: bool)

  /** The fill-once rules of `city_import` for one record and one city. */
  function FillCity(city: City, items: Record, regions: map<RegionKey, Region>, normalize: string -> string): (r: Filled)
    requires CityRow(items)
    ensures CityKept(city, r.city)
    ensures !Truthy(city.latitude) ==> r.city.latitude == Str(items[4])
    ensures !Truthy(city.longitude) ==> r.city.longitude == Str(items[5])
    ensures !Truthy(city.geonameId) ==> r.city.geonameId == Str(items[0])
    ensures !Truthy(city.searchNames) ==>
              r.city.searchNames == (var names := CleanNames(normalize(items[3]));
                                     if names == "" then city.searchNames else Str(names))
    ensures r.city.region != city.region ==>
              !Truthy(city.geonameId) && r.city.region == Some(RegionKey(city.country, items[10]))
              && RegionKey(city.country, items[10]) in regions
    ensures !Truthy(city.geonameId) && RegionKey(city.country, items[10]) in regions ==>
              r.city.region == Some(RegionKey(city.country, items[10]))
    ensures r.save <==> !Truthy(city.latitude) || !Truthy(city.longitude) || !Truthy(city.geonameId)
                        || (!Truthy(city.searchNames) && CleanNames(normalize(items[3])) != "")
    ensures !r.save ==> r.city == city
  {
    var latitude := if Truthy(city.latitude) then city.latitude else Str(items[4]);
    var longitude := if Truthy(city.longitude) then city.longitude else Str(items[5]);
    var names := CleanNames(normalize(items[3]));
    var searchNames := if Truthy(city.searchNames) || names == "" then city.searchNames else Str(names);
    var key := RegionKey(city.country, items[10]);
    var geonameId := if Truthy(city.geonameId) then city.geonameId else Str(items[0]);
    var region := if Truthy(city.geonameId) || key !in regions then city.region else Some(key);
    var save := !Truthy(city.latitude) || !Truthy(city.longitude)
                || (!Truthy(city.searchNames) && names != "") || !Truthy(city.geonameId);
    Filled(City(city.name, city.country, latitude, longitude, searchNames, geonameId, region), save)
  }

  /** Applying the same record twice leaves the city as the first application did;
      the second saves nothing when the record's id and coordinates are non-empty. */
  lemma FillCityIdempotent(city: City, items: Record, regions: map<RegionKey, Region>, normalize: string -> string)
    requires CityRow(items)
    ensures var once := FillCity(city, items, regions, normalize);
            var twice := FillCity(once.city, items, regions, normalize);
            twice.city == once.city
            && (|items[0]| > 0 && |items[4]| > 0 && |items[5]| > 0 ==> !twice.save)
  {
  }

  /** A city the import fills keeps a region of its own country that exists. */
  lemma FillCityRegionOk(s: Store, city: City, items: Record, normalize: string -> string)
    requires CityRow(items) && RegionOk(s, city)
    ensures RegionOk(s, FillCity(city, items, s.regions, normalize).city)
  {
  }

  /** One record. A rejected record changes nothing, not even the country cache. */
  function ImportCityRow(s: Session, items: Record, receivers: seq<Receiver>, normalize: string -> string): (r: Result<Session, ImportError>)
    requires CityRow(items)
    ensures Rejects(receivers, items) ==> r == Success(s)
    ensures r.Failure? <==> !Rejects(receivers, items) && items[8] !in s.cache && items[8] !in s.store.countries
    ensures r.Failure? ==> r.error == CountryNotFound(items[8])
    ensures r.Success? ==> r.value.store.countries == s.store.countries && r.value.store.regions == s.store.regions
    ensures r.Success? ==> Keeps(s.store, r.value.store)
  {
    if Rejects(receivers, items) then Success(s)
    else
      var found :- GetCountry(s.cache, s.store.countries, items[8]);
      var key := CityKey(items[1], found.country.code2);
      var city := if key in s.store.cities then s.store.cities[key] else NewCity(items[1], found.country.code2);
      var filled := FillCity(city, items, s.store.regions, normalize);
      var store := if filled.save then s.store.(cities := s.store.cities[key := filled.city]) else s.store;
      Success(Session(store, found.cache))
  }

  /** An accepted record from a valid session stores its city under (`items[1]`,
      `items[8]`) and keeps the session valid. */
  lemma ImportCityRowStores(s: Session, items: Record, receivers: seq<Receiver>, normalize: string -> string)
    requires CityRow(items) && SessionValid(s)
    ensures var r := ImportCityRow(s, items, receivers, normalize);
            r.Success? ==> SessionValid(r.value)
    ensures var r := ImportCityRow(s, items, receivers, normalize);
            r.Success? && !Rejects(receivers, items) ==> CityKey(items[1], items[8]) in r.value.store.cities
    ensures var r := ImportCityRow(s, items, receivers, normalize);
            r.Success? && !Rejects(receivers, items) ==>
              r.value.store.cities == s.store.cities[CityKey(items[1], items[8]) :=
                                       FillCity(Reconciled(s.store.cities, items), items, s.store.regions, normalize).city]
  {
    var r := ImportCityRow(s, items, receivers, normalize);
    if r.Success? && !Rejects(receivers, items) {
      var found := GetCountry(s.cache, s.store.countries, items[8]).value;
      GetCountryValid(s.cache, s.store.countries, items[8]);
      var key := CityKey(items[1], found.country.code2);
      var city := if key in s.store.cities then s.store.cities[key] else NewCity(items[1], found.country.code2);
      var filled := FillCity(city, items, s.store.regions, normalize);
      assert RegionOk(s.store, city);
      FillCityRegionOk(s.store, city, items, normalize);
      StoreCityValid(s.store, key, city, filled);
      assert r.value == Session(if filled.save then s.store.(cities := s.store.cities[key := filled.city]) else s.store, found.cache);
      if !filled.save {
        assert s.store.cities[key := filled.city] == s.store.cities;
      }
    }
  }

  /** The city a record is reconciled with: the one stored under its name and
      country code, or a new one. */
  function Reconciled(cities: map<CityKey, City>, items: Record): City
    requires CityRow(items)
  {
    var key := CityKey(items[1], items[8]);
    if key in cities then cities[key] else NewCity(items[1], items[8])
  }

  /** Saving a city filled from a stored or new city of a stored country keeps the
      store valid, and the city is stored afterwards. */
  lemma StoreCityValid(s: Store, key: CityKey, city: City, filled: Filled)
    requires Valid(s) && city.Key() == key && key.country in s.countries
    requires key in s.cities ==> city == s.cities[key]
    requires key !in s.cities ==> filled.save
    requires filled.city.Key() == key && RegionOk(s, filled.city)
    ensures var s' := if filled.save then s.(cities := s.cities[key := filled.city]) else s;
            Valid(s') && key in s'.cities
  {
  }

  /** The records of a file, in order, until the first fatal one. */
  function ImportCities(s: Session, rows: seq<Record>, receivers: seq<Receiver>, normalize: string -> string): (r: Outcome)
    requires CityRows(rows)
    ensures r.session.store.countries == s.store.countries && r.session.store.regions == s.store.regions
    ensures Keeps(s.store, r.session.store)
    decreases |rows|
  {
    if |rows| == 0 then Outcome(s, None)
    else
      match ImportCityRow(s, rows[0], receivers, normalize)
      case Failure(e) => Outcome(s, Some(e))
      case Success(next) =>
        var r := ImportCities(next, rows[1..], receivers, normalize);
        KeepsTransitive(s.store, next.store, r.session.store);
        r
  }

  /** A city import keeps the session valid. */
  lemma {:induction false} ImportCitiesValid(s: Session, rows: seq<Record>, receivers: seq<Receiver>, normalize: string -> string)
    requires CityRows(rows)
    ensures SessionValid(s) ==> SessionValid(ImportCities(s, rows, receivers, normalize).session)
    decreases |rows|
  {
    if |rows| > 0 && SessionValid(s) {
      ImportCityRowStores(s, rows[0], receivers, normalize);
      var r := ImportCityRow(s, rows[0], receivers, normalize);
      if r.Success? {
        ImportCitiesValid(r.value, rows[1..], receivers, normalize);
      }
    }
  }

  /** Every record of `rows` the receivers accept names a country of `countries`. */
  predicate CountriesKnown(countries: map<string, Country>, rows: seq<Record>, receivers: seq<Receiver>)
    requires CityRows(rows)
  {
    forall k :: 0 <= k < |rows| && !Rejects(receivers, rows[k]) ==> rows[k][8] in countries
  }

  /** Every record of `rows` the receivers accept has a city stored under its name and
      country code. */
  predicate StoresAccepted(cities: map<CityKey, City>, rows: seq<Record>, receivers: seq<Receiver>)
    requires CityRows(rows)
  {
    forall k :: 0 <= k < |rows| && !Rejects(receivers, rows[k]) ==> CityKey(rows[k][1], rows[k][8]) in cities
  }

  /** From a valid session, a city import ends without error exactly when every
      accepted record names a stored country, and then every accepted record has its
      city stored. */
  lemma {:induction false} ImportCitiesComplete(s: Session, rows: seq<Record>, receivers: seq<Receiver>, normalize: string -> string)
    requires CityRows(rows) && SessionValid(s)
    ensures var r := ImportCities(s, rows, receivers, normalize);
            (r.error.None? <==> CountriesKnown(s.store.countries, rows, receivers))
            && (r.error.None? ==> StoresAccepted(r.session.store.cities, rows, receivers))
    decreases |rows|
  {
    if |rows| > 0 {
      var r := ImportCities(s, rows, receivers, normalize);
      ImportCityRowStores(s, rows[0], receivers, normalize);
      match ImportCityRow(s, rows[0], receivers, normalize)
      case Failure(_) =>
        assert !CountriesKnown(s.store.countries, rows, receivers);
      case Success(next) =>
        ImportCitiesComplete(next, rows[1..], receivers, normalize);
        assert r == ImportCities(next, rows[1..], receivers, normalize);
        CitiesStep(s, next, r, rows, receivers);
    }
  }

  lemma CitiesStep(s: Session, next: Session, r: Outcome, rows: seq<Record>, receivers: seq<Receiver>)
    requires CityRows(rows) && |rows| > 0 && SessionValid(s)
    requires next.store.countries == s.store.countries && Keeps(next.store, r.session.store)
    requires !Rejects(receivers, rows[0]) ==>
               rows[0][8] in s.store.countries && CityKey(rows[0][1], rows[0][8]) in next.store.cities
    requires r.error.None? <==> CountriesKnown(next.store.countries, rows[1..], receivers)
    requires r.error.None? ==> StoresAccepted(r.session.store.cities, rows[1..], receivers)
    ensures r.error.None? <==> CountriesKnown(s.store.countries, rows, receivers)
    ensures r.error.None? ==> StoresAccepted(r.session.store.cities, rows, receivers)
  {
    assert forall k :: 1 <= k < |rows| ==> rows[k] == rows[1..][k - 1];
  }

  /** The records the receivers let through. */
  function Accepted(rows: seq<Record>, receivers: seq<Receiver>): (kept: seq<Record>)
    ensures |kept| <= |rows|
    ensures forall k :: 0 <= k < |kept| ==> kept[k] in rows && !Rejects(receivers, kept[k])
  {
    if |rows| == 0 then []
    else (if Rejects(receivers, rows[0]) then [] else [rows[0]]) + Accepted(rows[1..], receivers)
  }

  /** Skipped records have no effect at all: importing a file is importing the
      records the receivers accept. */
  lemma {:induction false} SkippedRecordsIgnored(s: Session, rows: seq<Record>, receivers: seq<Receiver>, normalize: string -> string)
    requires CityRows(rows)
    ensures CityRows(Accepted(rows, receivers))
    ensures ImportCities(s, rows, receivers, normalize) == ImportCities(s, Accepted(rows, receivers), receivers, normalize)
    decreases |rows|
  {
    if |rows| > 0 {
      var rest := Accepted(rows[1..], receivers);
      SkippedRecordsIgnored(s, rows[1..], receivers, normalize);
      if Rejects(receivers, rows[0]) {
        assert Accepted(rows, receivers) == rest;
      } else {
        assert Accepted(rows, receivers) == [rows[0]] + rest;
        assert ([rows[0]] + rest)[1..] == rest;
        match ImportCityRow(s, rows[0], receivers, normalize)
        case Failure(_) =>
        case Success(next) =>
          SkippedRecordsIgnored(next, rows[1..], receivers, normalize);
      }
    }
  }
}
