/**
 The persisted entities the command reconciles against. The ORM is replaced by
 three maps keyed by each entity's natural key: a Country by its two-letter code,
 a Region by (country code, region code), a City by (name, country code). A
 foreign key to a Country is represented by that country's code.
 */
module Store {
  import opened Wrappers

  /** A stored field as Python sees it when the command tests `if not field`. */
  datatype Value = Null | Str(s: string) | Num(n: int)

  /** Python truthiness: `None`, `""` and `0` are false. */
  predicate Truthy(v: Value) {
    match v
    case Null => false
    case Str(s) => |s| > 0
    case Num(n) => n != 0
  }

  datatype Country = Country(code2: string, name: string, code3: string, continent: string, tld: string)

  datatype RegionKey = RegionKey(country: string, code: string)

  datatype Region = Region(country: string, code: string, name: string) {
    function Key(): RegionKey {
      RegionKey(country, code)
    }
  }

  datatype CityKey = CityKey(name: string, country: string)

  datatype City = City(name: string, country: string, latitude: Value, longitude: Value,
                       searchNames: Value, geonameId: Value, region: Option<RegionKey>)
  {
    function Key(): CityKey {
      CityKey(name, country)
    }
  }

  datatype Store = Store(countries: map<string, Country>, regions: map<RegionKey, Region>,
                         cities: map<CityKey, City>)

  /** Every country is stored under its own code. */
  predicate CountriesValid(countries: map<string, Country>) {
    forall c :: c in countries ==> countries[c].code2 == c
  }

  /** Every region is stored under its own key and belongs to a stored country. */
  predicate RegionsValid(s: Store) {
    forall k :: k in s.regions ==> s.regions[k].Key() == k && k.country in s.countries
  }

  /** A city's region, when it has one, is a stored region of the city's country. */
  predicate RegionOk(s: Store, c: City) {
    c.region.Some? ==> c.region.value in s.regions && c.region.value.country == c.country
  }

  /** Every city is stored under its own key, belongs to a stored country and has a
      region of that country, if any. */
  predicate CitiesValid(s: Store) {
    forall k :: k in s.cities ==> s.cities[k].Key() == k && k.country in s.countries && RegionOk(s, s.cities[k])
  }

  /** Natural keys are unique by construction of the maps; these are the remaining
      invariants the reconcilers keep: keys agree with the entities, and every foreign
      key resolves. */
  predicate Valid(s: Store) {
    CountriesValid(s.countries) && RegionsValid(s) && CitiesValid(s)
  }

  /** The fill-once promise for one city: a field that was set is unchanged, and the
      region changes only together with a geoname id that was unset. */
  predicate CityKept(c: City, c': City) {
    c'.Key() == c.Key()
    && (Truthy(c.latitude) ==> c'.latitude == c.latitude)
    && (Truthy(c.longitude) ==> c'.longitude == c.longitude)
    && (Truthy(c.searchNames) ==> c'.searchNames == c.searchNames)
    && (Truthy(c.geonameId) ==> c'.geonameId == c.geonameId && c'.region == c.region)
  }

  /** Nothing stored disappears, and no set city field is overwritten. */
  predicate Keeps(s: Store, s': Store) {
    s.countries.Keys <= s'.countries.Keys
    && s.regions.Keys <= s'.regions.Keys
    && (forall k :: k in s.cities ==> k in s'.cities && CityKept(s.cities[k], s'.cities[k]))
  }

  lemma CityKeptTransitive(a: City, b: City, c: City)
    requires CityKept(a, b) && CityKept(b, c)
    ensures CityKept(a, c)
  {
  }

  lemma KeepsTransitive(a: Store, b: Store, c: Store)
    requires Keeps(a, b) && Keeps(b, c)
    ensures Keeps(a, c)
  {
    forall k | k in a.cities
      ensures k in c.cities && CityKept(a.cities[k], c.cities[k])
    {
      CityKeptTransitive(a.cities[k], b.cities[k], c.cities[k]);
    }
  }

  lemma KeepsReflexive(s: Store)
    ensures Keeps(s, s)
  {
  }

  /** The store before the first import. */
  function Empty(): (s: Store)
    ensures Valid(s)
  {
    Store(map[], map[], map[])
  }
}
