/**
 The command's lazy identity map from country code to Country (`_get_country`).
 It is created empty with each run and consulted by the region and city
 importers; a code is looked up in the store only on its first use, and an
 unknown code makes the run fail.
 */
module CountryCache {
  import opened Wrappers
  import opened Errors
  import opened Store

  type Cache = map<string, Country>

  /** The store together with the run's country cache. */
  datatype Session = Session(store: Store, cache: Cache)

  /** Where an import stopped: the session it left behind, and the fatal error if
      one ended it. Rows saved before the error stay saved. */
  datatype Outcome = Outcome(session: Session, error: Option<ImportError>)

  /** Every cached country is stored under its code. */
  predicate CacheValid(cache: Cache, countries: map<string, Country>) {
    forall c :: c in cache ==> cache[c].code2 == c && c in countries
  }

  predicate SessionValid(s: Session) {
    Valid(s.store) && CacheValid(s.cache, s.store.countries)
  }

  datatype Lookup = Lookup(country: Country, cache: Cache)

  /** `_get_country(code2)`: the cached country if the code was looked up before,
      else the stored one, which is then cached; `Country.DoesNotExist` otherwise. */
  function GetCountry(cache: Cache, countries: map<string, Country>, code2: string): (r: Result<Lookup, ImportError>)
    ensures r.Failure? <==> code2 !in cache && code2 !in countries
    ensures r.Failure? ==> r.error == CountryNotFound(code2)
    ensures r.Success? ==> r.value.cache == cache[code2 := r.value.country]
    ensures r.Success? && code2 in cache ==> r.value.country == cache[code2]
    ensures r.Success? && code2 !in cache ==> r.value.country == countries[code2]
  {
    if code2 in cache then Success(Lookup(cache[code2], cache))
    else if code2 in countries then Success(Lookup(countries[code2], cache[code2 := countries[code2]]))
    else Failure(CountryNotFound(code2))
  }

  /** A lookup keeps the cache consistent with the store, and the country found
      has the code asked for. */
  lemma GetCountryValid(cache: Cache, countries: map<string, Country>, code2: string)
    ensures var r := GetCountry(cache, countries, code2);
            CountriesValid(countries) && CacheValid(cache, countries) && r.Success? ==>
              r.value.country.code2 == code2 && code2 in countries && CacheValid(r.value.cache, countries)
  {
  }

  /** Once a code has been looked up, every later lookup of it returns the same
      country without consulting the store, whatever the store holds by then. */
  lemma GetCountryMemoized(cache: Cache, countries: map<string, Country>, later: map<string, Country>, code2: string)
    requires GetCountry(cache, countries, code2).Success?
    ensures var first := GetCountry(cache, countries, code2).value;
            GetCountry(first.cache, later, code2) == Success(first)
  {
  }

  /** A cache stays valid when the store only gains countries or overwrites them
      under the same code. */
  lemma CacheValidGrows(cache: Cache, countries: map<string, Country>, countries': map<string, Country>)
    ensures CacheValid(cache, countries) && countries.Keys <= countries'.Keys ==> CacheValid(cache, countries')
  {
  }
}
