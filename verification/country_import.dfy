/**
 `Command.country_import`: each record of the country file looks up or creates
 the Country with code `items[0]` and overwrites its name, three-letter code,
 continent and top-level domain. No field is kept from an earlier import, so the
 last record for a code decides what is stored.
 */
module CountryImport {
  import opened Store
  import opened Parser
  import opened Refresh

  /** The fields `country_import` reads: `items[0]`, `[1]`, `[4]`, `[8]` and `[9]`. */
  predicate CountryRow(items: Record) {
    |items| >= 10
  }

  predicate CountryRows(rows: seq<Record>) {
    forall i :: 0 <= i < |rows| ==> CountryRow(rows[i])
  }

  /** `items[9][1:]`: the domain without its first character, meant to drop the
      leading dot; the empty string stays empty. */
  function Tld(field: string): (tld: string)
    ensures |field| > 0 ==> [field[0]] + tld == field
    ensures |field| == 0 ==> tld == ""
  {
    if |field| == 0 then "" else field[1..]
  }

  /** The country a record describes; nothing of a stored country survives. */
  function CountryOf(items: Record): (c: Country)
    requires CountryRow(items)
    ensures c.code2 == items[0]
  {
    Country(items[0], items[4], items[1], items[8], Tld(items[9]))
  }

  /** The (code, country) pair each record stores, in file order. */
  function CountryEntries(rows: seq<Record>): (entries: seq<(string, Country)>)
    requires CountryRows(rows)
    ensures |entries| == |rows|
    ensures forall i :: 0 <= i < |rows| ==> entries[i].0 == rows[i][0] && entries[i].1.code2 == rows[i][0]
  {
    seq(|rows|, i requires 0 <= i < |rows| => (rows[i][0], CountryOf(rows[i])))
  }

  /** The countries after importing `rows` in order. */
  function ImportCountries(countries: map<string, Country>, rows: seq<Record>): (r: map<string, Country>)
    requires CountryRows(rows)
    ensures countries.Keys <= r.Keys
  {
    Apply(countries, CountryEntries(rows))
  }

  /** Some row of `rows` names the code `c`. */
  predicate Names(rows: seq<Record>, c: string)
    requires CountryRows(rows)
  {
    exists i :: 0 <= i < |rows| && rows[i][0] == c
  }

  /** No later row of `rows` names the code of row `i`. */
  predicate LastRow(rows: seq<Record>, i: nat)
    requires CountryRows(rows) && i < |rows|
  {
    forall j :: i < j < |rows| ==> rows[j][0] != rows[i][0]
  }

  /** The import is a full refresh keyed by code: a code holds the country of the
      last row naming it. */
  lemma ImportCountriesLastWins(countries: map<string, Country>, rows: seq<Record>)
    requires CountryRows(rows)
    ensures forall i :: 0 <= i < |rows| && LastRow(rows, i) ==>
              rows[i][0] in ImportCountries(countries, rows)
              && ImportCountries(countries, rows)[rows[i][0]] == CountryOf(rows[i])
  {
    var entries := CountryEntries(rows);
    ApplyLastWins(countries, entries);
    forall i | 0 <= i < |rows| && LastRow(rows, i)
      ensures LastFor(entries, i)
    {
    }
  }

  /** The stored codes are the old ones and those the rows name, and a code no row
      names keeps its stored country. */
  lemma ImportCountriesKeys(countries: map<string, Country>, rows: seq<Record>)
    requires CountryRows(rows)
    ensures forall c :: c in ImportCountries(countries, rows) <==> c in countries || Names(rows, c)
    ensures forall c :: c in countries && !Names(rows, c) ==>
              ImportCountries(countries, rows)[c] == countries[c]
  {
    var entries := CountryEntries(rows);
    ApplyLastWins(countries, entries);
    forall c
      ensures Mentioned(entries, c) <==> Names(rows, c)
    {
      if Names(rows, c) {
        var i :| 0 <= i < |rows| && rows[i][0] == c;
        assert entries[i].0 == c;
      }
    }
  }

  /** Every stored country stays under its own code. */
  lemma ImportCountriesValid(countries: map<string, Country>, rows: seq<Record>)
    requires CountryRows(rows)
    ensures CountriesValid(countries) ==> CountriesValid(ImportCountries(countries, rows))
  {
    if CountriesValid(countries) {
      ApplyPreserves(countries, CountryEntries(rows), (k: string, c: Country) => c.code2 == k);
    }
  }

  /** Importing the same file twice stores what importing it once does. */
  lemma ImportCountriesIdempotent(countries: map<string, Country>, rows: seq<Record>)
    requires CountryRows(rows)
    ensures ImportCountries(ImportCountries(countries, rows), rows) == ImportCountries(countries, rows)
  {
    ApplyIdempotent(countries, CountryEntries(rows));
  }

  /** `country_import` on the store: only the countries change. */
  function ImportCountryFile(s: Store, rows: seq<Record>): (r: Store)
    requires CountryRows(rows)
    ensures r.regions == s.regions && r.cities == s.cities
    ensures Valid(s) ==> Valid(r)
    ensures Keeps(s, r)
  {
    var r := s.(countries := ImportCountries(s.countries, rows));
    ImportCountriesValid(s.countries, rows);
    assert RegionsValid(s) ==> RegionsValid(r);
    assert CitiesValid(s) ==> CitiesValid(r);
    r
  }

  /** The top-level domain as GeoNames writes it, `.fr`, is stored as `fr`. */
  lemma TldDropsDot(tld: string)
    ensures Tld(['.'] + tld) == tld
  {
  }
}
