/**
 The source lists of the application: one list of URLs per record kind, and
 `SOURCES`, the order in which the command visits them.
 */
module Settings {

  datatype Kind = CountryKind | RegionKind | CityKind

  datatype Sources = Sources(countries: seq<string>, regions: seq<string>, cities: seq<string>) {

    /** `SOURCES`: the three lists concatenated, countries first, then regions,
        then cities, duplicates kept. */
    function All(): (all: seq<string>)
      ensures |all| == |countries| + |regions| + |cities|
      ensures forall u :: u in all <==> u in countries || u in regions || u in cities
    {
      countries + regions + cities
    }

    /** The kind of list position `i` of `All()` was taken from. */
    function KindAt(i: nat): Kind
      requires i < |All()|
    {
      if i < |countries| then CountryKind
      else if i < |countries| + |regions| then RegionKind
      else CityKind
    }

    /** The list a kind's URLs come from. */
    function OfKind(kind: Kind): seq<string> {
      match kind
      case CountryKind => countries
      case RegionKind => regions
      case CityKind => cities
    }

    /** Offset of a kind's block inside `All()`. */
    function Offset(kind: Kind): nat {
      match kind
      case CountryKind => 0
      case RegionKind => |countries|
      case CityKind => |countries| + |regions|
    }
  }

  /** The rank of a kind in the visiting order. */
  function Rank(kind: Kind): nat {
    match kind
    case CountryKind => 0
    case RegionKind => 1
    case CityKind => 2
  }

  /** `All()` visits every country source before every region source and every
      region source before every city source: position `i` holds the entry of its
      kind's list at `i` minus the kind's offset, and kinds never go back. */
  lemma SourcesOrder(s: Sources)
    ensures forall i :: 0 <= i < |s.All()| ==>
              s.Offset(s.KindAt(i)) <= i
              && i - s.Offset(s.KindAt(i)) < |s.OfKind(s.KindAt(i))|
              && s.All()[i] == s.OfKind(s.KindAt(i))[i - s.Offset(s.KindAt(i))]
    ensures forall i, j :: 0 <= i < j < |s.All()| ==> Rank(s.KindAt(i)) <= Rank(s.KindAt(j))
  {
  }

  const GeonamesDump := "http://download.geonames.org/export/dump/"

  /** The defaults used when the project settings override nothing. */
  function Defaults(): Sources {
    Sources([GeonamesDump + "countryInfo.txt"],
            [GeonamesDump + "admin1CodesASCII.txt"],
            [GeonamesDump + "cities15000.zip"])
  }
}
