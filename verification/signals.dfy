/**
 The `city_items_pre_import` signal: before a city record is reconciled, every
 connected receiver is called with its fields in connection order, and a receiver
 that raises `InvalidItems` makes the command skip the record. A receiver is
 modelled by the decision it takes: `true` means it raises.
 */
module Signals {
  import opened Wrappers
  import opened Text

  type Items = seq<string>

  type Receiver = Items -> bool

  /** `send`: the index of the receiver that raises, if any. Receivers after it are
      not called. */
  function FirstRejecting(receivers: seq<Receiver>, items: Items): (r: Option<nat>)
    ensures r.Some? ==> r.value < |receivers| && receivers[r.value](items)
    ensures r.Some? ==> forall j :: 0 <= j < r.value ==> !receivers[j](items)
    ensures r.None? ==> forall j :: 0 <= j < |receivers| ==> !receivers[j](items)
  {
    if |receivers| == 0 then None
    else if receivers[0](items) then Some(0)
    else
      match FirstRejecting(receivers[1..], items)
      case None => None
      case Some(i) => Some(i + 1)
  }

  /** The record is skipped. */
  predicate Rejects(receivers: seq<Receiver>, items: Items) {
    FirstRejecting(receivers, items).Some?
  }

  /** One raising receiver is enough to skip a record, and a record is skipped only
      if one of them raises. */
  lemma RejectsIff(receivers: seq<Receiver>, items: Items)
    ensures Rejects(receivers, items) <==> exists i :: 0 <= i < |receivers| && receivers[i](items)
  {
  }

  /** `connect`: the receiver is called after those connected before it. */
  function Connect(receivers: seq<Receiver>, receiver: Receiver): (r: seq<Receiver>)
    ensures |r| == |receivers| + 1 && r[..|receivers|] == receivers && r[|receivers|] == receiver
  {
    receivers + [receiver]
  }

  /** Connecting a receiver skips exactly the records it or an earlier receiver skips. */
  lemma ConnectRejects(receivers: seq<Receiver>, receiver: Receiver, items: Items)
    ensures Rejects(Connect(receivers, receiver), items) <==> Rejects(receivers, items) || receiver(items)
  {
    var all := Connect(receivers, receiver);
    RejectsIff(receivers, items);
    RejectsIff(all, items);
    if Rejects(receivers, items) {
      var i :| 0 <= i < |receivers| && receivers[i](items);
      assert all[i] == receivers[i];
    }
    if Rejects(all, items) {
      var i :| 0 <= i < |all| && all[i](items);
      if i < |receivers| {
        assert all[i] == receivers[i];
      }
    }
  }

  /** `filter_non_cities`: raises unless the feature code, `items[7]`, contains `PPL`. */
  function FilterNonCities(items: Items): (rejects: bool)
    requires |items| > 7
    ensures rejects <==> !exists i: nat :: OccursAt(items[7], "PPL", i)
  {
    ContainsIff(items[7], "PPL");
    !Contains(items[7], "PPL")
  }

  /** The receiver connected when the application loads. It is given the records the
      city importer accepts, which have at least eleven fields. */
  function DefaultFilter(items: Items): (rejects: bool)
    ensures |items| > 7 ==> rejects == FilterNonCities(items)
  {
    |items| > 7 && FilterNonCities(items)
  }

  function DefaultReceivers(): seq<Receiver> {
    [DefaultFilter]
  }

  /** The decision of the default filter depends on nothing but the feature code. */
  lemma FilterReadsFeatureCode(a: Items, b: Items)
    requires |a| > 7 && |b| > 7 && a[7] == b[7]
    ensures FilterNonCities(a) == FilterNonCities(b)
  {
  }

  /** A feature code starting with `PPL` (`PPL`, `PPLA`, `PPLC`, ...) is a populated
      place and is kept. */
  lemma PopulatedPlaceKept(items: Items, suffix: string)
    requires |items| > 7 && items[7] == "PPL" + suffix
    ensures !FilterNonCities(items)
  {
    assert OccursAt(items[7], "PPL", 0);
  }

  /** A feature code without `P`, such as `ADM3`, is skipped. */
  lemma NonPlaceSkipped(items: Items)
    requires |items| > 7 && 'P' !in items[7]
    ensures FilterNonCities(items)
  {
    forall i: nat
      ensures !OccursAt(items[7], "PPL", i)
    {
      if i + 3 <= |items[7]| {
        assert items[7][i] in items[7];
        assert items[7][i..i + 3][0] == items[7][i];
      }
    }
  }

  /** The receiver from the documentation of the signal: only cities of the allowed
      countries, by the country code in `items[8]`. */
  function CountryAllowList(allowed: set<string>): Receiver {
    (items: Items) => |items| > 8 && items[8] !in allowed
  }

  /** With the allow-list connected after the default filter, a record is skipped
      exactly when it is not a populated place or is not in an allowed country. */
  lemma AllowListRejects(allowed: set<string>, items: Items)
    requires |items| > 8
    ensures Rejects(Connect(DefaultReceivers(), CountryAllowList(allowed)), items)
            <==> FilterNonCities(items) || items[8] !in allowed
  {
    ConnectRejects(DefaultReceivers(), CountryAllowList(allowed), items);
    RejectsIff(DefaultReceivers(), items);
  }
}
