/**
 The full-refresh pattern shared by the country and region importers: records are
 applied in order, each looking up or creating the entity under its key and
 overwriting all of its imported fields, so the last record for a key wins.
 */
module Refresh {

  /** Store each entry under its key, in order. */
  function Apply<K, V>(m: map<K, V>, entries: seq<(K, V)>): (r: map<K, V>)
    ensures m.Keys <= r.Keys
    decreases |entries|
  {
    if |entries| == 0 then m
    else Apply(m[entries[0].0 := entries[0].1], entries[1..])
  }

  /** Applying entries is applying the first, then the rest. */
  lemma ApplyStep<K, V>(m: map<K, V>, entries: seq<(K, V)>)
    requires |entries| > 0
    ensures Apply(m, entries) == Apply(m[entries[0].0 := entries[0].1], entries[1..])
  {
  }

  /** `ApplyStep` with the updated map and the remaining entries given by name. */
  lemma ApplyCons<K, V>(m: map<K, V>, m': map<K, V>, entries: seq<(K, V)>, rest: seq<(K, V)>)
    requires |entries| > 0 && m' == m[entries[0].0 := entries[0].1] && rest == entries[1..]
    ensures Apply(m, entries) == Apply(m', rest)
  {
    ApplyStep(m, entries);
  }

  /** Entry `i` is the last one for its key. */
  predicate LastFor<K(==), V>(entries: seq<(K, V)>, i: nat)
    requires i < |entries|
  {
    forall j :: i < j < |entries| ==> entries[j].0 != entries[i].0
  }

  /** Some entry has key `k`. */
  predicate Mentioned<K(==), V>(entries: seq<(K, V)>, k: K) {
    exists i :: 0 <= i < |entries| && entries[i].0 == k
  }

  /** The stored keys are the old ones and the mentioned ones; a mentioned key holds
      the value of its last entry; an unmentioned one is untouched. */
  lemma {:induction false} ApplyLastWins<K, V>(m: map<K, V>, entries: seq<(K, V)>)
    ensures forall k :: k in Apply(m, entries) <==> k in m || Mentioned(entries, k)
    ensures forall i :: 0 <= i < |entries| && LastFor(entries, i) ==>
              entries[i].0 in Apply(m, entries) && Apply(m, entries)[entries[i].0] == entries[i].1
    ensures forall k :: k in m && !Mentioned(entries, k) ==> Apply(m, entries)[k] == m[k]
    decreases |entries|
  {
    if |entries| > 0 {
      ApplyLastWins(m[entries[0].0 := entries[0].1], entries[1..]);
      LastWinsStep(m, entries);
    }
  }

  lemma LastWinsStep<K, V>(m: map<K, V>, entries: seq<(K, V)>)
    requires |entries| > 0
    requires var next := m[entries[0].0 := entries[0].1];
             var r := Apply(next, entries[1..]);
             (forall k :: k in r <==> k in next || Mentioned(entries[1..], k))
             && (forall i :: 0 <= i < |entries[1..]| && LastFor(entries[1..], i) ==>
                   entries[1..][i].0 in r && r[entries[1..][i].0] == entries[1..][i].1)
             && (forall k :: k in next && !Mentioned(entries[1..], k) ==> r[k] == next[k])
    ensures forall k :: k in Apply(m, entries) <==> k in m || Mentioned(entries, k)
    ensures forall i :: 0 <= i < |entries| && LastFor(entries, i) ==>
              entries[i].0 in Apply(m, entries) && Apply(m, entries)[entries[i].0] == entries[i].1
    ensures forall k :: k in m && !Mentioned(entries, k) ==> Apply(m, entries)[k] == m[k]
  {
    var rest := entries[1..];
    forall k
      ensures Mentioned(entries, k) <==> k == entries[0].0 || Mentioned(rest, k)
    {
      if Mentioned(entries, k) {
        var i :| 0 <= i < |entries| && entries[i].0 == k;
        if i > 0 {
          assert rest[i - 1] == entries[i];
        }
      }
      if Mentioned(rest, k) {
        var i :| 0 <= i < |rest| && rest[i].0 == k;
        assert entries[i + 1] == rest[i];
      }
    }
    forall i | 0 <= i < |entries| && LastFor(entries, i)
      ensures i > 0 ==> LastFor(rest, i - 1)
      ensures i == 0 ==> !Mentioned(rest, entries[0].0)
    {
      if i > 0 {
        forall j | i - 1 < j < |rest|
          ensures rest[j].0 != rest[i - 1].0
        {
          assert rest[j] == entries[j + 1];
        }
      } else {
        forall j | 0 <= j < |rest|
          ensures rest[j].0 != entries[0].0
        {
          assert rest[j] == entries[j + 1];
        }
      }
    }
  }

  /** The last entry for a mentioned key. */
  lemma {:induction false} LastIndex<K, V>(entries: seq<(K, V)>, k: K) returns (i: nat)
    requires Mentioned(entries, k)
    ensures i < |entries| && entries[i].0 == k && LastFor(entries, i)
  {
    var n := |entries| - 1;
    if entries[n].0 == k {
      i := n;
    } else {
      var front := entries[..n];
      assert Mentioned(front, k) by {
        var j :| 0 <= j < |entries| && entries[j].0 == k;
        assert j < n && front[j] == entries[j];
      }
      i := LastIndex(front, k);
      assert front[i] == entries[i];
      forall j | i < j < |entries|
        ensures entries[j].0 != entries[i].0
      {
        if j < n {
          assert front[j] == entries[j];
        }
      }
    }
  }

  /** Applying the same entries twice gives what applying them once does. */
  lemma ApplyIdempotent<K, V>(m: map<K, V>, entries: seq<(K, V)>)
    ensures Apply(Apply(m, entries), entries) == Apply(m, entries)
  {
    var once := Apply(m, entries);
    var twice := Apply(once, entries);
    ApplyLastWins(m, entries);
    ApplyLastWins(once, entries);
    forall k | k in twice
      ensures k in once && twice[k] == once[k]
    {
      if Mentioned(entries, k) {
        var i := LastIndex(entries, k);
      }
    }
    assert twice.Keys == once.Keys;
  }

  /** A property every old binding and every entry has holds of every binding after
      the entries are applied. */
  lemma ApplyPreserves<K, V>(m: map<K, V>, entries: seq<(K, V)>, p: (K, V) -> bool)
    requires forall k :: k in m ==> p(k, m[k])
    requires forall i :: 0 <= i < |entries| ==> p(entries[i].0, entries[i].1)
    ensures forall k :: k in Apply(m, entries) ==> p(k, Apply(m, entries)[k])
  {
    ApplyLastWins(m, entries);
    forall k | k in Apply(m, entries)
      ensures p(k, Apply(m, entries)[k])
    {
      if Mentioned(entries, k) {
        var i := LastIndex(entries, k);
      }
    }
  }
}
