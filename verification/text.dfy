/**
 The string operations of Python 2 that the command relies on: `strip()`,
 `split(sep)`, `sep.join(parts)`, `split(sep)[-1]`, the `in` substring test and
 `replace`.
 */
module Text {

  /** The characters `str.strip()` removes: tab, line feed, vertical tab, form feed,
      carriage return (codes 9 to 13) and space. */
  predicate IsSpace(ch: char) {
    ch == ' ' || ('\t' <= ch <= '\r')
  }

  predicate AllSpace(s: string) {
    forall k :: 0 <= k < |s| ==> IsSpace(s[k])
  }

  /** Neither end of `s` is whitespace. */
  predicate IsStripped(s: string) {
    |s| == 0 || (!IsSpace(s[0]) && !IsSpace(s[|s| - 1]))
  }

  /** Drops the longest all-whitespace prefix. */
  function TrimLeft(s: string): (r: string)
    ensures |r| <= |s|
    ensures |r| == 0 || !IsSpace(r[0])
  {
    if |s| > 0 && IsSpace(s[0]) then TrimLeft(s[1..]) else s
  }

  /** `TrimLeft` keeps a suffix. */
  lemma {:induction false} TrimLeftIsSuffix(s: string)
    ensures TrimLeft(s) == s[|s| - |TrimLeft(s)|..]
  {
    if |s| > 0 && IsSpace(s[0]) {
      TrimLeftIsSuffix(s[1..]);
    }
  }

  /** What `TrimLeft` drops is whitespace. */
  lemma {:induction false} TrimLeftDropsSpace(s: string)
    ensures AllSpace(s[..|s| - |TrimLeft(s)|])
  {
    if |s| > 0 && IsSpace(s[0]) {
      TrimLeftDropsSpace(s[1..]);
      TrimLeftIsSuffix(s[1..]);
      var n := |s| - |TrimLeft(s)|;
      assert forall k :: 1 <= k < n ==> s[..n][k] == s[1..][..n - 1][k - 1];
    }
  }

  /** Drops the longest all-whitespace suffix. */
  function TrimRight(s: string): (r: string)
    ensures |r| <= |s|
    ensures |r| == 0 || !IsSpace(r[|r| - 1])
  {
    if |s| > 0 && IsSpace(s[|s| - 1]) then TrimRight(s[..|s| - 1]) else s
  }

  /** `TrimRight` keeps a prefix. */
  lemma {:induction false} TrimRightIsPrefix(s: string)
    ensures TrimRight(s) == s[..|TrimRight(s)|]
  {
    if |s| > 0 && IsSpace(s[|s| - 1]) {
      TrimRightIsPrefix(s[..|s| - 1]);
    }
  }

  /** What `TrimRight` drops is whitespace. */
  lemma {:induction false} TrimRightDropsSpace(s: string)
    ensures AllSpace(s[|TrimRight(s)|..])
  {
    if |s| > 0 && IsSpace(s[|s| - 1]) {
      TrimRightDropsSpace(s[..|s| - 1]);
      TrimRightIsPrefix(s[..|s| - 1]);
      var n := |TrimRight(s)|;
      assert forall k :: n <= k < |s| - 1 ==> s[k] == s[..|s| - 1][k];
    }
  }

  /** Python's `s.strip()`. */
  function Strip(s: string): (r: string)
    ensures |r| <= |s|
    ensures IsStripped(r)
  {
    var l := TrimLeft(s);
    var t := TrimRight(l);
    TrimRightIsPrefix(l);
    assert t != [] ==> t[0] == l[0];
    t
  }

  /** `Strip` removes exactly the surrounding whitespace: the result is the infix
      of `s` between an all-whitespace prefix and an all-whitespace suffix. */
  lemma StripIsInfix(s: string) returns (i: nat)
    ensures i + |Strip(s)| <= |s|
    ensures s[i..i + |Strip(s)|] == Strip(s)
    ensures AllSpace(s[..i]) && AllSpace(s[i + |Strip(s)|..])
  {
    var l := TrimLeft(s);
    var r := TrimRight(l);
    TrimLeftDropsSpace(s);
    TrimLeftIsSuffix(s);
    TrimRightDropsSpace(l);
    TrimRightIsPrefix(l);
    i := |s| - |l|;
    InfixOfSuffix(s, i, l, r);
  }

  /** A prefix of a suffix is an infix. */
  lemma InfixOfSuffix(s: string, i: nat, l: string, r: string)
    requires i <= |s| && l == s[i..] && |r| <= |l| && r == l[..|r|]
    ensures s[i..i + |r|] == r && s[i + |r|..] == l[|r|..]
  {
  }

  /** A string strips to nothing exactly when it is all whitespace. */
  lemma StripEmptyIff(s: string)
    ensures Strip(s) == [] <==> AllSpace(s)
  {
    var i := StripIsInfix(s);
    if Strip(s) == [] {
      assert s == s[..i] + s[i..];
    }
  }

  /** A character absent from `s` is absent from its stripped form. */
  lemma StripKeepsAbsent(s: string, ch: char)
    requires ch !in s
    ensures ch !in Strip(s)
  {
    var i := StripIsInfix(s);
    assert forall k :: 0 <= k < |Strip(s)| ==> Strip(s)[k] == s[i + k];
  }

  /** Stripping an already stripped string changes nothing. */
  lemma StripStripped(s: string)
    requires IsStripped(s)
    ensures Strip(s) == s
  {
  }

  /** `Strip` is idempotent. */
  lemma StripIdempotent(s: string)
    ensures Strip(Strip(s)) == Strip(s)
  {
    StripStripped(Strip(s));
  }

  /** Python's `s.split(sep)` with an explicit separator: the maximal separator-free
      pieces between consecutive separators, empty pieces included. */
  function Split(s: string, sep: char): (parts: seq<string>)
    ensures |parts| >= 1
  {
    if |s| == 0 then [""]
    else
      var rest := Split(s[1..], sep);
      if s[0] == sep then [""] + rest
      else [[s[0]] + rest[0]] + rest[1..]
  }

  /** No piece of a split holds the separator. */
  lemma {:induction false} SplitPiecesFree(s: string, sep: char)
    ensures forall k :: 0 <= k < |Split(s, sep)| ==> sep !in Split(s, sep)[k]
  {
    if |s| > 0 {
      SplitPiecesFree(s[1..], sep);
      var rest := Split(s[1..], sep);
      if s[0] != sep {
        assert sep !in [s[0]] + rest[0];
        assert forall k :: 1 <= k < |Split(s, sep)| ==> Split(s, sep)[k] == rest[k];
      } else {
        assert forall k :: 1 <= k < |Split(s, sep)| ==> Split(s, sep)[k] == rest[k - 1];
      }
    }
  }

  /** A string splits into a single piece exactly when it holds no separator. */
  lemma {:induction false} SplitSingleIff(s: string, sep: char)
    ensures |Split(s, sep)| == 1 <==> sep !in s
  {
    if |s| > 0 {
      SplitSingleIff(s[1..], sep);
      assert s == [s[0]] + s[1..];
    }
  }

  /** The first piece is a prefix of the string, non-empty unless the string is
      empty or starts with the separator. */
  lemma {:induction false} SplitFirst(s: string, sep: char)
    ensures |Split(s, sep)[0]| <= |s| && Split(s, sep)[0] == s[..|Split(s, sep)[0]|]
    ensures |s| > 0 && s[0] != sep ==> |Split(s, sep)[0]| > 0
  {
    if |s| > 0 {
      SplitFirst(s[1..], sep);
      if s[0] != sep {
        var r0 := Split(s[1..], sep)[0];
        assert s[..1 + |r0|] == [s[0]] + s[1..][..|r0|];
      }
    }
  }

  /** Python's `sep.join(parts)`. */
  function Join(parts: seq<string>, sep: char): string {
    if |parts| == 0 then ""
    else if |parts| == 1 then parts[0]
    else parts[0] + [sep] + Join(parts[1..], sep)
  }

  /** `Split` unfolded once. */
  lemma SplitCons(s: string, sep: char)
    requires |s| > 0
    ensures s[0] == sep ==> Split(s, sep) == [""] + Split(s[1..], sep)
    ensures s[0] != sep ==> Split(s, sep) == [[s[0]] + Split(s[1..], sep)[0]] + Split(s[1..], sep)[1..]
  {
  }

  /** Joining the pieces of a split restores the string. */
  lemma {:induction false} JoinSplit(s: string, sep: char)
    ensures Join(Split(s, sep), sep) == s
  {
    if |s| > 0 {
      JoinSplit(s[1..], sep);
      JoinSplitStep(s, sep);
    }
  }

  lemma JoinSplitStep(s: string, sep: char)
    requires |s| > 0 && Join(Split(s[1..], sep), sep) == s[1..]
    ensures Join(Split(s, sep), sep) == s
  {
    var rest := Split(s[1..], sep);
    SplitCons(s, sep);
    assert s == [s[0]] + s[1..];
    if s[0] == sep {
      assert Join([""] + rest, sep) == "" + [sep] + Join(rest, sep);
    } else if |rest| == 1 {
      assert Join(rest, sep) == rest[0];
    } else {
      var parts := Split(s, sep);
      assert parts[1..] == rest[1..];
      assert Join(rest, sep) == rest[0] + [sep] + Join(rest[1..], sep);
    }
  }

  /** A separator-free string splits into itself alone. */
  lemma SplitNoSeparator(s: string, sep: char)
    requires sep !in s
    ensures Split(s, sep) == [s]
  {
    JoinSplit(s, sep);
  }

  /** Splitting distributes over a separator. */
  lemma {:induction false} SplitAround(a: string, sep: char, b: string)
    ensures Split(a + [sep] + b, sep) == Split(a, sep) + Split(b, sep)
  {
    if |a| == 0 {
      var s := a + [sep] + b;
      SplitCons(s, sep);
      assert s[1..] == b;
    } else {
      SplitAround(a[1..], sep, b);
      SplitAroundStep(a, sep, b);
    }
  }

  lemma SplitAroundStep(a: string, sep: char, b: string)
    requires |a| > 0
    requires Split(a[1..] + [sep] + b, sep) == Split(a[1..], sep) + Split(b, sep)
    ensures Split(a + [sep] + b, sep) == Split(a, sep) + Split(b, sep)
  {
    var s := a + [sep] + b;
    assert s[0] == a[0] && s[1..] == a[1..] + [sep] + b;
    SplitCons(s, sep);
    SplitCons(a, sep);
    if a[0] == sep {
      PrependPiece("", Split(a[1..], sep), Split(b, sep));
    } else {
      ExtendFirstPiece(a[0], Split(a[1..], sep), Split(b, sep));
    }
  }

  lemma PrependPiece(p: string, t: seq<string>, u: seq<string>)
    ensures [p] + (t + u) == ([p] + t) + u
  {
  }

  lemma ExtendFirstPiece(c: char, t: seq<string>, u: seq<string>)
    requires |t| >= 1
    ensures [[c] + (t + u)[0]] + (t + u)[1..] == ([[c] + t[0]] + t[1..]) + u
  {
    assert (t + u)[1..] == t[1..] + u;
  }

  /** The pieces of a join split back into themselves when none holds the separator. */
  lemma {:induction false} SplitJoin(parts: seq<string>, sep: char)
    requires |parts| >= 1
    requires forall k :: 0 <= k < |parts| ==> sep !in parts[k]
    ensures Split(Join(parts, sep), sep) == parts
  {
    if |parts| == 1 {
      SplitNoSeparator(parts[0], sep);
    } else {
      SplitJoin(parts[1..], sep);
      SplitAround(parts[0], sep, Join(parts[1..], sep));
      SplitNoSeparator(parts[0], sep);
      assert [parts[0]] + parts[1..] == parts;
    }
  }

  /** Python's `s.split(sep)[-1]`. */
  function LastSegment(s: string, sep: char): (r: string)
    ensures sep !in r
  {
    SplitPiecesFree(s, sep);
    var parts := Split(s, sep);
    parts[|parts| - 1]
  }

  /** `LastSegment` is the longest separator-free suffix of `s`. */
  lemma {:induction false} LastSegmentIsSuffix(s: string, sep: char)
    ensures |LastSegment(s, sep)| <= |s|
    ensures s[|s| - |LastSegment(s, sep)|..] == LastSegment(s, sep)
    ensures |LastSegment(s, sep)| == |s| || s[|s| - |LastSegment(s, sep)| - 1] == sep
  {
    if sep !in s {
      SplitNoSeparator(s, sep);
    } else {
      LastSegmentIsSuffix(s[1..], sep);
      LastSegmentStep(s, sep);
    }
  }

  lemma LastSegmentStep(s: string, sep: char)
    requires sep in s
    requires var t := LastSegment(s[1..], sep);
             |t| <= |s| - 1 && s[1..][|s| - 1 - |t|..] == t
             && (|t| == |s| - 1 || s[1..][|s| - 1 - |t| - 1] == sep)
    ensures |LastSegment(s, sep)| <= |s|
    ensures s[|s| - |LastSegment(s, sep)|..] == LastSegment(s, sep)
    ensures |LastSegment(s, sep)| == |s| || s[|s| - |LastSegment(s, sep)| - 1] == sep
  {
    LastSegmentTail(s, sep);
    var t := LastSegment(s[1..], sep);
    assert s[1..][|s| - 1 - |t|..] == s[|s| - |t|..];
    if |t| == |s| - 1 {
      assert sep !in s[1..];
      assert s == [s[0]] + s[1..];
    }
  }

  /** Dropping a first character keeps the last segment when a separator remains. */
  lemma LastSegmentTail(s: string, sep: char)
    requires sep in s
    ensures LastSegment(s, sep) == LastSegment(s[1..], sep)
  {
    SplitCons(s, sep);
    if s[0] != sep {
      assert s == [s[0]] + s[1..];
      assert sep in s[1..];
      SplitSingleIff(s[1..], sep);
    }
  }

  /** After the last separator comes the last segment. */
  lemma LastSegmentAfter(a: string, sep: char, b: string)
    requires sep !in b
    ensures LastSegment(a + [sep] + b, sep) == b
  {
    SplitAround(a, sep, b);
    SplitNoSeparator(b, sep);
  }

  /** `p` occurs in `s` starting at index `i`. */
  predicate OccursAt(s: string, p: string, i: nat) {
    i + |p| <= |s| && s[i..i + |p|] == p
  }

  /** Python's `p in s` for strings. */
  predicate Contains(s: string, p: string)
    decreases |s|
  {
    |p| <= |s| && (s[..|p|] == p || Contains(s[1..], p))
  }

  /** `Contains` holds exactly when `p` occurs somewhere in `s`. */
  lemma {:induction false} ContainsIff(s: string, p: string)
    ensures Contains(s, p) <==> exists i: nat :: OccursAt(s, p, i)
  {
    if |p| <= |s| {
      if s[..|p|] == p {
        assert OccursAt(s, p, 0);
      } else {
        ContainsIff(s[1..], p);
        if Contains(s[1..], p) {
          var i: nat :| OccursAt(s[1..], p, i);
          assert s[i + 1..i + 1 + |p|] == s[1..][i..i + |p|];
          assert OccursAt(s, p, i + 1);
        }
        if i: nat :| OccursAt(s, p, i) {
          assert i != 0;
          assert s[1..][i - 1..i - 1 + |p|] == s[i..i + |p|];
          assert OccursAt(s[1..], p, i - 1);
        }
      }
    } else {
      if i: nat :| OccursAt(s, p, i) {
        assert false;
      }
    }
  }

  /** Python's `s.replace(pat, rep)`: every non-overlapping occurrence of `pat`,
      scanning from the left, becomes `rep`. */
  function ReplaceAll(s: string, pat: string, rep: string): string
    requires |pat| > 0
    decreases |s|
  {
    if |s| < |pat| then s
    else if s[..|pat|] == pat then rep + ReplaceAll(s[|pat|..], pat, rep)
    else [s[0]] + ReplaceAll(s[1..], pat, rep)
  }

  /** A string in which the first character of `pat` never occurs is left alone. */
  lemma {:induction false} ReplaceAllAbsent(s: string, pat: string, rep: string)
    requires |pat| > 0 && pat[0] !in s
    ensures ReplaceAll(s, pat, rep) == s
  {
    if |s| >= |pat| {
      assert s[..|pat|][0] == s[0];
      ReplaceAllAbsent(s[1..], pat, rep);
      assert s == [s[0]] + s[1..];
    }
  }

  /** No occurrence of `pat` spans a character that `pat` does not contain, so
      replacement works on either side of it independently. */
  lemma {:induction false} ReplaceAllAround(a: string, sep: char, b: string, pat: string, rep: string)
    requires |pat| > 0 && sep !in pat
    ensures ReplaceAll(a + [sep] + b, pat, rep)
         == ReplaceAll(a, pat, rep) + [sep] + ReplaceAll(b, pat, rep)
    decreases |a|
  {
    var s := a + [sep] + b;
    if |a| == 0 {
      assert s == [sep] + b;
      ReplaceAllSepFirst(sep, b, pat, rep);
    } else if |a| >= |pat| && a[..|pat|] == pat {
      ReplaceAllAround(a[|pat|..], sep, b, pat, rep);
      AroundMatch(a, sep, b, pat, rep);
    } else {
      ReplaceAllAround(a[1..], sep, b, pat, rep);
      AroundSkip(a, sep, b, pat, rep);
    }
  }

  lemma ReplaceAllSepFirst(sep: char, b: string, pat: string, rep: string)
    requires |pat| > 0 && sep !in pat
    ensures ReplaceAll([sep] + b, pat, rep) == [sep] + ReplaceAll(b, pat, rep)
  {
    var s := [sep] + b;
    if |s| >= |pat| {
      assert pat[0] in pat;
      assert s[..|pat|][0] == sep;
      assert s[1..] == b;
    }
  }

  lemma AroundMatch(a: string, sep: char, b: string, pat: string, rep: string)
    requires |pat| > 0 && |a| >= |pat| && a[..|pat|] == pat
    requires ReplaceAll(a[|pat|..] + [sep] + b, pat, rep)
          == ReplaceAll(a[|pat|..], pat, rep) + [sep] + ReplaceAll(b, pat, rep)
    ensures ReplaceAll(a + [sep] + b, pat, rep)
         == ReplaceAll(a, pat, rep) + [sep] + ReplaceAll(b, pat, rep)
  {
    var s := a + [sep] + b;
    assert s[..|pat|] == pat;
    assert s[|pat|..] == a[|pat|..] + [sep] + b;
  }

  lemma AroundSkip(a: string, sep: char, b: string, pat: string, rep: string)
    requires |pat| > 0 && sep !in pat && |a| > 0 && !(|a| >= |pat| && a[..|pat|] == pat)
    requires ReplaceAll(a[1..] + [sep] + b, pat, rep)
          == ReplaceAll(a[1..], pat, rep) + [sep] + ReplaceAll(b, pat, rep)
    ensures ReplaceAll(a + [sep] + b, pat, rep)
         == ReplaceAll(a, pat, rep) + [sep] + ReplaceAll(b, pat, rep)
  {
    SkipAcross(a, sep, b, pat, rep);
    ReplaceAllSkip(a, pat, rep);
  }

  lemma SkipAcross(a: string, sep: char, b: string, pat: string, rep: string)
    requires |pat| > 0 && sep !in pat && |a| > 0 && !(|a| >= |pat| && a[..|pat|] == pat)
    ensures ReplaceAll(a + [sep] + b, pat, rep) == [a[0]] + ReplaceAll(a[1..] + [sep] + b, pat, rep)
  {
    var s := a + [sep] + b;
    NoMatchAcross(a, sep, b, pat);
    ReplaceAllSkip(s, pat, rep);
    assert s[0] == a[0] && s[1..] == a[1..] + [sep] + b;
  }

  /** An occurrence of `pat` at the start of `a + [sep] + b` lies inside `a`. */
  lemma NoMatchAcross(a: string, sep: char, b: string, pat: string)
    requires |pat| > 0 && sep !in pat && !(|a| >= |pat| && a[..|pat|] == pat)
    ensures var s := a + [sep] + b; !(|s| >= |pat| && s[..|pat|] == pat)
  {
    var s := a + [sep] + b;
    if |s| >= |pat| && |a| >= |pat| {
      assert a[..|pat|] == s[..|pat|];
    } else if |s| >= |pat| {
      assert s[..|pat|][|a|] == sep;
    }
  }

  /** Where `pat` does not start, the first character is kept as it is. */
  lemma ReplaceAllSkip(s: string, pat: string, rep: string)
    requires |pat| > 0 && |s| > 0 && !(|s| >= |pat| && s[..|pat|] == pat)
    ensures ReplaceAll(s, pat, rep) == [s[0]] + ReplaceAll(s[1..], pat, rep)
  {
    if |s| < |pat| {
      ShortUnchanged(s[1..], pat, rep);
      assert s == [s[0]] + s[1..];
    }
  }

  /** A string shorter than `pat` is left alone. */
  lemma ShortUnchanged(s: string, pat: string, rep: string)
    requires |pat| > 0 && |s| < |pat|
    ensures ReplaceAll(s, pat, rep) == s
  {
  }
}
