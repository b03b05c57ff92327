/**
 The record parser of the command (`Command.parse`): a data file is read line by
 line; each line is stripped; a stripped line starting with `#` is a comment; the
 first line that is empty once stripped ends the file, whether it is the end of
 the file (where `readline` returns "") or a blank line in the middle; every other
 line yields its tab-separated fields, each stripped.
 */
module Parser {
  import opened Text

  type Record = seq<string>

  /** `[e.strip() for e in line.split('\t')]` */
  function Fields(line: string): (fields: Record)
    ensures |fields| >= 1
    ensures forall k :: 0 <= k < |fields| ==> IsStripped(fields[k]) && '\t' !in fields[k]
  {
    SplitPiecesFree(line, '\t');
    var raw := Split(line, '\t');
    var fields := seq(|raw|, k requires 0 <= k < |raw| => Strip(raw[k]));
    assert forall k :: 0 <= k < |fields| ==> '\t' !in fields[k] by {
      forall k | 0 <= k < |fields| {
        StripKeepsAbsent(raw[k], '\t');
      }
    }
    fields
  }

  /** Fields written out joined by tabs, none of them padded, parse back unchanged. */
  lemma FieldsJoin(fields: Record)
    requires |fields| >= 1
    requires forall k :: 0 <= k < |fields| ==> IsStripped(fields[k]) && '\t' !in fields[k]
    ensures Fields(Join(fields, '\t')) == fields
  {
    SplitJoin(fields, '\t');
    forall k | 0 <= k < |fields|
      ensures Fields(Join(fields, '\t'))[k] == fields[k]
    {
      StripStripped(fields[k]);
    }
  }

  /** A line whose stripped form starts with `#`. */
  predicate IsComment(line: string) {
    var t := Strip(line);
    |t| > 0 && t[0] == '#'
  }

  /** The records of a file given as its lines. */
  function Parse(lines: seq<string>): (records: seq<Record>)
    ensures |records| <= |lines|
  {
    if |lines| == 0 then []
    else
      var line := Strip(lines[0]);
      if |line| < 1 then []
      else if line[0] == '#' then Parse(lines[1..])
      else
        [Fields(line)] + Parse(lines[1..])
  }

  /** The first field of a stripped, non-empty line keeps the line's first character. */
  lemma FirstFieldStartsLine(line: string)
    requires |line| > 0 && IsStripped(line)
    ensures |Fields(line)[0]| > 0 && Fields(line)[0][0] == line[0]
  {
    var seg := Split(line, '\t')[0];
    assert seg[0] == line[0];
    assert !AllSpace(seg);
    var i := StripIsInfix(seg);
    assert !IsSpace(seg[0]);
    assert i == 0 by {
      assert forall j :: 0 < j <= |seg| ==> seg[..j][0] == seg[0];
    }
    assert Strip(seg)[0] == seg[0];
  }

  /** A line that is empty once stripped: the end of the file or a blank line. */
  predicate IsBlank(line: string) {
    |Strip(line)| == 0
  }

  /** Index of the first blank line, or the number of lines. */
  function StopIndex(lines: seq<string>): (n: nat)
    ensures n <= |lines|
    ensures forall k :: 0 <= k < n ==> !IsBlank(lines[k])
    ensures n < |lines| ==> IsBlank(lines[n])
  {
    if |lines| == 0 || IsBlank(lines[0]) then 0
    else
      var n := 1 + StopIndex(lines[1..]);
      assert forall k :: 1 <= k < |lines| ==> lines[k] == lines[1..][k - 1];
      n
  }

  /** The lines of `lines` that are not comments, in order. */
  function DropComments(lines: seq<string>): (kept: seq<string>)
    ensures |kept| <= |lines|
    ensures forall k :: 0 <= k < |kept| ==> !IsComment(kept[k]) && kept[k] in lines
  {
    if |lines| == 0 then []
    else (if IsComment(lines[0]) then [] else [lines[0]]) + DropComments(lines[1..])
  }

  /** The stripped, tab-split fields of each line. */
  function FieldsOfEach(lines: seq<string>): (records: seq<Record>)
    ensures |records| == |lines|
    ensures forall k :: 0 <= k < |lines| ==> records[k] == Fields(Strip(lines[k]))
  {
    if |lines| == 0 then [] else [Fields(Strip(lines[0]))] + FieldsOfEach(lines[1..])
  }

  /** Parsing is the pipeline: cut the file at its first blank line, drop the
      comment lines, split what remains into fields. */
  lemma {:induction false} ParseIsPipeline(lines: seq<string>)
    ensures Parse(lines) == FieldsOfEach(DropComments(lines[..StopIndex(lines)]))
  {
    if |lines| > 0 && !IsBlank(lines[0]) {
      ParseIsPipeline(lines[1..]);
      PipelineStep(lines);
    }
  }

  lemma PipelineStep(lines: seq<string>)
    requires |lines| > 0 && !IsBlank(lines[0])
    requires Parse(lines[1..]) == FieldsOfEach(DropComments(lines[1..][..StopIndex(lines[1..])]))
    ensures Parse(lines) == FieldsOfEach(DropComments(lines[..StopIndex(lines)]))
  {
    ParseStep(lines);
    var n := StopIndex(lines);
    DropCommentsStep(lines, n);
    var rest := DropComments(lines[1..][..n - 1]);
    if !IsComment(lines[0]) {
      FieldsOfEachStep(lines[0], rest);
    } else {
      assert DropComments(lines[..n]) == rest;
    }
  }

  /** Every record comes from a line that is neither blank nor a comment: its first
      field is non-empty and does not start with `#`. */
  lemma RecordsAreData(lines: seq<string>)
    ensures forall k :: 0 <= k < |Parse(lines)| ==>
              |Parse(lines)[k]| > 0 && |Parse(lines)[k][0]| > 0 && Parse(lines)[k][0][0] != '#'
  {
    ParseIsPipeline(lines);
    var kept := DropComments(lines[..StopIndex(lines)]);
    forall k | 0 <= k < |kept|
      ensures |Fields(Strip(kept[k]))[0]| > 0 && Fields(Strip(kept[k]))[0][0] != '#'
    {
      var j :| 0 <= j < StopIndex(lines) && lines[..StopIndex(lines)][j] == kept[k];
      assert !IsBlank(lines[j]);
      FirstFieldStartsLine(Strip(kept[k]));
    }
  }

  lemma DropCommentsStep(lines: seq<string>, n: nat)
    requires 0 < n <= |lines|
    ensures DropComments(lines[..n])
         == (if IsComment(lines[0]) then [] else [lines[0]]) + DropComments(lines[1..][..n - 1])
  {
    assert lines[..n][1..] == lines[1..][..n - 1];
  }

  lemma FieldsOfEachStep(line: string, rest: seq<string>)
    ensures FieldsOfEach([line] + rest) == [Fields(Strip(line))] + FieldsOfEach(rest)
  {
    assert ([line] + rest)[1..] == rest;
  }

  /** One step of `Parse`, stated with the line predicates. */
  lemma ParseStep(lines: seq<string>)
    requires |lines| > 0
    ensures IsBlank(lines[0]) ==> Parse(lines) == []
    ensures !IsBlank(lines[0]) && IsComment(lines[0]) ==> Parse(lines) == Parse(lines[1..])
    ensures !IsBlank(lines[0]) && !IsComment(lines[0]) ==>
              Parse(lines) == [Fields(Strip(lines[0]))] + Parse(lines[1..])
  {
  }

  /** Nothing after a line that is empty once stripped is ever parsed. */
  lemma {:induction false} ParseStopsAtBlank(lines: seq<string>, i: nat)
    requires i < |lines| && IsBlank(lines[i])
    ensures Parse(lines) == Parse(lines[..i])
  {
    ParseStep(lines);
    if i > 0 {
      ParseStep(lines[..i]);
      assert lines[..i][0] == lines[0];
      if !IsBlank(lines[0]) {
        assert lines[1..][..i - 1] == lines[..i][1..];
        ParseStopsAtBlank(lines[1..], i - 1);
      }
    }
  }
}
