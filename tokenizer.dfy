/**
 * Tokenizer: choosing the delimiter of the export and splitting one line into fields,
 * where a double quote toggles a quoted section and is itself dropped.
 */
module Tokenizer {
  import opened Strings

  /**
   * `detectDelimiter`: the semicolon unless commas strictly outnumber semicolons.
   * The chosen delimiter is always at least as frequent as the other one.
   */
  function DetectDelimiter(sample: string): (d: char)
    ensures d == ';' || d == ','
    ensures multiset(sample)[d] >= multiset(sample)[if d == ';' then ',' else ';']
    ensures d == ',' ==> multiset(sample)[','] > multiset(sample)[';']
  {
    if multiset(sample)[';'] >= multiset(sample)[','] then ';' else ','
  }

  /** After reading `prefix`, the scan is inside quotes iff it has seen an odd number of `"`. */
  predicate InQuotes(prefix: string) {
    multiset(prefix)['"'] % 2 == 1
  }

  /** The positions of `line` where the scan cuts a field: the delimiter outside quotes. */
  function UnquotedDelimiters(line: string, d: char): set<nat> {
    set i: nat | i < |line| && line[i] == d && d != '"' && !InQuotes(line[..i])
  }

  /** The line with every double quote removed. */
  function Unquoted(line: string): string {
    Filter(line, c => c != '"')
  }

  /**
   * The untrimmed fields that the character scan of `smartSplit` accumulates over `line`:
   * a quote is dropped, an unquoted delimiter starts a new field, anything else extends
   * the current (last) field.
   */
  function Segments(line: string, d: char): (r: seq<string>)
    ensures |r| >= 1
    ensures forall k :: 0 <= k < |r| ==> '"' !in r[k]
    decreases |line|
  {
    if line == [] then [""]
    else
      var prefix := line[..|line| - 1];
      var c := line[|line| - 1];
      var init := Segments(prefix, d);
      if c == '"' then init
      else if c == d && !InQuotes(prefix) then init + [""]
      else init[..|init| - 1] + [init[|init| - 1] + [c]]
  }

  function TrimAll(ss: seq<string>): (r: seq<string>)
    ensures |r| == |ss|
  {
    seq(|ss|, k requires 0 <= k < |ss| => Trim(ss[k]))
  }

  /** The fields of `line` as `smartSplit` returns them. */
  function Fields(line: string, d: char): (r: seq<string>)
    ensures |r| >= 1
  {
    TrimAll(Segments(line, d))
  }

  /** `replace(/^"|"$/g, "")`: drops one leading and one trailing double quote. */
  function StripEdgeQuotes(s: string): string {
    var a := if |s| > 0 && s[0] == '"' then s[1..] else s;
    if |a| > 0 && a[|a| - 1] == '"' then a[..|a| - 1] else a
  }

  /** There is one more field than there are delimiters outside quotes. */
  lemma {:induction false} SegmentCount(line: string, d: char)
    ensures |Segments(line, d)| == |UnquotedDelimiters(line, d)| + 1
    decreases |line|
  {
    if line == [] {
      assert UnquotedDelimiters(line, d) == {};
    } else {
      var prefix := line[..|line| - 1];
      SegmentCount(prefix, d);
      UnquotedDelimitersSnoc(line, d);
    }
  }

  /** Reading one more character adds its position to the cuts exactly when it is a cut. */
  lemma UnquotedDelimitersSnoc(line: string, d: char)
    requires line != []
    ensures var prefix := line[..|line| - 1];
      var cut := line[|line| - 1] == d && d != '"' && !InQuotes(prefix);
      UnquotedDelimiters(line, d) == UnquotedDelimiters(prefix, d) + if cut then {|prefix|} else {}
  {
    var prefix := line[..|line| - 1];
    assert forall i :: 0 <= i < |prefix| ==> line[..i] == prefix[..i];
  }

  lemma JoinExtendLast(parts: seq<string>, x: string, sep: string)
    requires parts != []
    ensures Join(parts[..|parts| - 1] + [parts[|parts| - 1] + x], sep) == Join(parts, sep) + x
  {
    var n := |parts|;
    if n > 1 {
      var init := parts[..n - 1];
      assert parts == init + [parts[n - 1]];
      JoinSnoc(init, parts[n - 1] + x, sep);
      JoinSnoc(init, parts[n - 1], sep);
    }
  }

  /**
   * Joining the fields with the delimiter gives back the line without its quotes:
   * the split loses nothing but the quote characters and the cutting delimiters.
   */
  lemma {:induction false} SegmentsJoin(line: string, d: char)
    ensures Join(Segments(line, d), [d]) == Unquoted(line)
    decreases |line|
  {
    if line != [] {
      var prefix := line[..|line| - 1];
      var c := line[|line| - 1];
      var init := Segments(prefix, d);
      SegmentsJoin(prefix, d);
      assert line == prefix + [c];
      if c == '"' {
      } else if c == d && !InQuotes(prefix) {
        JoinSnoc(init, "", [d]);
      } else {
        JoinExtendLast(init, [c], [d]);
      }
    }
  }

  lemma TrimAllSnoc(ss: seq<string>, x: string)
    ensures TrimAll(ss + [x]) == TrimAll(ss) + [Trim(x)]
  {
    var a, b := TrimAll(ss + [x]), TrimAll(ss) + [Trim(x)];
    forall k | 0 <= k < |a|
      ensures a[k] == b[k]
    {
      if k < |ss| {
        assert (ss + [x])[k] == ss[k];
      }
    }
  }

  /** One step of the scan, read off the definition of `Segments`. */
  lemma ScanStep(line: string, i: nat, d: char)
    requires i < |line|
    ensures InQuotes(line[..i + 1]) == (if line[i] == '"' then !InQuotes(line[..i]) else InQuotes(line[..i]))
    ensures var init := Segments(line[..i], d);
      Segments(line[..i + 1], d) ==
        if line[i] == '"' then init
        else if line[i] == d && !InQuotes(line[..i]) then init + [""]
        else init[..|init| - 1] + [init[|init| - 1] + [line[i]]]
  {
    assert line[..i + 1] == line[..i] + [line[i]];
    assert line[..i + 1][..i] == line[..i];
  }

  lemma QuoteFreeField(x: string)
    requires '"' !in x
    ensures Trim(StripEdgeQuotes(Trim(x))) == Trim(x)
    ensures '"' !in Trim(x)
  {
    var t := Trim(x);
    if '"' in t {
      TrimChars(x, '"');
    }
    assert StripEdgeQuotes(t) == t;
    TrimOfTrimmed(t);
  }

  /** The final `map` of `smartSplit` changes nothing: the fields hold no quotes. */
  lemma CleanFields(line: string, d: char)
    ensures var f := Fields(line, d);
      seq(|f|, k requires 0 <= k < |f| => Trim(StripEdgeQuotes(f[k]))) == f
    ensures |Fields(line, d)| == |UnquotedDelimiters(line, d)| + 1
    ensures forall k :: 0 <= k < |Fields(line, d)| ==> IsTrimmed(Fields(line, d)[k]) && '"' !in Fields(line, d)[k]
  {
    var raw := Segments(line, d);
    var f := Fields(line, d);
    forall k | 0 <= k < |f|
      ensures Trim(StripEdgeQuotes(f[k])) == f[k] && '"' !in f[k]
    {
      QuoteFreeField(raw[k]);
    }
    SegmentCount(line, d);
  }

  /**
   * `smartSplit`: the character loop over `line`. The result has one field per unquoted
   * delimiter plus one; every field is trimmed and free of double quotes.
   */
  method SmartSplit(line: string, d: char) returns (cols: seq<string>)
    ensures cols == Fields(line, d)
    ensures |cols| == |UnquotedDelimiters(line, d)| + 1
    ensures forall k :: 0 <= k < |cols| ==> IsTrimmed(cols[k]) && '"' !in cols[k]
  {
    cols := [];
    var cur := "";
    var inQuotes := false;
    ghost var raw: seq<string> := [];
    for i := 0 to |line|
      invariant Segments(line[..i], d) == raw + [cur]
      invariant cols == TrimAll(raw)
      invariant inQuotes == InQuotes(line[..i])
    {
      var ch := line[i];
      ScanStep(line, i, d);
      if ch == '"' {
        inQuotes := !inQuotes;
        continue;
      }
      if ch == d && !inQuotes {
        TrimAllSnoc(raw, cur);
        cols := cols + [Trim(cur)];
        raw := raw + [cur];
        cur := "";
      } else {
        cur := cur + [ch];
      }
    }
    assert line[..|line|] == line;
    TrimAllSnoc(raw, cur);
    cols := cols + [Trim(cur)];
    raw := raw + [cur];
    cols := seq(|cols|, k requires 0 <= k < |cols| => Trim(StripEdgeQuotes(cols[k])));
    CleanFields(line, d);
  }
}
