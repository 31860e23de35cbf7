/**
 * TableExtractor: finds the header line of the results table inside the free-form export,
 * splits the header and the body lines, drops blank lines and repeated header or footer
 * lines, and turns each surviving line into a row keyed by the trimmed header names.
 */
module TableExtractor {
  import opened Strings
  import opened Tokenizer

  /** One data row: trimmed header name to trimmed cell text. */
  type Row = map<string, string>

  datatype RawTable = RawTable(headers: seq<string>, rows: seq<Row>)

  /** `replace(/\r\n?/g, "\n")`: a CR LF pair or a lone CR becomes LF. */
  function NormalizeNewlines(text: string): (r: string)
    ensures '\r' !in r
  {
    if text == [] then []
    else if text[0] == '\r' then
      "\n" + NormalizeNewlines(if |text| > 1 && text[1] == '\n' then text[2..] else text[1..])
    else [text[0]] + NormalizeNewlines(text[1..])
  }

  /** The lines of the export; `split` never yields an empty array. */
  function Lines(text: string): (r: seq<string>)
    ensures |r| >= 1
  {
    Split(NormalizeNewlines(text), '\n')
  }

  /** The header test: the raw line mentions (Simidrottare or Namn), Gren and Tid. */
  predicate IsHeaderLine(line: string) {
    (Contains(line, "Simidrottare") || Contains(line, "Namn")) && Contains(line, "Gren") && Contains(line, "Tid")
  }

  /** The index of the first header line, or -1 when there is none. */
  function HeaderIndexOf(lines: seq<string>): (r: int)
    ensures -1 <= r < |lines|
    ensures r >= 0 ==> IsHeaderLine(lines[r]) && forall j :: 0 <= j < r ==> !IsHeaderLine(lines[j])
    ensures r == -1 ==> forall j :: 0 <= j < |lines| ==> !IsHeaderLine(lines[j])
  {
    if lines == [] then -1
    else if IsHeaderLine(lines[0]) then 0
    else
      var r := HeaderIndexOf(lines[1..]);
      assert forall j :: 1 <= j < |lines| ==> lines[j] == lines[1..][j - 1];
      if r == -1 then -1 else r + 1
  }

  /** The set of trimmed header names, against which body cells are compared. */
  function HeaderSet(hdrs: seq<string>): set<string> {
    if hdrs == [] then {} else HeaderSet(hdrs[..|hdrs| - 1]) + {Trim(hdrs[|hdrs| - 1])}
  }

  /** How many cells of a body line equal (after trimming) some header name. */
  function HeaderHits(hs: set<string>, cols: seq<string>): nat {
    if cols == [] then 0
    else HeaderHits(hs, cols[..|cols| - 1]) + (if Trim(cols[|cols| - 1]) in hs then 1 else 0)
  }

  predicate HasContent(cols: seq<string>) {
    exists k | 0 <= k < |cols| :: Trim(cols[k]) != ""
  }

  /** `cols[0] || ""`. */
  function FirstCell(cols: seq<string>): string {
    if |cols| > 0 then cols[0] else ""
  }

  /** The two body filters: some cell is non-blank, fewer than 3 header hits, not a `Placering` line. */
  predicate Keep(hs: set<string>, cols: seq<string>) {
    HasContent(cols) && HeaderHits(hs, cols) < 3 && Trim(FirstCell(cols)) != "Placering"
  }

  /** The fields of the body lines that survive the filters, in input order. */
  function KeptFields(hs: set<string>, lines: seq<string>, d: char): (r: seq<seq<string>>)
    ensures |r| <= |lines|
    ensures forall k :: 0 <= k < |r| ==> Keep(hs, r[k])
  {
    if lines == [] then []
    else
      var init := KeptFields(hs, lines[..|lines| - 1], d);
      var cols := Fields(lines[|lines| - 1], d);
      if Keep(hs, cols) then init + [cols] else init
  }

  /** `cols[i] ?? ""`. */
  function Cell(cols: seq<string>, i: nat): string {
    if i < |cols| then cols[i] else ""
  }

  /** The last column whose trimmed header name is `key`, or -1. */
  function LastIndexOfKey(hdrs: seq<string>, key: string): (r: int)
    ensures -1 <= r < |hdrs|
    ensures r >= 0 ==> Trim(hdrs[r]) == key && forall j :: r < j < |hdrs| ==> Trim(hdrs[j]) != key
    ensures r == -1 ==> forall j :: 0 <= j < |hdrs| ==> Trim(hdrs[j]) != key
  {
    if hdrs == [] then -1
    else if Trim(hdrs[|hdrs| - 1]) == key then |hdrs| - 1
    else LastIndexOfKey(hdrs[..|hdrs| - 1], key)
  }

  /**
   * The row object of one body line, filled column by column as the `forEach` does:
   * each column writes its cell under its trimmed header name.
   */
  function RowOf(hdrs: seq<string>, cols: seq<string>): (r: Row)
    ensures r.Keys == HeaderSet(hdrs)
  {
    if hdrs == [] then map[]
    else
      var i := |hdrs| - 1;
      RowOf(hdrs[..i], cols)[Trim(hdrs[i]) := Trim(Cell(cols, i))]
  }

  /**
   * The value under a header name comes from the LAST column with that name.
   */
  lemma {:induction false} RowOfLastColumnWins(hdrs: seq<string>, cols: seq<string>, i: nat)
    requires i < |hdrs|
    requires forall j :: i < j < |hdrs| ==> Trim(hdrs[j]) != Trim(hdrs[i])
    ensures Trim(hdrs[i]) in RowOf(hdrs, cols)
    ensures RowOf(hdrs, cols)[Trim(hdrs[i])] == Trim(Cell(cols, i))
    decreases |hdrs|
  {
    var n := |hdrs| - 1;
    var key := Trim(hdrs[i]);
    if i < n {
      assert forall j :: i < j < n ==> hdrs[..n][j] == hdrs[j];
      RowOfLastColumnWins(hdrs[..n], cols, i);
      assert hdrs[..n][i] == hdrs[i];
      RowOfOtherKey(hdrs, cols, key);
    }
  }

  /** A line shorter than the column gives that column's name the empty value. */
  lemma RowOfShortLine(hdrs: seq<string>, cols: seq<string>, i: nat)
    requires |cols| <= i < |hdrs|
    requires forall j :: i < j < |hdrs| ==> Trim(hdrs[j]) != Trim(hdrs[i])
    ensures Trim(hdrs[i]) in RowOf(hdrs, cols) && RowOf(hdrs, cols)[Trim(hdrs[i])] == ""
  {
    RowOfLastColumnWins(hdrs, cols, i);
    var e := Cell(cols, i);
    assert e == "";
  }

  /** Writing the last column leaves every other name's value as it was. */
  lemma RowOfOtherKey(hdrs: seq<string>, cols: seq<string>, key: string)
    requires hdrs != [] && Trim(hdrs[|hdrs| - 1]) != key
    requires key in RowOf(hdrs[..|hdrs| - 1], cols)
    ensures key in RowOf(hdrs, cols) && RowOf(hdrs, cols)[key] == RowOf(hdrs[..|hdrs| - 1], cols)[key]
  {
  }

  /** The row objects of the kept lines, one per line and in the same order. */
  function RowsOf(hdrs: seq<string>, kept: seq<seq<string>>): (r: seq<Row>)
    ensures |r| == |kept|
  {
    seq(|kept|, k requires 0 <= k < |kept| => RowOf(hdrs, kept[k]))
  }

  lemma RowsOfSnoc(hdrs: seq<string>, kept: seq<seq<string>>, cols: seq<string>)
    ensures RowsOf(hdrs, kept + [cols]) == RowsOf(hdrs, kept) + [RowOf(hdrs, cols)]
  {
    var a, b := RowsOf(hdrs, kept + [cols]), RowsOf(hdrs, kept) + [RowOf(hdrs, cols)];
    forall k | 0 <= k < |a|
      ensures a[k] == b[k]
    {
      if k < |kept| {
        assert (kept + [cols])[k] == kept[k];
      }
    }
  }

  /** The whole of `findTableStartAndParse`, stated on values. */
  function TableOf(text: string): (t: RawTable)
    ensures |t.headers| >= 1
    ensures forall k :: 0 <= k < |t.rows| ==> t.rows[k].Keys == HeaderSet(t.headers)
  {
    var d := DetectDelimiter(text[..if |text| < 2000 then |text| else 2000]);
    var lines := Lines(text);
    var idx := HeaderIndexOf(lines);
    var all := if idx >= 0 then lines[idx..] else lines;
    var hdrs := Fields(all[0], d);
    RawTable(hdrs, RowsOf(hdrs, KeptFields(HeaderSet(hdrs), all[1..], d)))
  }

  /** Filtering distributes over concatenation: surviving lines keep their input order. */
  lemma {:induction false} KeptFieldsAppend(hs: set<string>, a: seq<string>, b: seq<string>, d: char)
    ensures KeptFields(hs, a + b, d) == KeptFields(hs, a, d) + KeptFields(hs, b, d)
    decreases |b|
  {
    if b == [] {
      assert a + b == a;
    } else {
      var b' := b[..|b| - 1];
      assert (a + b)[..|a + b| - 1] == a + b';
      assert (a + b)[|a + b| - 1] == b[|b| - 1];
      KeptFieldsAppend(hs, a, b', d);
    }
  }

  /** A single line survives exactly when its fields pass the filters. */
  lemma KeptFieldsSingle(hs: set<string>, line: string, d: char)
    ensures KeptFields(hs, [line], d) == if Keep(hs, Fields(line, d)) then [Fields(line, d)] else []
  {
    assert [line][..0] == [];
  }

  lemma KeptStep(hs: set<string>, lines: seq<string>, i: nat, d: char)
    requires i < |lines|
    ensures KeptFields(hs, lines[..i + 1], d) ==
      KeptFields(hs, lines[..i], d) + if Keep(hs, Fields(lines[i], d)) then [Fields(lines[i], d)] else []
  {
    assert lines[..i + 1][..i] == lines[..i];
  }

  /** The header-search loop of `findTableStartAndParse`. */
  method FindHeader(lines: seq<string>) returns (idx: int)
    ensures idx == HeaderIndexOf(lines)
  {
    idx := -1;
    for i := 0 to |lines|
      invariant idx == -1
      invariant forall j :: 0 <= j < i ==> !IsHeaderLine(lines[j])
    {
      if IsHeaderLine(lines[i]) {
        idx := i;
        break;
      }
    }
  }

  /** The header-hit counter loop: how many cells name a header. */
  method CountHeaderHits(hs: set<string>, cols: seq<string>) returns (hits: nat)
    ensures hits == HeaderHits(hs, cols)
  {
    hits := 0;
    for i := 0 to |cols|
      invariant hits == HeaderHits(hs, cols[..i])
    {
      assert cols[..i + 1][..i] == cols[..i];
      if Trim(cols[i]) in hs {
        hits := hits + 1;
      }
    }
    assert cols[..|cols|] == cols;
  }

  /** The `forEach` that fills one row object, column by column. */
  method BuildRow(hdrs: seq<string>, cols: seq<string>) returns (row: Row)
    ensures row == RowOf(hdrs, cols)
  {
    row := map[];
    for i := 0 to |hdrs|
      invariant row == RowOf(hdrs[..i], cols)
    {
      assert hdrs[..i + 1][..i] == hdrs[..i];
      row := row[Trim(hdrs[i]) := Trim(Cell(cols, i))];
    }
    assert hdrs[..|hdrs|] == hdrs;
  }

  /** One body line: split it and decide whether it survives the two filters. */
  method ParseLine(hs: set<string>, line: string, d: char) returns (cols: seq<string>, keep: bool)
    ensures cols == Fields(line, d)
    ensures keep == Keep(hs, cols)
  {
    cols := SmartSplit(line, d);
    keep := false;
    if HasContent(cols) {
      var hits := CountHeaderHits(hs, cols);
      keep := hits < 3 && Trim(FirstCell(cols)) != "Placering";
    }
  }

  /** The body loop of `findTableStartAndParse`: one row object per surviving line. */
  method ParseBody(hdrs: seq<string>, body: seq<string>, d: char) returns (rows: seq<Row>)
    ensures rows == RowsOf(hdrs, KeptFields(HeaderSet(hdrs), body, d))
  {
    var hs := HeaderSet(hdrs);
    rows := [];
    ghost var kept: seq<seq<string>> := [];
    for i := 0 to |body|
      invariant kept == KeptFields(hs, body[..i], d)
      invariant rows == RowsOf(hdrs, kept)
    {
      KeptStep(hs, body, i, d);
      var cols, keep := ParseLine(hs, body[i], d);
      if keep {
        var row := BuildRow(hdrs, cols);
        RowsOfSnoc(hdrs, kept, cols);
        rows := rows + [row];
        kept := kept + [cols];
      }
    }
    assert body[..|body|] == body;
  }

  /**
   * `findTableStartAndParse`: detect the delimiter on the first 2000 characters, find the
   * header line (line 0 when none matches), then split, filter and zip the body lines.
   */
  method FindTableStartAndParse(text: string) returns (t: RawTable)
    ensures t == TableOf(text)
  {
    var d := DetectDelimiter(text[..if |text| < 2000 then |text| else 2000]);
    var lines := Lines(text);
    var idx := FindHeader(lines);
    var all := if idx >= 0 then lines[idx..] else lines;
    var hdrs := SmartSplit(all[0], d);
    var rows := ParseBody(hdrs, all[1..], d);
    t := RawTable(hdrs, rows);
  }
}
