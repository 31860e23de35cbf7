/**
 * Aggregation: the body of `onValidate`. It reads the table, resolves the columns, folds the
 * rows into one record per swimmer (gender, age, best time per event text and per event key)
 * and counts the swimmers by gender.
 */
module Aggregation {
  import opened Wrappers
  import opened Strings
  import opened TableExtractor
  import opened ColumnResolver
  import opened EventNormalizer
  import opened TimeCodec
  import opened GenderClassifier

  /** A stored best time: the seconds and their display text. */
  datatype Entry = Entry(timeSec: real, timeStr: string)

  /**
   * A swimmer's record. `age` is None where the program stores "" (no finite age); `nbest` is
   * keyed by the event keys, whose key strings `KeyName` gives.
   */
  datatype Record = Record(gender: string, age: Option<int>, best: map<string, Entry>, nbest: map<EventKey, Entry>)

  datatype Summary = Summary(swimmers: nat, dam: nat, herr: nat)

  /** The resolved columns: the three required ones and the four optional ones. */
  datatype Columns = Columns(name: string, event: string, time: string,
                             gender: Option<string>, age: Option<string>,
                             born: Option<string>, date: Option<string>)

  /** What validation ends with: one error message, or the table, the records and the counts. */
  datatype Validation =
    | Failure(message: string)
    | Success(table: RawTable, best: map<string, Record>, summary: Summary)

  const NoFileMessage: string := "Ingen fil inläst. Ladda upp en CSV först."
  const NoTableMessage: string := "Kunde inte hitta tabell i filen."
  const MissingPrefix: string := "Saknar obligatoriska kolumner: "

  /** `r[col] || ""`. */
  function CellOf(r: Row, col: string): string {
    if col in r then r[col] else ""
  }

  /**
   * `Number(text)` on the texts this model reads as numbers: surrounding white space is
   * ignored, a blank text is 0, a run of digits is its value, anything else is not a number.
   */
  function NumberOf(s: string): (r: Option<int>)
    ensures r.Some? ==> r.value >= 0
    ensures Trim(s) == [] ==> r == Some(0)
  {
    var t := Trim(s);
    if AllDigits(t) then Some(DigitsValue(t)) else None
  }

  /** `String(x).slice(0, 4)`. */
  function Prefix4(s: string): string {
    if |s| <= 4 then s else s[..4]
  }

  /** The digits of a text, in order: `replace(/[^0-9]/g, "")`. */
  function DigitsOf(s: string): (r: string)
    ensures AllDigits(r)
  {
    var r := Filter(s, IsDigit);
    assert forall i :: 0 <= i < |r| ==> r[i] in r;
    r
  }

  /**
   * The age a row gives: with an age column, the number its digits spell (0 when it has
   * none); without one, the competition year less the birth year, each read from the first
   * four characters of its column, when both read as numbers.
   */
  function RowAge(r: Row, cols: Columns): (a: Option<int>)
    ensures cols.age.Some? ==> a.Some? && a.value >= 0
  {
    if cols.age.Some? then Some(DigitsValue(DigitsOf(CellOf(r, cols.age.value))))
    else
      var bornYear := if cols.born.Some? then NumberOf(Prefix4(CellOf(r, cols.born.value))) else None;
      var dateYear := if cols.date.Some? then NumberOf(Prefix4(CellOf(r, cols.date.value))) else None;
      if bornYear.Some? && dateYear.Some? then Some(dateYear.value - bornYear.value) else None
  }

  /**
   * What the fold reads from one row: the trimmed name, event, time and gender cells, the
   * parsed time and its display text, the age and the event key.
   */
  datatype RowView = RowView(name: string, event: string, time: string, gender: string,
                             sec: Option<real>, text: string, age: Option<int>,
                             key: Option<EventKey>)

  function View(r: Row, cols: Columns): RowView {
    var time := Trim(CellOf(r, cols.time));
    var sec := ParseTimeToSeconds(time);
    RowView(Trim(CellOf(r, cols.name)), Trim(CellOf(r, cols.event)), time,
            if cols.gender.Some? then Trim(CellOf(r, cols.gender.value)) else "",
            sec, FormatTime(sec), RowAge(r, cols), NormalizeEvent(Trim(CellOf(r, cols.event))))
  }

  /** The rows read one by one, in order. */
  function Views(rows: seq<Row>, cols: Columns): (vs: seq<RowView>)
    ensures |vs| == |rows|
  {
    if rows == [] then [] else Views(rows[..|rows| - 1], cols) + [View(rows[|rows| - 1], cols)]
  }

  /** Each row is read on its own: the k-th view is the view of the k-th row. */
  lemma {:induction false} ViewsAt(rows: seq<Row>, cols: Columns, k: int)
    requires 0 <= k < |rows|
    ensures Views(rows, cols)[k] == View(rows[k], cols)
    decreases |rows|
  {
    var front := rows[..|rows| - 1];
    assert Views(rows, cols) == Views(front, cols) + [View(rows[|rows| - 1], cols)];
    if k < |rows| - 1 {
      ViewsAt(front, cols, k);
      assert front[k] == rows[k];
    }
  }

  /** An empty row: no name, no event and no time. It is skipped. */
  predicate Blank(v: RowView) {
    v.name == "" && v.event == "" && v.time == ""
  }

  /** A row that competes for best times: a name, an event and a finite time. */
  predicate Timed(v: RowView) {
    v.name != "" && v.event != "" && v.sec.Some?
  }

  /** Age "" and age 0 both count as unset. */
  predicate AgeUnset(a: Option<int>) {
    a.None? || a.value == 0
  }

  /** Keep the faster time: an entry is replaced only by a strictly smaller one. */
  function Improve<K>(m: map<K, Entry>, k: K, sec: real, text: string): map<K, Entry> {
    if k !in m || sec < m[k].timeSec then m[k := Entry(sec, text)] else m
  }

  /** A timed row's effect on its swimmer's record: best times kept, gender and age backfilled. */
  function Absorb(rec: Record, v: RowView): Record
    requires Timed(v)
  {
    Record(
      if rec.gender == "" && v.gender != "" then v.gender else rec.gender,
      if AgeUnset(rec.age) && v.age.Some? then v.age else rec.age,
      Improve(rec.best, v.event, v.sec.value, v.text),
      if v.key.Some? then Improve(rec.nbest, v.key.value, v.sec.value, v.text) else rec.nbest)
  }

  /** One row of the fold: a non-empty row creates its swimmer's record, a timed row updates it. */
  function Step(best: map<string, Record>, v: RowView): map<string, Record> {
    if Blank(v) then best
    else
      var rec := if v.name in best then best[v.name] else Record(v.gender, v.age, map[], map[]);
      best[v.name := if Timed(v) then Absorb(rec, v) else rec]
  }

  /** The rows folded, in order, into the records. */
  function FoldFrom(best: map<string, Record>, vs: seq<RowView>): map<string, Record> {
    if vs == [] then best else Step(FoldFrom(best, vs[..|vs| - 1]), vs[|vs| - 1])
  }

  /** Where a best time is stored: under the event text in `best`, or under an event key in `nbest`. */
  datatype Slot = Label(event: string) | Key(key: EventKey)

  /** The row competes for this slot of this swimmer. */
  predicate Feeds(v: RowView, name: string, slot: Slot) {
    Timed(v) && v.name == name
    && match slot
       case Label(e) => v.event == e
       case Key(k) => v.key == Some(k)
  }

  /** The entry stored in a slot, if any. */
  function Stored(best: map<string, Record>, name: string, slot: Slot): Option<Entry> {
    if name !in best then None
    else
      match slot
      case Label(e) => if e in best[name].best then Some(best[name].best[e]) else None
      case Key(k) => if k in best[name].nbest then Some(best[name].nbest[k]) else None
  }

  /** What a row does to the entry of a slot: a feeding row with a strictly faster time replaces it. */
  function Next(e: Option<Entry>, v: RowView, name: string, slot: Slot): Option<Entry> {
    if Feeds(v, name, slot) && (e.None? || v.sec.value < e.value.timeSec)
    then Some(Entry(v.sec.value, v.text))
    else e
  }

  /** A row changes no slot but the one it feeds, and that one as `Next` says. */
  lemma StepSlot(best: map<string, Record>, v: RowView, name: string, slot: Slot)
    ensures Stored(Step(best, v), name, slot) == Next(Stored(best, name, slot), v, name, slot)
  {
  }

  /**
   * Row `i` feeds the slot, is strictly faster than every earlier row that feeds it and no
   * slower than every later one.
   */
  predicate FirstFastest(vs: seq<RowView>, name: string, slot: Slot, i: int)
    requires 0 <= i < |vs|
  {
    Feeds(vs[i], name, slot)
    && (forall j :: 0 <= j < i && Feeds(vs[j], name, slot) ==> vs[i].sec.value < vs[j].sec.value)
    && (forall j :: i < j < |vs| && Feeds(vs[j], name, slot) ==> vs[i].sec.value <= vs[j].sec.value)
  }

  /**
   * `e` is the best time the rows give a slot: nothing when no row feeds it, otherwise the
   * time and text of the first row with the least time.
   */
  predicate IsBestOf(vs: seq<RowView>, name: string, slot: Slot, e: Option<Entry>) {
    (e.None? <==> forall j :: 0 <= j < |vs| ==> !Feeds(vs[j], name, slot))
    && (e.Some? ==> exists i :: 0 <= i < |vs| && FirstFastest(vs, name, slot, i)
                               && e.value == Entry(vs[i].sec.value, vs[i].text))
  }

  /** A row no faster than the first fastest leaves it first fastest. */
  lemma KeepFastest(vs: seq<RowView>, v: RowView, name: string, slot: Slot, i: int)
    requires 0 <= i < |vs| && FirstFastest(vs, name, slot, i)
    requires Feeds(v, name, slot) ==> vs[i].sec.value <= v.sec.value
    ensures FirstFastest(vs + [v], name, slot, i)
  {
    var w := vs + [v];
    assert forall j :: 0 <= j < |vs| ==> w[j] == vs[j];
    assert w[|vs|] == v;
  }

  /** A feeding row faster than every earlier feeding row becomes the first fastest. */
  lemma NewFastest(vs: seq<RowView>, v: RowView, name: string, slot: Slot)
    requires Feeds(v, name, slot)
    requires forall j :: 0 <= j < |vs| && Feeds(vs[j], name, slot) ==> v.sec.value < vs[j].sec.value
    ensures FirstFastest(vs + [v], name, slot, |vs|)
  {
    var w := vs + [v];
    assert forall j :: 0 <= j < |vs| ==> w[j] == vs[j];
  }

  /** One more row keeps the best time right. */
  lemma NextIsBest(vs: seq<RowView>, v: RowView, name: string, slot: Slot, e: Option<Entry>)
    requires IsBestOf(vs, name, slot, e)
    ensures IsBestOf(vs + [v], name, slot, Next(e, v, name, slot))
  {
    var w := vs + [v];
    var n := |vs|;
    assert forall j :: 0 <= j < n ==> w[j] == vs[j];
    assert w[n] == v;
    if e.Some? {
      var i :| 0 <= i < n && FirstFastest(vs, name, slot, i) && e.value == Entry(vs[i].sec.value, vs[i].text);
      if Feeds(v, name, slot) && v.sec.value < e.value.timeSec {
        NewFastest(vs, v, name, slot);
      } else {
        KeepFastest(vs, v, name, slot, i);
      }
    } else if Feeds(v, name, slot) {
      NewFastest(vs, v, name, slot);
    }
  }

  /**
   * Each stored best time is the least time over the rows that fed its slot, with the text of
   * the first row to reach it (a tie does not replace it); a slot no row fed stays empty.
   */
  lemma {:induction false} BestIsMinimum(vs: seq<RowView>, name: string, slot: Slot)
    ensures IsBestOf(vs, name, slot, Stored(FoldFrom(map[], vs), name, slot))
    decreases |vs|
  {
    if vs != [] {
      var n := |vs| - 1;
      var pre := vs[..n];
      BestIsMinimum(pre, name, slot);
      StepSlot(FoldFrom(map[], pre), vs[n], name, slot);
      NextIsBest(pre, vs[n], name, slot, Stored(FoldFrom(map[], pre), name, slot));
      assert pre + [vs[n]] == vs;
    }
  }

  /** A swimmer has a record exactly when some non-empty row carries the name. */
  lemma {:induction false} RecordsOfRows(vs: seq<RowView>, name: string)
    ensures name in FoldFrom(map[], vs)
      <==> exists i :: 0 <= i < |vs| && !Blank(vs[i]) && vs[i].name == name
    decreases |vs|
  {
    if vs != [] {
      var n := |vs| - 1;
      var pre := vs[..n];
      assert forall j :: 0 <= j < n ==> pre[j] == vs[j];
      RecordsOfRows(pre, name);
      if name in FoldFrom(map[], pre) {
        var i :| 0 <= i < n && !Blank(pre[i]) && pre[i].name == name;
        assert !Blank(vs[i]) && vs[i].name == name;
      }
    }
  }

  /**
   * So a row with an event or a time but no name creates a record under the empty name, and
   * that record never holds a best time.
   */
  lemma NamelessRecord(vs: seq<RowView>, i: int, slot: Slot)
    requires 0 <= i < |vs| && vs[i].name == "" && !Blank(vs[i])
    ensures "" in FoldFrom(map[], vs)
    ensures Stored(FoldFrom(map[], vs), "", slot).None?
  {
    RecordsOfRows(vs, "");
    BestIsMinimum(vs, "", slot);
    assert forall j :: 0 <= j < |vs| ==> !Feeds(vs[j], "", slot);
  }

  /** Once a record has a gender, later rows never change it. */
  lemma {:induction false} GenderKept(best: map<string, Record>, vs: seq<RowView>, name: string)
    requires name in best && best[name].gender != ""
    ensures name in FoldFrom(best, vs) && FoldFrom(best, vs)[name].gender == best[name].gender
    decreases |vs|
  {
    if vs != [] {
      GenderKept(best, vs[..|vs| - 1], name);
    }
  }

  /** Once a record has an age other than 0, later rows never change it. */
  lemma {:induction false} AgeKept(best: map<string, Record>, vs: seq<RowView>, name: string)
    requires name in best && !AgeUnset(best[name].age)
    ensures name in FoldFrom(best, vs) && FoldFrom(best, vs)[name].age == best[name].age
    decreases |vs|
  {
    if vs != [] {
      AgeKept(best, vs[..|vs| - 1], name);
    }
  }

  /** A record's gender and age are blank or come from one of its swimmer's rows. */
  lemma {:induction false} RecordFromRows(vs: seq<RowView>, name: string)
    requires name in FoldFrom(map[], vs)
    ensures var rec := FoldFrom(map[], vs)[name];
      (rec.gender == "" || exists i :: 0 <= i < |vs| && vs[i].name == name && vs[i].gender == rec.gender)
      && (rec.age.None? || exists i :: 0 <= i < |vs| && vs[i].name == name && vs[i].age == rec.age)
    decreases |vs|
  {
    var n := |vs| - 1;
    var pre := vs[..n];
    assert forall j :: 0 <= j < n ==> pre[j] == vs[j];
    if name in FoldFrom(map[], pre) {
      RecordFromRows(pre, name);
    }
  }

  /** The names whose gender reads as `g`. */
  function WithGender(best: map<string, Record>, g: Gender): (r: set<string>)
    ensures r <= best.Keys
  {
    set n | n in best && NormalizeGender(best[n].gender) == g
  }

  /** `{swimmers, dam, herr}`: the records, and those whose gender reads women's and men's. */
  function Summarize(best: map<string, Record>): Summary {
    Summary(|best.Keys|, |WithGender(best, Dam)|, |WithGender(best, Herr)|)
  }

  lemma {:induction false} SubsetSize(a: set<string>, b: set<string>)
    requires a <= b
    ensures |a| <= |b|
    decreases |b|
  {
    if a != {} {
      var x :| x in a;
      SubsetSize(a - {x}, b - {x});
    }
  }

  /** No record counts both as women and as men, so dam + herr never exceeds swimmers. */
  lemma SummaryBound(best: map<string, Record>)
    ensures Summarize(best).dam + Summarize(best).herr <= Summarize(best).swimmers
  {
    var d := WithGender(best, Dam);
    var h := WithGender(best, Herr);
    assert d * h == {};
    SubsetSize(d + h, best.Keys);
  }

  /** The column found for a list of candidates, as `pickColumn` finds it. */
  function Column(hdrs: seq<string>, candidates: seq<string>): Option<string> {
    Pick(BuildNormMap(hdrs), candidates)
  }

  /** The names of the missing required columns, in the order name, event, time. */
  function MissingNames(name: Option<string>, event: Option<string>, time: Option<string>): (r: seq<string>)
    ensures r == [] <==> name.Some? && event.Some? && time.Some?
  {
    var missing: seq<string> := [];
    var missing := if name.None? then missing + ["Namn/Simidrottare"] else missing;
    var missing := if event.None? then missing + ["Gren"] else missing;
    if time.None? then missing + ["Tid"] else missing
  }

  /** Each required column is listed exactly when it is missing, once, in the fixed order. */
  lemma MissingNamesListed(name: Option<string>, event: Option<string>, time: Option<string>)
    ensures var r := MissingNames(name, event, time);
      ("Namn/Simidrottare" in r <==> name.None?) && ("Gren" in r <==> event.None?)
      && ("Tid" in r <==> time.None?)
      && |r| == (if name.None? then 1 else 0) + (if event.None? then 1 else 0) + (if time.None? then 1 else 0)
      && (r != [] && name.None? ==> r[0] == "Namn/Simidrottare")
      && (r != [] && time.None? ==> r[|r| - 1] == "Tid")
  {
    var r := MissingNames(name, event, time);
    assert "Gren" != "Tid" && "Gren" != "Namn/Simidrottare" && "Tid" != "Namn/Simidrottare";
  }

  /**
   * `onValidate` on values: no text, no rows, missing required columns, in that order, each
   * stops with its message; otherwise the rows are folded and counted.
   */
  function Validate(rawText: string): Validation {
    if rawText == [] then Failure(NoFileMessage)
    else
      var t := TableOf(rawText);
      if |t.headers| == 0 || |t.rows| == 0 then Failure(NoTableMessage)
      else
        match Resolve(t.headers, Wanted)
        case Missing(names) => Failure(MissingPrefix + Join(names, ", "))
        case Resolved(cols) =>
          var best := FoldFrom(map[], Views(t.rows, cols));
          Success(t, best, Summarize(best))
  }

  /**
   * Validation succeeds exactly when there is text, the table has rows and some header
   * matches each required column; the errors come in the order the checks are made, and a
   * success counts no more women and men than swimmers.
   */
  lemma ValidateOutcome(rawText: string)
    ensures rawText == [] ==> Validate(rawText) == Failure(NoFileMessage)
    ensures rawText != [] && TableOf(rawText).rows == [] ==> Validate(rawText) == Failure(NoTableMessage)
    ensures Validate(rawText).Success? <==>
      rawText != [] && TableOf(rawText).rows != []
      && AnyMatch(TableOf(rawText).headers, Wanted.name)
      && AnyMatch(TableOf(rawText).headers, Wanted.event)
      && AnyMatch(TableOf(rawText).headers, Wanted.time)
    ensures Validate(rawText).Success? ==>
      Validate(rawText).summary.swimmers == |Validate(rawText).best|
      && Validate(rawText).summary.dam + Validate(rawText).summary.herr <= Validate(rawText).summary.swimmers
  {
    if rawText != [] {
      var t := TableOf(rawText);
      ResolveOutcome(t.headers, Wanted);
      if Validate(rawText).Success? {
        SummaryBound(Validate(rawText).best);
      }
    }
  }

  /**
   * One row read as `onValidate` reads it: trimmed cells, the parsed time, the age from the
   * age column or else from the birth and competition years, and the event key.
   */
  method ReadRow(r: Row, cols: Columns) returns (v: RowView)
    ensures v == View(r, cols)
  {
    var name := Trim(CellOf(r, cols.name));
    var gren := Trim(CellOf(r, cols.event));
    var tidRaw := Trim(CellOf(r, cols.time));
    var konRaw := if cols.gender.Some? then Trim(CellOf(r, cols.gender.value)) else "";
    var sec := ParseTimeToSeconds(tidRaw);
    var alder: Option<int> := None;
    if cols.age.Some? {
      alder := Some(DigitsValue(DigitsOf(CellOf(r, cols.age.value))));
    }
    if alder.None? {
      var bornYear := if cols.born.Some? then NumberOf(Prefix4(CellOf(r, cols.born.value))) else None;
      var dateYear := if cols.date.Some? then NumberOf(Prefix4(CellOf(r, cols.date.value))) else None;
      if bornYear.Some? && dateYear.Some? {
        alder := Some(dateYear.value - bornYear.value);
      }
    }
    var nkey := NormalizeEvent(gren);
    v := RowView(name, gren, tidRaw, konRaw, sec, FormatTime(sec), alder, nkey);
  }

  /**
   * The body of the row loop: skip an empty row, create the swimmer's record on first sight,
   * and for a timed row lower the best times and backfill gender and age.
   */
  method AddRow(best: map<string, Record>, v: RowView) returns (best': map<string, Record>)
    ensures best' == Step(best, v)
  {
    best' := best;
    if v.name == "" && v.event == "" && v.time == "" {
      return;
    }
    if v.name !in best' {
      best' := best'[v.name := Record(v.gender, v.age, map[], map[])];
    }
    if v.name != "" && v.event != "" && v.sec.Some? {
      var rec := best'[v.name];
      if v.event !in rec.best || v.sec.value < rec.best[v.event].timeSec {
        rec := rec.(best := rec.best[v.event := Entry(v.sec.value, v.text)]);
      }
      if v.key.Some? {
        if v.key.value !in rec.nbest || v.sec.value < rec.nbest[v.key.value].timeSec {
          rec := rec.(nbest := rec.nbest[v.key.value := Entry(v.sec.value, v.text)]);
        }
      }
      if rec.gender == "" && v.gender != "" {
        rec := rec.(gender := v.gender);
      }
      if AgeUnset(rec.age) && v.age.Some? {
        rec := rec.(age := v.age);
      }
      best' := best'[v.name := rec];
    }
  }

  /** The rows folded into the records, one row at a time. */
  method Aggregate(rows: seq<Row>, cols: Columns) returns (best: map<string, Record>)
    ensures best == FoldFrom(map[], Views(rows, cols))
  {
    best := map[];
    ghost var vs: seq<RowView> := [];
    for i := 0 to |rows|
      invariant vs == Views(rows[..i], cols)
      invariant best == FoldFrom(map[], vs)
    {
      var v := ReadRow(rows[i], cols);
      ViewsSnoc(rows, i, cols, v);
      vs := vs + [v];
      assert vs[..i] == vs[..|vs| - 1];
      best := AddRow(best, v);
    }
    assert rows[..|rows|] == rows;
  }

  lemma ViewsSnoc(rows: seq<Row>, i: int, cols: Columns, v: RowView)
    requires 0 <= i < |rows| && v == View(rows[i], cols)
    ensures Views(rows[..i + 1], cols) == Views(rows[..i], cols) + [v]
  {
    assert rows[..i + 1][..i] == rows[..i];
  }

  /** The column look-ups: the seven columns, or the names of the missing required ones. */
  datatype Resolution = Missing(names: seq<string>) | Resolved(cols: Columns)

  /** The candidate names tried for each of the seven columns. */
  datatype Candidates = Candidates(name: seq<string>, event: seq<string>, time: seq<string>,
                                   gender: seq<string>, age: seq<string>,
                                   born: seq<string>, date: seq<string>)

  /** The candidate lists `onValidate` passes to `pickColumn`. */
  const Wanted: Candidates := Candidates(NameCandidates, EventCandidates, TimeCandidates,
                                         GenderCandidates, AgeCandidates, BornCandidates, DateCandidates)

  function Resolve(hdrs: seq<string>, c: Candidates): (res: Resolution)
    ensures res.Missing? ==> res.names != []
  {
    var name := Column(hdrs, c.name);
    var event := Column(hdrs, c.event);
    var time := Column(hdrs, c.time);
    var missing := MissingNames(name, event, time);
    if missing != [] then Missing(missing)
    else
      Resolved(Columns(name.value, event.value, time.value, Column(hdrs, c.gender),
                       Column(hdrs, c.age), Column(hdrs, c.born), Column(hdrs, c.date)))
  }

  /**
   * The look-ups succeed exactly when some header matches each required column, and then the
   * three required columns are headers of the table.
   */
  lemma ResolveOutcome(hdrs: seq<string>, c: Candidates)
    ensures Resolve(hdrs, c).Resolved? <==>
      AnyMatch(hdrs, c.name) && AnyMatch(hdrs, c.event) && AnyMatch(hdrs, c.time)
    ensures Resolve(hdrs, c).Resolved? ==>
      var cols := Resolve(hdrs, c).cols;
      cols.name in hdrs && cols.event in hdrs && cols.time in hdrs
  {
    PickSound(hdrs, c.name);
    PickSound(hdrs, c.event);
    PickSound(hdrs, c.time);
  }

  /** The seven `pickColumn` calls, then the list of missing required columns. */
  method ResolveColumns(hdrs: seq<string>, c: Candidates) returns (res: Resolution)
    ensures res == Resolve(hdrs, c)
  {
    var nameCol := PickColumn(hdrs, c.name);
    var eventCol := PickColumn(hdrs, c.event);
    var timeCol := PickColumn(hdrs, c.time);
    var genderCol := PickColumn(hdrs, c.gender);
    var ageCol := PickColumn(hdrs, c.age);
    var bornCol := PickColumn(hdrs, c.born);
    var dateCol := PickColumn(hdrs, c.date);
    var missing: seq<string> := [];
    if nameCol.None? {
      missing := missing + ["Namn/Simidrottare"];
    }
    if eventCol.None? {
      missing := missing + ["Gren"];
    }
    if timeCol.None? {
      missing := missing + ["Tid"];
    }
    if |missing| > 0 {
      return Missing(missing);
    }
    res := Resolved(Columns(nameCol.value, eventCol.value, timeCol.value, genderCol, ageCol, bornCol, dateCol));
  }

  /** `onValidate`: the checks in order, the column look-ups, then the fold and the counts. */
  method OnValidate(rawText: string) returns (v: Validation)
    ensures v == Validate(rawText)
  {
    if rawText == [] {
      return Failure(NoFileMessage);
    }
    var t := FindTableStartAndParse(rawText);
    if |t.headers| == 0 || |t.rows| == 0 {
      return Failure(NoTableMessage);
    }
    var res := ResolveColumns(t.headers, Wanted);
    if res.Missing? {
      return Failure(MissingPrefix + Join(res.names, ", "));
    }
    var best := Aggregate(t.rows, res.cols);
    v := Success(t, best, Summarize(best));
  }
}
