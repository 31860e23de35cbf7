/**
 * EventNormalizer: `normStr` and `normalizeEvent`, which map a free-text event name such as
 * "100m Frisim" to one of the six event keys the relay view lists, or to nothing.
 */
module EventNormalizer {
  import opened Wrappers
  import opened Strings

  /** The event keys; `KeyName` is the key string the program uses. */
  datatype EventKey = Frisim50 | Frisim100 | Frisim200 | Rygg100 | Brost100 | Fjaril100

  function KeyName(k: EventKey): string {
    match k
    case Frisim50 => "frisim_50"
    case Frisim100 => "frisim_100"
    case Frisim200 => "frisim_200"
    case Rygg100 => "rygg_100"
    case Brost100 => "brost_100"
    case Fjaril100 => "fjaril_100"
  }

  /** Distinct keys have distinct names. */
  lemma KeyNameInjective(a: EventKey, b: EventKey)
    requires KeyName(a) == KeyName(b)
    ensures a == b
  {
    assert KeyName(a)[|KeyName(a)| - 2] == KeyName(b)[|KeyName(b)| - 2];
    assert KeyName(a)[0] == KeyName(b)[0];
  }

  /** The position of a key in the order in which `normalizeEvent` tests them. */
  function Rank(k: EventKey): (r: nat)
    ensures r < 6
  {
    match k
    case Frisim50 => 0
    case Frisim100 => 1
    case Frisim200 => 2
    case Rygg100 => 3
    case Brost100 => 4
    case Fjaril100 => 5
  }

  /** The distance of a key, as the digits the event text must hold. */
  function Distance(k: EventKey): string {
    match k
    case Frisim50 => "50"
    case Frisim200 => "200"
    case _ => "100"
  }

  /** `normStr`: lower case, å/ä to a and ö to o, white space runs to one blank, trimmed. */
  function NormStr(s: string): string {
    Trim(Collapse(Fold(Lower(s))))
  }

  /**
   * `replace(/meter|m\.|m /g, "m ")`: scanning left to right, "meter", "m." and "m " each
   * become "m "; the scan resumes after the replaced text.
   */
  function ExpandMeter(s: string): (r: string)
    ensures |r| <= |s|
  {
    if s == [] then []
    else if StartsWith(s, "meter") then "m " + ExpandMeter(s[5..])
    else if StartsWith(s, "m.") || StartsWith(s, "m ") then "m " + ExpandMeter(s[2..])
    else [s[0]] + ExpandMeter(s[1..])
  }

  /** The text the distance and stroke tests look at. */
  function EventText(e: string): string {
    Collapse(ExpandMeter(NormStr(e)))
  }

  /** `/(^|\s)N\s*m/` at position `i`: N after the start or a blank, then blanks, then an m. */
  predicate SpacedDistanceAt(s: string, n: string, i: int)
    requires 0 <= i <= |s| - |n|
  {
    (i == 0 || IsSpace(s[i - 1])) && OccursAt(s, n, i)
    && var rest := TrimStart(s[i + |n|..]); rest != [] && rest[0] == 'm'
  }

  /** `/\bNm\b/` at position `i`, N beginning with a digit: no word character on either side. */
  predicate WordDistanceAt(s: string, n: string, i: int)
    requires 0 <= i <= |s| - |n| - 1
  {
    (i == 0 || !IsWordChar(s[i - 1])) && OccursAt(s, n + "m", i)
    && (i + |n| + 1 == |s| || !IsWordChar(s[i + |n| + 1]))
  }

  /** `has50`, `has100`, `has200`. */
  predicate HasDistance(s: string, n: string) {
    (exists i | 0 <= i <= |s| - |n| :: SpacedDistanceAt(s, n, i))
    || (exists i | 0 <= i <= |s| - |n| - 1 :: WordDistanceAt(s, n, i))
  }

  predicate IsFree(s: string) {
    Contains(s, "frisim") || Contains(s, "freestyle")
  }

  predicate IsBack(s: string) {
    Contains(s, "rygg") || Contains(s, "ryggsim") || Contains(s, "backstroke")
  }

  predicate IsBreast(s: string) {
    Contains(s, "br\U{F6}st") || Contains(s, "brost") || Contains(s, "breast")
  }

  predicate IsFly(s: string) {
    Contains(s, "fj\U{E4}ril") || Contains(s, "fjaril") || Contains(s, "butterfly")
  }

  predicate HasStroke(s: string, k: EventKey) {
    match k
    case Frisim50 | Frisim100 | Frisim200 => IsFree(s)
    case Rygg100 => IsBack(s)
    case Brost100 => IsBreast(s)
    case Fjaril100 => IsFly(s)
  }

  /** The text names the key's distance and the key's stroke. */
  predicate Qualifies(s: string, k: EventKey) {
    HasDistance(s, Distance(k)) && HasStroke(s, k)
  }

  /**
   * `normalizeEvent`: the first key, in the order 50/100/200 freestyle, 100 back, 100 breast,
   * 100 fly, whose distance and stroke both occur in the text; nothing when none does.
   */
  function NormalizeEvent(e: string): (r: Option<EventKey>)
    ensures r.Some? ==> (Qualifies(EventText(e), r.value)
      && forall k :: Rank(k) < Rank(r.value) ==> !Qualifies(EventText(e), k))
    ensures r.None? ==> forall k :: !Qualifies(EventText(e), k)
  {
    var s := EventText(e);
    var has50 := HasDistance(s, "50");
    var has100 := HasDistance(s, "100");
    var has200 := HasDistance(s, "200");
    var isFree := IsFree(s);
    var isBack := IsBack(s);
    var isBreast := IsBreast(s);
    var isFly := IsFly(s);
    if has50 && isFree then Some(Frisim50)
    else if has100 && isFree then Some(Frisim100)
    else if has200 && isFree then Some(Frisim200)
    else if has100 && isBack then Some(Rygg100)
    else if has100 && isBreast then Some(Brost100)
    else if has100 && isFly then Some(Fjaril100)
    else None
  }

  /** The scan of `ExpandMeter` never leaves an "m." behind. */
  lemma {:induction false} ExpandMeterNoMDot(s: string)
    ensures !Contains(ExpandMeter(s), "m.")
    decreases |s|
  {
    var r := ExpandMeter(s);
    if s != [] {
      if StartsWith(s, "meter") {
        ExpandMeterNoMDot(s[5..]);
        NoMDotAfterBlank("m ", ExpandMeter(s[5..]));
      } else if StartsWith(s, "m.") || StartsWith(s, "m ") {
        ExpandMeterNoMDot(s[2..]);
        NoMDotAfterBlank("m ", ExpandMeter(s[2..]));
      } else {
        ExpandMeterNoMDot(s[1..]);
        var tail := ExpandMeter(s[1..]);
        assert tail != [] && s[0] == 'm' ==> tail[0] != '.' by {
          if tail != [] && s[0] == 'm' {
            ExpandMeterHead(s[1..]);
          }
        }
        NoMDotCons(s[0], tail);
      }
    }
  }

  /** The first character of the expansion is the first character of the text or an m. */
  lemma ExpandMeterHead(s: string)
    requires s != []
    ensures ExpandMeter(s) != [] && (ExpandMeter(s)[0] == s[0] || ExpandMeter(s)[0] == 'm')
  {
  }

  lemma NoMDotAfterBlank(p: string, t: string)
    requires p == "m " && !Contains(t, "m.")
    ensures !Contains(p + t, "m.")
  {
    forall i | 0 <= i <= |p + t| - 2
      ensures !OccursAt(p + t, "m.", i)
    {
      if i >= 2 {
        assert (p + t)[i..i + 2] == t[i - 2..i];
        assert !OccursAt(t, "m.", i - 2);
      } else if i == 1 {
        assert (p + t)[1] == ' ';
      } else {
        assert (p + t)[1] == ' ';
      }
    }
  }

  lemma NoMDotCons(c: char, t: string)
    requires !Contains(t, "m.")
    requires t != [] && c == 'm' ==> t[0] != '.'
    ensures !Contains([c] + t, "m.")
  {
    var s := [c] + t;
    forall i | 0 <= i <= |s| - 2
      ensures !OccursAt(s, "m.", i)
    {
      if i >= 1 {
        assert s[i..i + 2] == t[i - 1..i + 1];
        assert !OccursAt(t, "m.", i - 1);
      } else {
        assert s[0..2] == [c, t[0]];
      }
    }
  }

  /** A text without an m is left as it is. */
  lemma {:induction false} ExpandMeterWithoutM(s: string)
    requires 'm' !in s
    ensures ExpandMeter(s) == s
    decreases |s|
  {
    if s != [] {
      assert s[0] != 'm';
      ExpandMeterWithoutM(s[1..]);
    }
  }

  /** Every distance test needs an m after the digits. */
  lemma NoMeterNoDistance(s: string, n: string)
    requires 'm' !in s
    ensures !HasDistance(s, n)
  {
    forall i | 0 <= i <= |s| - |n|
      ensures !SpacedDistanceAt(s, n, i)
    {
      var rest := TrimStart(s[i + |n|..]);
      if rest != [] && rest[0] == 'm' {
        TrimStartChars(s[i + |n|..], 'm');
      }
    }
    forall i | 0 <= i <= |s| - |n| - 1
      ensures !WordDistanceAt(s, n, i)
    {
      assert s[i + |n|] != 'm';
      assert (n + "m")[|n|] == 'm';
      assert s[i..i + |n| + 1][|n|] == s[i + |n|];
    }
  }

  /** A text without an m names no event, whatever stroke it names. */
  lemma NoMeterNoEvent(e: string)
    requires 'm' !in EventText(e)
    ensures NormalizeEvent(e) == None
  {
    NoMeterNoDistance(EventText(e), "50");
    NoMeterNoDistance(EventText(e), "100");
    NoMeterNoDistance(EventText(e), "200");
  }

  /** `normStr` ignores letter case: an upper-case spelling normalizes alike. */
  lemma NormStrCaseInsensitive(s: string)
    ensures NormStr(Lower(s)) == NormStr(s)
  {
    LowerIdempotent(s);
  }

  /** So does `normalizeEvent`. */
  lemma NormalizeEventCaseInsensitive(e: string)
    ensures NormalizeEvent(Lower(e)) == NormalizeEvent(e)
  {
    NormStrCaseInsensitive(e);
  }

  /** `normStr` gives a trimmed text whose only white space is single blanks. */
  lemma NormStrShape(s: string)
    ensures IsTrimmed(NormStr(s))
    ensures Collapsed(NormStr(s))
  {
    var c := Collapse(Fold(Lower(s)));
    TrimOfCollapsed(c);
  }

  lemma TrimOfCollapsed(c: string)
    requires Collapsed(c)
    ensures Collapsed(Trim(c))
  {
    TrimStartCollapsed(c);
    TrimEndCollapsed(TrimStart(c));
  }

  lemma {:induction false} TrimStartCollapsed(c: string)
    requires Collapsed(c)
    ensures Collapsed(TrimStart(c))
    decreases |c|
  {
    if c != [] && IsSpace(c[0]) {
      assert Collapsed(c[1..]);
      TrimStartCollapsed(c[1..]);
    }
  }

  lemma {:induction false} TrimEndCollapsed(c: string)
    requires Collapsed(c)
    ensures Collapsed(TrimEnd(c))
    decreases |c|
  {
    if c != [] && IsSpace(c[|c| - 1]) {
      assert Collapsed(c[..|c| - 1]);
      TrimEndCollapsed(c[..|c| - 1]);
    }
  }

  /** A lower-case letter, a digit or a blank. */
  predicate PlainChar(c: char) {
    'a' <= c <= 'z' || '0' <= c <= '9' || c == ' '
  }

  /** Lower-case letters, digits and single blanks, trimmed: a text `normStr` keeps as it is. */
  predicate PlainText(s: string) {
    (forall i :: 0 <= i < |s| ==> PlainChar(s[i]))
    && (forall i :: 0 <= i < |s| - 1 && s[i] == ' ' ==> s[i + 1] != ' ')
    && (s == [] || (s[0] != ' ' && s[|s| - 1] != ' '))
  }

  lemma PlainCollapsed(s: string)
    requires PlainText(s)
    ensures Collapsed(s) && IsTrimmed(s)
  {
    forall i | 0 <= i < |s| && IsSpace(s[i])
      ensures s[i] == ' ' && (i + 1 < |s| ==> !IsSpace(s[i + 1]))
    {
      assert PlainChar(s[i]);
      if i + 1 < |s| {
        assert PlainChar(s[i + 1]);
      }
    }
  }

  /** `normStr` leaves a plain text unchanged. */
  lemma PlainNormStr(s: string)
    requires PlainText(s)
    ensures NormStr(s) == s
  {
    forall i | 0 <= i < |s|
      ensures LowerChar(s[i]) == s[i] && FoldChar(s[i]) == s[i]
    {
      assert PlainChar(s[i]);
    }
    assert Lower(s) == s;
    assert Fold(s) == s;
    PlainCollapsed(s);
    CollapseOfCollapsed(s);
    TrimOfTrimmed(s);
  }

  /** Every m ends the text or stands before a blank. */
  predicate MeterSpaced(s: string) {
    forall i :: 0 <= i < |s| - 1 && s[i] == 'm' ==> s[i + 1] == ' '
  }

  /** The meter rewriting leaves a text alone when every m already stands before a blank. */
  lemma {:induction false} ExpandMeterKeeps(s: string)
    requires MeterSpaced(s)
    ensures ExpandMeter(s) == s
    decreases |s|
  {
    if s != [] {
      if |s| >= 2 && s[0] == 'm' {
        assert s[1] == ' ';
        assert StartsWith(s, "m ") && !StartsWith(s, "meter");
        assert MeterSpaced(s[2..]) by {
          forall i | 0 <= i < |s[2..]| - 1 && s[2..][i] == 'm'
            ensures s[2..][i + 1] == ' '
          {
            assert s[i + 2] == 'm';
          }
        }
        ExpandMeterKeeps(s[2..]);
        assert s == "m " + s[2..];
      } else {
        assert !StartsWith(s, "meter") && !StartsWith(s, "m.") && !StartsWith(s, "m ");
        assert MeterSpaced(s[1..]) by {
          forall i | 0 <= i < |s[1..]| - 1 && s[1..][i] == 'm'
            ensures s[1..][i + 1] == ' '
          {
            assert s[i + 1] == 'm';
          }
        }
        ExpandMeterKeeps(s[1..]);
        assert s == [s[0]] + s[1..];
      }
    }
  }

  /** An event name that normalizes to a plain text with spaced m's is tested as that text. */
  lemma PlainEventText(e: string, s: string)
    requires NormStr(e) == s && PlainText(s) && MeterSpaced(s)
    ensures EventText(e) == s
  {
    ExpandMeterKeeps(s);
    PlainCollapsed(s);
    CollapseOfCollapsed(s);
  }

  /** A distance whose first digit the text lacks is not named in it. */
  lemma MissingDigit(s: string, n: string)
    requires n != [] && n[0] !in s
    ensures !HasDistance(s, n)
  {
    forall i | 0 <= i <= |s| - |n|
      ensures !OccursAt(s, n, i)
    {
      assert s[i..i + |n|][0] == s[i];
    }
    forall i | 0 <= i <= |s| - |n| - 1
      ensures !OccursAt(s, n + "m", i)
    {
      assert s[i..i + |n| + 1][0] == s[i];
      assert (n + "m")[0] == n[0];
    }
  }

  /** The first key that qualifies is the one `normalizeEvent` gives. */
  lemma FirstQualifying(e: string, k: EventKey)
    requires Qualifies(EventText(e), k)
    requires forall j :: Rank(j) < Rank(k) ==> !Qualifies(EventText(e), j)
    ensures NormalizeEvent(e) == Some(k)
  {
    var r := NormalizeEvent(e);
    assert r.Some?;
    if Rank(r.value) < Rank(k) {
    } else if Rank(k) < Rank(r.value) {
    } else {
      RankInjective(r.value, k);
    }
  }

  lemma RankInjective(a: EventKey, b: EventKey)
    requires Rank(a) == Rank(b)
    ensures a == b
  {
  }

  /** A name whose lower-case spelling is plain is tested as that spelling. */
  lemma LowerPlainEventText(e: string, s: string)
    requires Lower(e) == s && PlainText(s) && MeterSpaced(s)
    ensures EventText(e) == s
  {
    NormStrCaseInsensitive(e);
    PlainNormStr(s);
    PlainEventText(e, s);
  }

  /** A name whose lower-case spelling is plain gives the first key that spelling names. */
  lemma PlainFirstQualifying(e: string, s: string, k: EventKey)
    requires Lower(e) == s && PlainText(s) && MeterSpaced(s)
    requires Qualifies(s, k) && forall j :: Rank(j) < Rank(k) ==> !Qualifies(s, j)
    ensures NormalizeEvent(e) == Some(k)
  {
    LowerPlainEventText(e, s);
    FirstQualifying(e, k);
  }

  /** "100m Frisim" is tested as "100m frisim". */
  lemma MeterFreestyleText(e: string, s: string)
    requires e == "100m Frisim" && s == "100m frisim"
    ensures Lower(e) == s && PlainText(s) && MeterSpaced(s)
  {
  }

  /** "100m frisim" names the 100 m freestyle and no 50 m event. */
  lemma MeterFreestyleQualifies(s: string)
    requires s == "100m frisim"
    ensures Qualifies(s, Frisim100) && forall j :: Rank(j) < Rank(Frisim100) ==> !Qualifies(s, j)
  {
    assert WordDistanceAt(s, "100", 0);
    assert OccursAt(s, "frisim", 5);
    assert '5' !in s;
    MissingDigit(s, "50");
  }

  /** "100m Frisim" is the 100 m freestyle. */
  lemma MeterFreestyleExample(e: string)
    requires e == "100m Frisim"
    ensures NormalizeEvent(e) == Some(Frisim100)
  {
    var s := "100m frisim";
    MeterFreestyleText(e, s);
    MeterFreestyleQualifies(s);
    PlainFirstQualifying(e, s, Frisim100);
  }

  /** "Rygg 100m" is tested as "rygg 100m". */
  lemma BackstrokeText(e: string, s: string)
    requires e == "Rygg 100m" && s == "rygg 100m"
    ensures Lower(e) == s && PlainText(s) && MeterSpaced(s)
  {
  }

  /** "rygg 100m" names the 100 m backstroke and no freestyle. */
  lemma BackstrokeQualifies(s: string)
    requires s == "rygg 100m"
    ensures Qualifies(s, Rygg100) && forall j :: Rank(j) < Rank(Rygg100) ==> !Qualifies(s, j)
  {
    assert WordDistanceAt(s, "100", 5);
    assert OccursAt(s, "rygg", 0);
    assert 'f' !in s;
    MissingLetter(s, "frisim", 0);
    MissingLetter(s, "freestyle", 0);
  }

  /** "Rygg 100m", the stroke first, is the 100 m backstroke. */
  lemma BackstrokeExample(e: string)
    requires e == "Rygg 100m"
    ensures NormalizeEvent(e) == Some(Rygg100)
  {
    var s := "rygg 100m";
    BackstrokeText(e, s);
    BackstrokeQualifies(s);
    PlainFirstQualifying(e, s, Rygg100);
  }

  /** A name whose lower-case spelling is plain and names no event gives nothing. */
  lemma PlainNoneQualifying(e: string, s: string)
    requires Lower(e) == s && PlainText(s) && MeterSpaced(s)
    requires forall k :: !Qualifies(s, k)
    ensures NormalizeEvent(e) == None
  {
    LowerPlainEventText(e, s);
  }

  /** "100 Frisim" is tested as "100 frisim". */
  lemma NoUnitText(e: string, s: string)
    requires e == "100 Frisim" && s == "100 frisim"
    ensures Lower(e) == s && PlainText(s) && MeterSpaced(s)
  {
  }

  /** In "100 frisim" the distance is not followed by an m, so no distance is named. */
  lemma NoUnitQualifies(s: string)
    requires s == "100 frisim"
    ensures forall k :: !Qualifies(s, k)
  {
    assert '5' !in s && '2' !in s;
    MissingDigit(s, "50");
    MissingDigit(s, "200");
    forall i | 0 <= i <= |s| - 3
      ensures !SpacedDistanceAt(s, "100", i)
    {
      if i == 0 {
        assert s[3..][0] == ' ' && s[3..][1..] == s[4..];
        assert TrimStart(s[3..]) == s[4..];
      } else {
        assert s[i..i + 3][0] == s[i] != '1';
      }
    }
    forall i | 0 <= i <= |s| - 4
      ensures !WordDistanceAt(s, "100", i)
    {
      if i == 0 {
        assert s[i..i + 4][3] == s[3] != 'm';
      } else {
        assert s[i..i + 4][0] == s[i] != '1';
      }
    }
  }

  /**
   * "100 Frisim" names no event: the distance tests want an m after the digits. (The text
   * still holds an m, the last letter of "frisim", so this is not the no-m case.)
   */
  lemma NoUnitExample(e: string)
    requires e == "100 Frisim"
    ensures NormalizeEvent(e) == None
  {
    var s := "100 frisim";
    NoUnitText(e, s);
    NoUnitQualifies(s);
    PlainNoneQualifying(e, s);
  }
}
