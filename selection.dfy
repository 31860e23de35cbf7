/**
 * Selection: the rules of the relay view. `requiredEventKeys` says which best times a relay
 * needs, `labelForKey` names them, the class and age filter picks the swimmers to list,
 * `availableAges` offers the ages to choose from and `toggleSelect` marks a swimmer.
 */
module Selection {
  import opened Wrappers
  import opened Strings
  import opened EventNormalizer
  import opened GenderClassifier
  import opened Aggregation

  /** `/4xN\s*stroke/` at position `i`: "4x", the distance, any white space, then the stroke. */
  predicate RelayAt(s: string, n: string, stroke: string, i: int)
    requires 0 <= i <= |s| - |n| - 2
  {
    OccursAt(s, "4x" + n, i) && StartsWith(TrimStart(s[i + |n| + 2..]), stroke)
  }

  /** The normalized relay text names the relay `4xN stroke` somewhere. */
  predicate Relay(s: string, n: string, stroke: string) {
    exists i | 0 <= i <= |s| - |n| - 2 :: RelayAt(s, n, stroke, i)
  }

  /** The four keys a medley relay shows: back, breast, fly and free, 100 m each. */
  const MedleyKeys: seq<EventKey> := [Rygg100, Brost100, Fjaril100, Frisim100]

  /** The keys for a normalized relay text, the patterns tried in order. */
  function KeysFor(s: string): (r: seq<EventKey>)
    ensures r == [] || r == MedleyKeys || (|r| == 1 && r[0] in {Frisim50, Frisim100, Frisim200})
  {
    if Relay(s, "50", "frisim") then [Frisim50]
    else if Relay(s, "100", "frisim") then [Frisim100]
    else if Relay(s, "200", "frisim") then [Frisim200]
    else if Relay(s, "50", "medley") then MedleyKeys
    else if Relay(s, "100", "medley") then MedleyKeys
    else []
  }

  /** `requiredEventKeys`: the keys whose best times the relay view shows. */
  function RequiredEventKeys(relayType: string): (r: seq<EventKey>)
    ensures r == [] || r == MedleyKeys || (|r| == 1 && r[0] in {Frisim50, Frisim100, Frisim200})
  {
    KeysFor(NormStr(relayType))
  }

  /** A relay pattern can only match a text holding a "4", the distance and the stroke. */
  lemma RelayLetters(s: string, n: string, stroke: string)
    requires Relay(s, n, stroke)
    ensures '4' in s && Contains(s, n) && Contains(s, stroke)
  {
    var i :| 0 <= i <= |s| - |n| - 2 && RelayAt(s, n, stroke, i);
    assert s[i] == s[i..i + |n| + 2][0];
    assert s[i + 2..i + 2 + |n|] == s[i..i + |n| + 2][2..];
    assert OccursAt(s, n, i + 2);
    var rest := s[i + |n| + 2..];
    var j := TrimmedAway(rest);
    assert s[i + |n| + 2 + j..][..|stroke|] == TrimStart(rest)[..|stroke|];
    assert OccursAt(s, stroke, i + |n| + 2 + j);
  }

  /** Trimming the start drops a prefix. */
  lemma {:induction false} TrimmedAway(s: string) returns (j: int)
    ensures 0 <= j <= |s| && TrimStart(s) == s[j..]
    decreases |s|
  {
    if s != [] && IsSpace(s[0]) {
      var k := TrimmedAway(s[1..]);
      assert s[1..][k..] == s[k + 1..];
      j := k + 1;
    } else {
      j := 0;
    }
  }

  /** The relay named at the start of the text: "4x", the distance, a blank, the stroke. */
  lemma RelayAtStart(s: string, n: string, stroke: string)
    requires |s| >= |n| + 3 + |stroke| && stroke != [] && !IsSpace(stroke[0])
    requires s[..2] == "4x" && s[2..|n| + 2] == n && s[|n| + 2] == ' '
    requires s[|n| + 3..|n| + 3 + |stroke|] == stroke
    ensures Relay(s, n, stroke)
  {
    assert s[..|n| + 2] == s[..2] + s[2..|n| + 2];
    var rest := s[|n| + 2..];
    assert rest[1..][..|stroke|] == stroke;
    assert TrimStart(rest) == rest[1..];
    assert RelayAt(s, n, stroke, 0);
  }

  /**
   * A text that names a medley relay and never says "frisim" shows the medley keys.
   */
  lemma MedleyRelay(s: string)
    requires Relay(s, "50", "medley") || Relay(s, "100", "medley")
    requires !Contains(s, "frisim")
    ensures KeysFor(s) == MedleyKeys
  {
    if Relay(s, "50", "frisim") { RelayLetters(s, "50", "frisim"); }
    if Relay(s, "100", "frisim") { RelayLetters(s, "100", "frisim"); }
    if Relay(s, "200", "frisim") { RelayLetters(s, "200", "frisim"); }
  }

  /**
   * Keys come only from a text that names the relay: a "4" in every case, the distance and
   * "frisim" for a freestyle relay, "medley" for a medley relay.
   */
  lemma KeysNameTheRelay(s: string)
    ensures KeysFor(s) != [] ==> '4' in s
    ensures KeysFor(s) == [Frisim50] ==> Contains(s, "50") && Contains(s, "frisim")
    ensures KeysFor(s) == [Frisim100] ==> Contains(s, "100") && Contains(s, "frisim")
    ensures KeysFor(s) == [Frisim200] ==> Contains(s, "200") && Contains(s, "frisim")
    ensures KeysFor(s) == MedleyKeys ==> Contains(s, "medley")
  {
    if Relay(s, "50", "frisim") {
      RelayLetters(s, "50", "frisim");
    } else if Relay(s, "100", "frisim") {
      RelayLetters(s, "100", "frisim");
    } else if Relay(s, "200", "frisim") {
      RelayLetters(s, "200", "frisim");
    } else if Relay(s, "50", "medley") {
      RelayLetters(s, "50", "medley");
    } else if Relay(s, "100", "medley") {
      RelayLetters(s, "100", "medley");
    }
  }

  /** A text without a "4" names no relay and shows nothing. */
  lemma NoRelayNoKeys(s: string)
    requires '4' !in s
    ensures KeysFor(s) == []
  {
    if Relay(s, "50", "frisim") { RelayLetters(s, "50", "frisim"); }
    if Relay(s, "100", "frisim") { RelayLetters(s, "100", "frisim"); }
    if Relay(s, "200", "frisim") { RelayLetters(s, "200", "frisim"); }
    if Relay(s, "50", "medley") { RelayLetters(s, "50", "medley"); }
    if Relay(s, "100", "medley") { RelayLetters(s, "100", "medley"); }
  }

  /** A relay pattern that matches leaves its "4x" and distance in the text. */
  lemma RelayOccurs(s: string, n: string, stroke: string)
    requires Relay(s, n, stroke)
    ensures Contains(s, "4x" + n)
  {
    var i :| 0 <= i <= |s| - |n| - 2 && RelayAt(s, n, stroke, i);
    assert OccursAt(s, "4x" + n, i);
  }

  /** The 50 m freestyle relay is tried first: it wins whenever it matches. */
  lemma Freestyle50Relay(s: string)
    ensures KeysFor(s) == [Frisim50] <==> Relay(s, "50", "frisim")
  {
  }

  /** Without a "4x50", the 100 m freestyle relay shows exactly the 100 m freestyle key. */
  lemma Freestyle100Relay(s: string)
    requires !Contains(s, "4x50")
    ensures KeysFor(s) == [Frisim100] <==> Relay(s, "100", "frisim")
  {
    assert "4x" + "50" == "4x50";
    if Relay(s, "50", "frisim") { RelayOccurs(s, "50", "frisim"); }
  }

  /** Without a "4x50" or "4x100", the 200 m freestyle relay shows the 200 m freestyle key. */
  lemma Freestyle200Relay(s: string)
    requires !Contains(s, "4x50") && !Contains(s, "4x100")
    ensures KeysFor(s) == [Frisim200] <==> Relay(s, "200", "frisim")
  {
    assert "4x" + "50" == "4x50" && "4x" + "100" == "4x100";
    if Relay(s, "50", "frisim") { RelayOccurs(s, "50", "frisim"); }
    if Relay(s, "100", "frisim") { RelayOccurs(s, "100", "frisim"); }
  }

  /** A relay name "4xN stroke" in plain lower case is its own normal form and names that relay. */
  lemma PlainRelayName(t: string, n: string, stroke: string)
    requires t == "4x" + n + " " + stroke && PlainText(t)
    requires stroke != [] && !IsSpace(stroke[0])
    ensures NormStr(t) == t && Relay(t, n, stroke)
  {
    PlainNormStr(t);
    assert t[..2] == "4x" && t[2..|n| + 2] == n && t[|n| + 2] == ' ';
    assert t[|n| + 3..|n| + 3 + |stroke|] == stroke;
    RelayAtStart(t, n, stroke);
  }

  /** "4x50 frisim" is plain lower case: "4x", the distance, a blank, the stroke. */
  lemma Freestyle50Text(t: string)
    requires t == "4x50 frisim"
    ensures t == "4x" + "50" + " " + "frisim" && PlainText(t)
  {
  }

  /** "4x100 frisim" is plain lower case: "4x", the distance, a blank, the stroke. */
  lemma Freestyle100Text(t: string)
    requires t == "4x100 frisim"
    ensures t == "4x" + "100" + " " + "frisim" && PlainText(t) && '5' !in t
  {
  }

  /** "4x200 frisim" is plain lower case: "4x", the distance, a blank, the stroke. */
  lemma Freestyle200Text(t: string)
    requires t == "4x200 frisim"
    ensures t == "4x" + "200" + " " + "frisim" && PlainText(t) && '5' !in t && '1' !in t
  {
  }

  /** "4x50 medley" is plain lower case: "4x", the distance, a blank, the stroke. */
  lemma Medley50Text(t: string)
    requires t == "4x50 medley"
    ensures t == "4x" + "50" + " " + "medley" && PlainText(t) && 'f' !in t
  {
  }

  /** "4x100 medley" is plain lower case: "4x", the distance, a blank, the stroke. */
  lemma Medley100Text(t: string)
    requires t == "4x100 medley"
    ensures t == "4x" + "100" + " " + "medley" && PlainText(t) && 'f' !in t
  {
  }

  /** "4x50 frisim" needs the 50 m freestyle. */
  lemma Freestyle50Name(t: string)
    requires t == "4x50 frisim"
    ensures NormStr(t) == t && RequiredEventKeys(t) == [Frisim50]
  {
    Freestyle50Text(t);
    PlainRelayName(t, "50", "frisim");
  }

  /** "4x100 frisim" needs the 100 m freestyle. */
  lemma Freestyle100Name(t: string)
    requires t == "4x100 frisim"
    ensures NormStr(t) == t && RequiredEventKeys(t) == [Frisim100]
  {
    Freestyle100Text(t);
    PlainRelayName(t, "100", "frisim");
    MissingLetter(t, "4x50", 2);
    Freestyle100Relay(t);
  }

  /** "4x200 frisim" needs the 200 m freestyle. */
  lemma Freestyle200Name(t: string)
    requires t == "4x200 frisim"
    ensures NormStr(t) == t && RequiredEventKeys(t) == [Frisim200]
  {
    Freestyle200Text(t);
    PlainRelayName(t, "200", "frisim");
    MissingLetter(t, "4x50", 2);
    MissingLetter(t, "4x100", 2);
    Freestyle200Relay(t);
  }

  /** "4x50 medley" needs the four medley strokes, 100 m each. */
  lemma Medley50Name(t: string)
    requires t == "4x50 medley"
    ensures NormStr(t) == t && RequiredEventKeys(t) == MedleyKeys
  {
    Medley50Text(t);
    PlainRelayName(t, "50", "medley");
    MissingLetter(t, "frisim", 0);
    MedleyRelay(t);
  }

  /** "4x100 medley" needs the four medley strokes, 100 m each. */
  lemma Medley100Name(t: string)
    requires t == "4x100 medley"
    ensures NormStr(t) == t && RequiredEventKeys(t) == MedleyKeys
  {
    Medley100Text(t);
    PlainRelayName(t, "100", "medley");
    MissingLetter(t, "frisim", 0);
    MedleyRelay(t);
  }

  /** Letter case in the relay name does not matter. */
  lemma RequiredEventKeysCaseInsensitive(relayType: string)
    ensures RequiredEventKeys(Lower(relayType)) == RequiredEventKeys(relayType)
  {
    NormStrCaseInsensitive(relayType);
  }

  /** The stroke as a label writes it. */
  function StrokeName(k: EventKey): string {
    match k
    case Frisim50 | Frisim100 | Frisim200 => "frisim"
    case Rygg100 => "rygg"
    case Brost100 => "br\U{F6}st"
    case Fjaril100 => "fj\U{E4}ril"
  }

  /** `labelForKey`: the display label of a key string; an unknown string is its own label. */
  function LabelForKey(k: string): string {
    if k == "frisim_50" then "50 frisim"
    else if k == "frisim_100" then "100 frisim"
    else if k == "frisim_200" then "200 frisim"
    else if k == "rygg_100" then "100 rygg"
    else if k == "brost_100" then "100 br\U{F6}st"
    else if k == "fjaril_100" then "100 fj\U{E4}ril"
    else k
  }

  /** The label of a key is its distance, a blank and its stroke. */
  lemma LabelOfKey(k: EventKey)
    ensures LabelForKey(KeyName(k)) == Distance(k) + " " + StrokeName(k)
  {
    var name := KeyName(k);
    var shown := Distance(k) + " " + StrokeName(k);
    match k
    case Frisim50 =>
      assert shown == "50 frisim";
    case Frisim100 =>
      assert name[7] != "frisim_50"[7];
      assert shown == "100 frisim";
    case Frisim200 =>
      assert name[7] != "frisim_50"[7] && name[7] != "frisim_100"[7];
      assert shown == "200 frisim";
    case Rygg100 =>
      assert name[0] == 'r';
      assert shown == "100 rygg";
    case Brost100 =>
      assert name[0] == 'b';
      assert shown == "100 br\U{F6}st";
    case Fjaril100 =>
      assert name[1] == 'j';
      assert shown == "100 fj\U{E4}ril";
  }

  /** Distinct keys get distinct labels. */
  lemma LabelInjective(a: EventKey, b: EventKey)
    requires LabelForKey(KeyName(a)) == LabelForKey(KeyName(b))
    ensures a == b
  {
    LabelOfKey(a);
    LabelOfKey(b);
    var la := LabelForKey(KeyName(a));
    assert la[1] == LabelForKey(KeyName(b))[1];
    assert la[|la| - 1] == LabelForKey(KeyName(b))[|la| - 1];
  }

  /** `filteredSwimmers`, class part: no class, "Mix", or the record's gender read as the class. */
  predicate PassClass(relayClass: string, gender: string) {
    relayClass == "" || relayClass == "Mix" || GenderName(NormalizeGender(gender)) == relayClass
  }

  /** Age part: no ages chosen, or the record has an age and it is one of them. */
  predicate PassAge(ages: set<int>, age: Option<int>) {
    ages == {} || (age.Some? && age.value in ages)
  }

  /** The names the relay view lists, before they are sorted. */
  function Filtered(best: map<string, Record>, relayClass: string, ages: set<int>): (r: set<string>)
    ensures r <= best.Keys
  {
    set n | n in best && PassClass(relayClass, best[n].gender) && PassAge(ages, best[n].age)
  }

  /**
   * A swimmer is listed exactly when the class is empty or "Mix", or is "Dam" or "Herr" and
   * the gender reads so, and the age passes; any other class lists nobody.
   */
  lemma FilterMeaning(best: map<string, Record>, relayClass: string, ages: set<int>, n: string)
    ensures n in Filtered(best, relayClass, ages) <==>
      n in best && PassAge(ages, best[n].age)
      && (relayClass == "" || relayClass == "Mix"
          || (relayClass == "Dam" && NormalizeGender(best[n].gender) == Dam)
          || (relayClass == "Herr" && NormalizeGender(best[n].gender) == Herr))
  {
    if n in best {
      var g := NormalizeGender(best[n].gender);
      assert GenderName(Dam) != "Herr" && GenderName(Herr) != "Dam";
      assert GenderName(Unknown) != "Dam" && GenderName(Unknown) != "Herr";
    }
  }

  /** With no age chosen, the "Dam" and "Herr" lists hold as many swimmers as the summary counts. */
  lemma FilterAgreesWithSummary(best: map<string, Record>)
    ensures |Filtered(best, "Dam", {})| == Summarize(best).dam
    ensures |Filtered(best, "Herr", {})| == Summarize(best).herr
  {
    forall n
      ensures n in Filtered(best, "Dam", {}) <==> n in WithGender(best, Dam)
      ensures n in Filtered(best, "Herr", {}) <==> n in WithGender(best, Herr)
    {
      FilterMeaning(best, "Dam", {}, n);
      FilterMeaning(best, "Herr", {}, n);
    }
    assert Filtered(best, "Dam", {}) == WithGender(best, Dam);
    assert Filtered(best, "Herr", {}) == WithGender(best, Herr);
  }

  /** The ages some record holds. */
  function AgeSet(best: map<string, Record>): set<int> {
    set n | n in best && best[n].age.Some? :: best[n].age.value
  }

  /** The ages the records of `names` hold. */
  function AgesOf(best: map<string, Record>, names: set<string>): set<int> {
    set n | n in names && n in best && best[n].age.Some? :: best[n].age.value
  }

  predicate Increasing(s: seq<int>) {
    forall i, j :: 0 <= i < j < |s| ==> s[i] < s[j]
  }

  /** No value occurs twice, as in a JavaScript `Set` laid out with `Array.from`. */
  predicate NoDuplicates(s: seq<int>) {
    forall i, j :: 0 <= i < j < |s| ==> s[i] != s[j]
  }

  /** One more record adds its age, if it has one. */
  lemma AgesOfAdd(best: map<string, Record>, done: set<string>, n: string)
    requires n in best
    ensures AgesOf(best, done + {n})
      == AgesOf(best, done) + (if best[n].age.Some? then {best[n].age.value} else {})
  {
  }

  /**
   * The loop over the records adding each age to a set: the ages come out once each, in the
   * order they were first met.
   */
  method CollectAges(best: map<string, Record>) returns (found: seq<int>)
    ensures NoDuplicates(found)
    ensures forall a :: a in found <==> a in AgeSet(best)
  {
    found := [];
    var done: set<string> := {};
    var rest := best.Keys;
    while rest != {}
      invariant done <= best.Keys && rest == best.Keys - done
      invariant NoDuplicates(found)
      invariant forall a :: a in found <==> a in AgesOf(best, done)
      decreases |rest|
    {
      var n :| n in rest;
      AgesOfAdd(best, done, n);
      if best[n].age.Some? && best[n].age.value !in found {
        found := found + [best[n].age.value];
      }
      done := done + {n};
      rest := rest - {n};
    }
    assert done == best.Keys;
  }

  /** The position of a least element of a non-empty sequence. */
  method LeastAt(s: seq<int>) returns (k: int)
    requires s != []
    ensures 0 <= k < |s| && forall i :: 0 <= i < |s| ==> s[k] <= s[i]
  {
    k := 0;
    var i := 1;
    while i < |s|
      invariant 0 <= k < i <= |s|
      invariant forall j :: 0 <= j < i ==> s[k] <= s[j]
    {
      if s[i] < s[k] {
        k := i;
      }
      i := i + 1;
    }
  }

  /** The sequence with every copy of `m` taken out. */
  function Without(s: seq<int>, m: int): (r: seq<int>)
    ensures forall x :: x in r <==> x in s && x != m
    ensures m in s ==> |r| < |s|
    ensures |r| <= |s|
    ensures m !in s ==> |r| == |s|
  {
    if s == [] then []
    else if s[|s| - 1] == m then Without(s[..|s| - 1], m)
    else Without(s[..|s| - 1], m) + [s[|s| - 1]]
  }

  /** From distinct values, taking out one that occurs removes exactly one element. */
  lemma {:induction false} WithoutDistinct(s: seq<int>, m: int)
    requires NoDuplicates(s)
    ensures NoDuplicates(Without(s, m))
    ensures m in s ==> |Without(s, m)| == |s| - 1
    decreases |s|
  {
    if s != [] {
      var front, last := s[..|s| - 1], s[|s| - 1];
      assert s == front + [last];
      assert NoDuplicates(front);
      WithoutDistinct(front, m);
      assert last !in front by {
        forall i | 0 <= i < |front|
          ensures front[i] != last
        {
          assert front[i] == s[i];
        }
      }
      if last != m {
        var r := Without(front, m);
        forall i, j | 0 <= i < j < |r + [last]|
          ensures (r + [last])[i] != (r + [last])[j]
        {
          if j == |r| {
            assert (r + [last])[i] == r[i] && r[i] in r;
          } else {
            assert (r + [last])[i] == r[i] && (r + [last])[j] == r[j];
          }
        }
        if m in s {
          assert m in front;
        }
      }
    }
  }

  /**
   * `sort((a, b) => a - b)` on the collected ages: the least value taken out and appended until
   * none is left. The ages it is given are distinct, and the result holds the same ages, as
   * many, in strictly ascending order.
   */
  method SortAscending(found: seq<int>) returns (ages: seq<int>)
    requires NoDuplicates(found)
    ensures Increasing(ages)
    ensures forall a :: a in ages <==> a in found
    ensures |ages| == |found|
  {
    ages := [];
    var left := found;
    while left != []
      invariant forall a :: a in found <==> a in left || a in ages
      invariant Increasing(ages)
      invariant forall a, b :: a in ages && b in left ==> a < b
      invariant NoDuplicates(left) && |ages| + |left| == |found|
      decreases |left|
    {
      var k := LeastAt(left);
      var m := left[k];
      forall i | 0 <= i < |ages|
        ensures ages[i] < m
      {
        assert ages[i] in ages && m in left;
      }
      assert forall a :: a in ages + [m] <==> a in ages || a == m;
      WithoutDistinct(left, m);
      ages := ages + [m];
      left := Without(left, m);
    }
  }

  /** `availableAges`: every age some record holds, once each, in ascending order. */
  method AvailableAges(best: map<string, Record>) returns (ages: seq<int>)
    ensures Increasing(ages)
    ensures forall a :: a in ages <==> a in AgeSet(best)
  {
    var found := CollectAges(best);
    ages := SortAscending(found);
  }

  /** Choosing one available age lists at least one swimmer. */
  lemma AvailableAgeListsSomeone(best: map<string, Record>, a: int)
    requires a in AgeSet(best)
    ensures Filtered(best, "", {a}) != {}
  {
    var n :| n in best && best[n].age.Some? && best[n].age.value == a;
    assert n in Filtered(best, "", {a});
  }

  /** `toggleSelect` on values: the name's membership flipped. */
  function Toggled(selected: set<string>, name: string): (r: set<string>)
    ensures name in r <==> name !in selected
    ensures forall other :: other != name ==> (other in r <==> other in selected)
  {
    if name in selected then selected - {name} else selected + {name}
  }

  /** `toggleSelect`: a copy of the selection with the name removed if present, added if not. */
  method ToggleSelect(prev: set<string>, name: string) returns (next: set<string>)
    ensures next == Toggled(prev, name)
  {
    next := prev;
    if name in next {
      next := next - {name};
    } else {
      next := next + {name};
    }
  }

  /** Toggling the same name twice restores the selection. */
  lemma ToggleTwice(selected: set<string>, name: string)
    ensures Toggled(Toggled(selected, name), name) == selected
  {
  }
}
