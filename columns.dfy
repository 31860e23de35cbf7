/**
 * ColumnResolver: `normalizeHeaderName` and `pickColumn`, which find the column for a concept
 * (name, event, time, ...) among the headers by a list of candidate spellings, first by exact
 * normalized name and then by normalized substring.
 */
module ColumnResolver {
  import opened Wrappers
  import opened Strings

  /** A string that normalization leaves as it is: collapsed, no capitals, no å/ä/ö. */
  predicate IsNormalized(s: string) {
    Collapsed(s) && forall i :: 0 <= i < |s| ==> !IsUpper(s[i]) && s[i] != '\U{E5}' && s[i] != '\U{E4}' && s[i] != '\U{F6}'
  }

  /** `normalizeHeaderName`: lower case, white space runs to one blank, å/ä to a and ö to o. */
  function NormalizeHeaderName(name: string): (r: string)
    ensures |r| <= |name|
    ensures IsNormalized(r)
  {
    var low := Lower(name);
    var col := Collapse(low);
    forall i | 0 <= i < |col|
      ensures !IsUpper(col[i])
    {
      CollapseChars(low, col[i]);
    }
    CollapseLength(low);
    FoldNormalizes(col);
    Fold(col)
  }

  /** Folding a collapsed text without capitals gives a normalized one. */
  lemma FoldNormalizes(s: string)
    requires Collapsed(s) && forall i :: 0 <= i < |s| ==> !IsUpper(s[i])
    ensures IsNormalized(Fold(s))
  {
    var f := Fold(s);
    forall i | 0 <= i < |f|
      ensures IsSpace(f[i]) == IsSpace(s[i]) && (f[i] == ' ') == (s[i] == ' ')
    {
      FoldCharSpace(s[i]);
    }
  }

  lemma FoldCharSpace(c: char)
    ensures IsSpace(FoldChar(c)) == IsSpace(c) && (FoldChar(c) == ' ') == (c == ' ')
  {
  }

  lemma {:induction false} CollapseLength(s: string)
    ensures |Collapse(s)| <= |s|
    decreases |s|
  {
    if s != [] {
      if IsSpace(s[0]) {
        TrimStartLength(s[1..]);
        CollapseLength(TrimStart(s[1..]));
      } else {
        CollapseLength(s[1..]);
      }
    }
  }

  lemma TrimStartLength(s: string)
    ensures |TrimStart(s)| <= |s|
  {
  }

  /** A normalized name is its own normalization. */
  lemma NormalizedFixed(s: string)
    requires IsNormalized(s)
    ensures NormalizeHeaderName(s) == s
  {
    assert Lower(s) == s;
    CollapseOfCollapsed(s);
    assert Fold(s) == s;
  }

  /** Normalizing twice is normalizing once. */
  lemma NormalizeIdempotent(name: string)
    ensures NormalizeHeaderName(NormalizeHeaderName(name)) == NormalizeHeaderName(name)
  {
    NormalizedFixed(NormalizeHeaderName(name));
  }

  /**
   * The `Map` built from the `[normalizeHeaderName(h), h]` pairs: its keys in the order in
   * which they were first inserted, and the value stored under each key.
   */
  datatype NormMap = NormMap(keys: seq<string>, values: map<string, string>)

  ghost predicate WellFormed(m: NormMap) {
    (forall k :: k in m.values <==> k in m.keys)
    && (forall p, q :: 0 <= p < q < |m.keys| ==> m.keys[p] != m.keys[q])
  }

  /** The normalized name of every header, position by position. */
  function Norms(headers: seq<string>): (r: seq<string>)
    ensures |r| == |headers|
    ensures forall i :: 0 <= i < |r| ==> r[i] == NormalizeHeaderName(headers[i])
  {
    seq(|headers|, i requires 0 <= i < |headers| => NormalizeHeaderName(headers[i]))
  }

  /** `new Map(pairs)`: setting an existing key keeps its position and replaces its value. */
  function MapOf(ks: seq<string>, vs: seq<string>): (m: NormMap)
    requires |ks| == |vs|
    ensures WellFormed(m)
    ensures forall k :: k in m.values ==> m.values[k] in vs
    ensures forall k :: k in m.values <==> k in ks
  {
    if ks == [] then NormMap([], map[])
    else
      var n := |ks| - 1;
      var m := MapOf(ks[..n], vs[..n]);
      assert forall k :: k in ks <==> k in ks[..n] || k == ks[n];
      NormMap(if ks[n] in m.values then m.keys else m.keys + [ks[n]], m.values[ks[n] := vs[n]])
  }

  function BuildNormMap(headers: seq<string>): (m: NormMap)
    ensures WellFormed(m)
  {
    MapOf(Norms(headers), headers)
  }

  /** The last position of `key` in `ks`, or -1. */
  function LastIndex(ks: seq<string>, key: string): (r: int)
    ensures -1 <= r < |ks|
    ensures r >= 0 ==> (ks[r] == key && forall j :: r < j < |ks| ==> ks[j] != key)
    ensures r == -1 ==> key !in ks
  {
    if ks == [] then -1
    else if ks[|ks| - 1] == key then |ks| - 1
    else LastIndex(ks[..|ks| - 1], key)
  }

  /** The first position of `key` in `ks`, or -1. */
  function FirstIndex(ks: seq<string>, key: string): (r: int)
    ensures -1 <= r < |ks|
    ensures r >= 0 ==> (ks[r] == key && forall j :: 0 <= j < r ==> ks[j] != key)
    ensures r == -1 ==> key !in ks
  {
    if ks == [] then -1
    else
      var r := FirstIndex(ks[..|ks| - 1], key);
      if r >= 0 then r else if ks[|ks| - 1] == key then |ks| - 1 else -1
  }

  /** The value under a key is the one paired with its LAST occurrence. */
  lemma {:induction false} MapOfLastValue(ks: seq<string>, vs: seq<string>, key: string)
    requires |ks| == |vs| && key in ks
    ensures MapOf(ks, vs).values[key] == vs[LastIndex(ks, key)]
    decreases |ks|
  {
    var n := |ks| - 1;
    if ks[n] != key {
      assert key in ks[..n] by {
        var j := LastIndex(ks, key);
        assert ks[..n][j] == key;
      }
      MapOfLastValue(ks[..n], vs[..n], key);
    }
  }

  /** Map order: a key listed before another first occurs before it. */
  ghost predicate FirstOrdered(ks: seq<string>, keys: seq<string>) {
    forall p, q :: 0 <= p < q < |keys| ==> FirstIndex(ks, keys[p]) < FirstIndex(ks, keys[q])
  }

  lemma FirstIndexPrefix(ks: seq<string>, k: string)
    requires ks != [] && k in ks[..|ks| - 1]
    ensures FirstIndex(ks, k) == FirstIndex(ks[..|ks| - 1], k) < |ks| - 1
  {
  }

  /** The keys are ordered by their FIRST occurrence. */
  lemma {:induction false} MapOfFirstOrder(ks: seq<string>, vs: seq<string>)
    requires |ks| == |vs|
    ensures FirstOrdered(ks, MapOf(ks, vs).keys)
    decreases |ks|
  {
    if ks != [] {
      var n := |ks| - 1;
      var m0 := MapOf(ks[..n], vs[..n]);
      var keys := MapOf(ks, vs).keys;
      MapOfFirstOrder(ks[..n], vs[..n]);
      forall p | 0 <= p < |m0.keys|
        ensures FirstIndex(ks, m0.keys[p]) == FirstIndex(ks[..n], m0.keys[p]) < n
      {
        assert m0.keys[p] in m0.values;
        FirstIndexPrefix(ks, m0.keys[p]);
      }
      if ks[n] in m0.values {
        assert keys == m0.keys;
      } else {
        assert keys == m0.keys + [ks[n]];
        assert FirstIndex(ks, ks[n]) == n;
      }
    }
  }

  /** The index of the first key (in map order) that contains `norm`, or -1. */
  function FirstContaining(keys: seq<string>, norm: string): (r: int)
    ensures -1 <= r < |keys|
    ensures r >= 0 ==> (Contains(keys[r], norm) && forall j :: 0 <= j < r ==> !Contains(keys[j], norm))
    ensures r == -1 ==> forall j :: 0 <= j < |keys| ==> !Contains(keys[j], norm)
  {
    if keys == [] then -1
    else if Contains(keys[0], norm) then 0
    else
      var r := FirstContaining(keys[1..], norm);
      assert forall j :: 1 <= j < |keys| ==> keys[j] == keys[1..][j - 1];
      if r == -1 then -1 else r + 1
  }

  /** One candidate against the map: the exact key, else the first key containing it. */
  function Lookup(m: NormMap, norm: string): (r: Option<string>)
    requires WellFormed(m)
    ensures r.Some? ==> exists k :: k in m.values && Contains(k, norm) && r.value == m.values[k]
    ensures r.None? <==> forall k :: k in m.values ==> !Contains(k, norm)
    ensures norm in m.values ==> r == Some(m.values[norm])
  {
    if norm in m.values then
      ContainsSelf(norm);
      Some(m.values[norm])
    else
      var j := FirstContaining(m.keys, norm);
      if j >= 0 then Some(m.values[m.keys[j]])
      else
        assert forall k :: k in m.values ==> !Contains(k, norm) by {
          forall k | k in m.values ensures !Contains(k, norm) {
            var p :| 0 <= p < |m.keys| && m.keys[p] == k;
          }
        }
        None
  }

  /** The candidates tried in order; the first that finds a column decides. */
  function Pick(m: NormMap, candidates: seq<string>): Option<string>
    requires WellFormed(m)
  {
    if candidates == [] then None
    else
      var r := Lookup(m, NormalizeHeaderName(candidates[0]));
      if r.Some? then r else Pick(m, candidates[1..])
  }

  /** Some header's normalized name contains the normalized candidate. */
  predicate Matches(headers: seq<string>, c: string) {
    exists i :: 0 <= i < |headers| && Contains(NormalizeHeaderName(headers[i]), NormalizeHeaderName(c))
  }

  predicate AnyMatch(headers: seq<string>, candidates: seq<string>) {
    exists j :: 0 <= j < |candidates| && Matches(headers, candidates[j])
  }

  lemma LookupMatches(headers: seq<string>, c: string)
    ensures Lookup(BuildNormMap(headers), NormalizeHeaderName(c)).Some? <==> Matches(headers, c)
  {
    var m := BuildNormMap(headers);
    var ns := Norms(headers);
    var norm := NormalizeHeaderName(c);
    if Matches(headers, c) {
      var i :| 0 <= i < |headers| && Contains(NormalizeHeaderName(headers[i]), norm);
      assert ns[i] in m.values;
    }
    if Lookup(m, norm).Some? {
      var k :| k in m.values && Contains(k, norm);
      var i :| 0 <= i < |ns| && ns[i] == k;
    }
  }

  /** What the map holds under a key is a header that normalizes to that key. */
  lemma ValueNormalizesToKey(headers: seq<string>, k: string)
    requires k in BuildNormMap(headers).values
    ensures BuildNormMap(headers).values[k] in headers
    ensures NormalizeHeaderName(BuildNormMap(headers).values[k]) == k
  {
    var ns := Norms(headers);
    MapOfLastValue(ns, headers, k);
    var i := LastIndex(ns, k);
    assert ns[i] == NormalizeHeaderName(headers[i]);
  }

  /** Some candidate's normalized form occurs in the normalized `v`. */
  predicate MatchedBy(v: string, candidates: seq<string>) {
    exists j :: 0 <= j < |candidates| && Contains(NormalizeHeaderName(v), NormalizeHeaderName(candidates[j]))
  }

  /**
   * `pickColumn` finds nothing exactly when no candidate is contained in any normalized header;
   * what it finds is a header, and one that some candidate matches.
   */
  lemma {:induction false} PickSound(headers: seq<string>, candidates: seq<string>)
    ensures var r := Pick(BuildNormMap(headers), candidates);
      (r.None? <==> !AnyMatch(headers, candidates))
      && (r.Some? ==> r.value in headers && MatchedBy(r.value, candidates))
    decreases |candidates|
  {
    var m := BuildNormMap(headers);
    if candidates != [] {
      var c := candidates[0];
      LookupMatches(headers, c);
      var r := Lookup(m, NormalizeHeaderName(c));
      if r.Some? {
        var k :| k in m.values && Contains(k, NormalizeHeaderName(c)) && r.value == m.values[k];
        ValueNormalizesToKey(headers, k);
        assert Contains(NormalizeHeaderName(r.value), NormalizeHeaderName(candidates[0]));
      } else {
        PickSound(headers, candidates[1..]);
        AnyMatchCons(headers, candidates);
        var r' := Pick(m, candidates[1..]);
        if r'.Some? {
          MatchedByCons(r'.value, candidates);
        }
      }
    }
  }

  lemma AnyMatchCons(headers: seq<string>, candidates: seq<string>)
    requires candidates != []
    ensures AnyMatch(headers, candidates) <==> Matches(headers, candidates[0]) || AnyMatch(headers, candidates[1..])
  {
    assert forall j :: 1 <= j < |candidates| ==> candidates[j] == candidates[1..][j - 1];
    if AnyMatch(headers, candidates[1..]) {
      var j :| 0 <= j < |candidates[1..]| && Matches(headers, candidates[1..][j]);
      assert Matches(headers, candidates[j + 1]);
    }
  }

  lemma MatchedByCons(v: string, candidates: seq<string>)
    requires candidates != [] && MatchedBy(v, candidates[1..])
    ensures MatchedBy(v, candidates)
  {
    var j :| 0 <= j < |candidates[1..]| && Contains(NormalizeHeaderName(v), NormalizeHeaderName(candidates[1..][j]));
    assert candidates[1..][j] == candidates[j + 1];
  }

  /**
   * Candidate order is a priority, and among headers that normalize alike the last one wins:
   * when the first candidate equals some header's normalized name, the result is the last
   * header with that name, whatever later candidates match.
   */
  lemma ExactFirstCandidateWins(headers: seq<string>, candidates: seq<string>, i: nat)
    requires candidates != [] && i < |headers|
    requires NormalizeHeaderName(headers[i]) == NormalizeHeaderName(candidates[0])
    ensures Pick(BuildNormMap(headers), candidates)
      == Some(headers[LastIndex(Norms(headers), NormalizeHeaderName(candidates[0]))])
  {
    var ns := Norms(headers);
    assert ns[i] == NormalizeHeaderName(candidates[0]);
    MapOfLastValue(ns, headers, ns[i]);
  }

  /**
   * Without an exact match the substring search goes through the keys in the order of the
   * first header bearing each name, and returns the last header bearing the chosen name.
   */
  lemma SubstringSearchOrder(headers: seq<string>, c: string)
    requires NormalizeHeaderName(c) !in Norms(headers)
    ensures var m := BuildNormMap(headers);
      var j := FirstContaining(m.keys, NormalizeHeaderName(c));
      Lookup(m, NormalizeHeaderName(c)) == (if j < 0 then None else Some(headers[LastIndex(Norms(headers), m.keys[j])]))
      && FirstOrdered(Norms(headers), m.keys)
  {
    var m := BuildNormMap(headers);
    var ns := Norms(headers);
    var norm := NormalizeHeaderName(c);
    assert norm !in m.values;
    var j := FirstContaining(m.keys, norm);
    MapOfFirstOrder(ns, headers);
    if j >= 0 {
      assert m.keys[j] in m.values;
      MapOfLastValue(ns, headers, m.keys[j]);
    }
  }

  /** A candidate that matches nothing is skipped: the later candidates decide. */
  lemma MissedCandidateSkipped(headers: seq<string>, candidates: seq<string>)
    requires candidates != [] && !Matches(headers, candidates[0])
    ensures Pick(BuildNormMap(headers), candidates) == Pick(BuildNormMap(headers), candidates[1..])
  {
    LookupMatches(headers, candidates[0]);
  }

  /** The first loop of `pickColumn`: one map entry set per header, in order. */
  method BuildMap(headers: seq<string>) returns (keys: seq<string>, values: map<string, string>)
    ensures NormMap(keys, values) == BuildNormMap(headers)
  {
    var ns := Norms(headers);
    keys, values := [], map[];
    for i := 0 to |headers|
      invariant NormMap(keys, values) == MapOf(ns[..i], headers[..i])
    {
      assert ns[..i + 1][..i] == ns[..i];
      assert headers[..i + 1][..i] == headers[..i];
      var k := NormalizeHeaderName(headers[i]);
      if k !in values {
        keys := keys + [k];
      }
      values := values[k := headers[i]];
    }
    assert ns[..|headers|] == ns;
    assert headers[..|headers|] == headers;
  }

  /** The `for ... of normMap.entries()` scan: the first key containing `norm`. */
  method ScanKeys(keys: seq<string>, norm: string) returns (p: int)
    ensures p == FirstContaining(keys, norm)
  {
    for i := 0 to |keys|
      invariant forall q :: 0 <= q < i ==> !Contains(keys[q], norm)
    {
      if Contains(keys[i], norm) {
        return i;
      }
    }
    return -1;
  }

  /**
   * `pickColumn`: the map is filled by one loop over the headers, then each candidate is
   * tried against it, exact key first and then every key in map order.
   */
  method PickColumn(headers: seq<string>, candidates: seq<string>) returns (r: Option<string>)
    ensures r == Pick(BuildNormMap(headers), candidates)
    ensures r.None? <==> !AnyMatch(headers, candidates)
    ensures r.Some? ==> r.value in headers
  {
    var keys, values := BuildMap(headers);
    ghost var m := NormMap(keys, values);
    PickSound(headers, candidates);
    for j := 0 to |candidates|
      invariant Pick(m, candidates) == Pick(m, candidates[j..])
    {
      assert candidates[j..][1..] == candidates[j + 1..];
      var norm := NormalizeHeaderName(candidates[j]);
      if norm in values {
        return Some(values[norm]);
      }
      var p := ScanKeys(keys, norm);
      if p >= 0 {
        return Some(values[keys[p]]);
      }
    }
    return None;
  }

  const NameCandidates: seq<string> := ["Simidrottare", "Namn", "Simmare", "Namn på simmare", "Simmarens namn"]
  const EventCandidates: seq<string> := ["Gren", "Simgren", "Distans"]
  const TimeCandidates: seq<string> := ["Tid", "Resultat", "Sluttid"]
  const GenderCandidates: seq<string> := ["Kön", "Kon", "Gender", "K"]
  const AgeCandidates: seq<string> := ["Ålder vid loppet", "Alder vid loppet", "Ålder idag", "Alder idag", "Ålder", "Alder"]
  const BornCandidates: seq<string> := ["Född", "Fodd", "Födelseår", "Fodelsear"]
  const DateCandidates: seq<string> := ["Datum", "Tävlingsdatum", "Tavlingsdatum"]

  /** A name whose lower-case form is already normalized normalizes to that form. */
  lemma LowerIsNormal(name: string, t: string)
    requires Lower(name) == t && IsNormalized(t)
    ensures NormalizeHeaderName(name) == t
  {
    CollapseOfCollapsed(t);
    assert Fold(t) == t;
  }

  lemma ContainsChar(s: string, c: char)
    ensures Contains(s, [c]) <==> c in s
  {
    if c in s {
      var i :| 0 <= i < |s| && s[i] == c;
      assert OccursAt(s, [c], i);
    }
    if Contains(s, [c]) {
      var i :| 0 <= i <= |s| - 1 && OccursAt(s, [c], i);
      assert s[i..i + 1][0] == s[i];
    }
  }

  /** With none of the first three gender spellings present, only "K" is left to decide. */
  lemma OnlyKLeft(headers: seq<string>)
    requires !Matches(headers, GenderCandidates[0]) && !Matches(headers, GenderCandidates[1])
    requires !Matches(headers, GenderCandidates[2])
    ensures Pick(BuildNormMap(headers), GenderCandidates) == Pick(BuildNormMap(headers), ["K"])
  {
    var cs := GenderCandidates;
    MissedCandidateSkipped(headers, cs);
    MissedCandidateSkipped(headers, cs[1..]);
    MissedCandidateSkipped(headers, cs[1..][1..]);
    assert cs[1..][1..][1..] == ["K"];
  }

  /** The candidate "K" finds a header exactly when some normalized header has a k in it. */
  lemma KFindsAnyK(headers: seq<string>)
    ensures var r := Pick(BuildNormMap(headers), ["K"]);
      (r.Some? <==> exists i :: 0 <= i < |headers| && 'k' in NormalizeHeaderName(headers[i]))
      && (r.Some? ==> r.value in headers && 'k' in NormalizeHeaderName(r.value))
  {
    LowerIsNormal("K", "k");
    PickSound(headers, ["K"]);
    forall i | 0 <= i < |headers|
      ensures Contains(NormalizeHeaderName(headers[i]), "k") <==> 'k' in NormalizeHeaderName(headers[i])
    {
      ContainsChar(NormalizeHeaderName(headers[i]), 'k');
    }
    var r := Pick(BuildNormMap(headers), ["K"]);
    if r.Some? {
      ContainsChar(NormalizeHeaderName(r.value), 'k');
    }
  }

  /**
   * The last gender candidate "K" is contained in every normalized header with a k in it:
   * an export whose headers match none of the other gender spellings takes any header with
   * a k in it (a club column "Klubb", say) as the gender column.
   */
  lemma GenderFallsBackToAnyK(headers: seq<string>)
    requires !Matches(headers, GenderCandidates[0]) && !Matches(headers, GenderCandidates[1])
    requires !Matches(headers, GenderCandidates[2])
    requires exists i :: 0 <= i < |headers| && 'k' in NormalizeHeaderName(headers[i])
    ensures var r := Pick(BuildNormMap(headers), GenderCandidates);
      r.Some? && r.value in headers && 'k' in NormalizeHeaderName(r.value)
  {
    OnlyKLeft(headers);
    KFindsAnyK(headers);
  }
}
