/**
 * GenderClassifier: `normalizeGender`, which reads a free-text gender cell as "Dam" (women),
 * "Herr" (men) or nothing, by looking for marker words in a fixed precedence.
 */
module GenderClassifier {
  import opened Strings

  /** The three outcomes; `GenderName` is the text the program stores for each. */
  datatype Gender = Dam | Herr | Unknown

  function GenderName(g: Gender): string {
    match g
    case Dam => "Dam"
    case Herr => "Herr"
    case Unknown => ""
  }

  /** The words that mark a woman or a girl, in the order they are tried. */
  const DamWords: seq<string> := ["dam", "kvinna", "f", "female", "flicka", "flickor"]

  /** The words that mark a man or a boy. */
  const HerrWords: seq<string> := ["herr", "man", "m", "male", "pojke", "pojkar"]

  /** Some word of the list occurs somewhere in the text. */
  predicate ContainsAny(s: string, words: seq<string>) {
    exists i | 0 <= i < |words| :: Contains(s, words[i])
  }

  /**
   * `normalizeGender`: on the lower-cased text, any women's word wins, then any men's word,
   * then the single letters "k" (kvinna) and "h" (herr); an empty or unrecognised text gives
   * nothing.
   */
  function NormalizeGender(val: string): (g: Gender)
    ensures val == [] ==> g == Unknown
  {
    var s := Lower(val);
    if s == [] then Unknown
    else if ContainsAny(s, DamWords) then Dam
    else if ContainsAny(s, HerrWords) then Herr
    else if s == "k" then Dam
    else if s == "h" then Herr
    else Unknown
  }

  /**
   * The women's words reduced to what matters: "female", "flicka" and "flickor" all hold an
   * "f", so any "f" at all marks a woman.
   */
  predicate MarksDam(s: string) {
    'f' in s || Contains(s, "dam") || Contains(s, "kvinna")
  }

  /** Likewise "man" and "male" hold an "m", so any "m" marks a man. */
  predicate MarksHerr(s: string) {
    'm' in s || Contains(s, "herr") || Contains(s, "pojke") || Contains(s, "pojkar")
  }

  /** A one-letter word occurs exactly when its letter does. */
  lemma ContainsLetter(s: string, w: string)
    requires |w| == 1
    ensures Contains(s, w) <==> w[0] in s
  {
    if w[0] in s {
      var i :| 0 <= i < |s| && s[i] == w[0];
      assert OccursAt(s, w, i);
    }
  }

  /** A text that holds a word holds the word's first letter. */
  lemma ContainsHead(s: string, w: string)
    requires w != [] && Contains(s, w)
    ensures w[0] in s
  {
    var i :| 0 <= i <= |s| - |w| && OccursAt(s, w, i);
    assert s[i] == s[i..i + |w|][0];
  }

  lemma DamWordsReduce(s: string)
    ensures ContainsAny(s, DamWords) <==> MarksDam(s)
  {
    ContainsLetter(s, "f");
    if ContainsAny(s, DamWords) {
      var i :| 0 <= i < |DamWords| && Contains(s, DamWords[i]);
      if i >= 2 {
        ContainsHead(s, DamWords[i]);
      }
    } else {
      assert !Contains(s, DamWords[0]) && !Contains(s, DamWords[1]) && !Contains(s, DamWords[2]);
    }
  }

  lemma HerrWordsReduce(s: string)
    ensures ContainsAny(s, HerrWords) <==> MarksHerr(s)
  {
    ContainsLetter(s, "m");
    if ContainsAny(s, HerrWords) {
      var i :| 0 <= i < |HerrWords| && Contains(s, HerrWords[i]);
      if i == 1 || i == 3 {
        ContainsHead(s, HerrWords[i]);
      }
    } else {
      assert !Contains(s, HerrWords[0]) && !Contains(s, HerrWords[2]);
      assert !Contains(s, HerrWords[4]) && !Contains(s, HerrWords[5]);
    }
  }

  /**
   * What `normalizeGender` decides, on the lower-cased text: women whenever a women's mark
   * occurs (whatever else does) or the text is exactly "k"; men when no women's mark occurs and
   * a men's mark does or the text is exactly "h"; nothing otherwise.
   */
  lemma NormalizeGenderMeaning(val: string)
    ensures NormalizeGender(val) == Dam <==> MarksDam(Lower(val)) || Lower(val) == "k"
    ensures NormalizeGender(val) == Herr
      <==> !MarksDam(Lower(val)) && (MarksHerr(Lower(val)) || Lower(val) == "h")
  {
    var s := Lower(val);
    DamWordsReduce(s);
    HerrWordsReduce(s);
    if s == "k" || s == "h" {
      assert s[0] != 'f' && s[0] != 'm';
      MissingLetter(s, "dam", 0);
      MissingLetter(s, "kvinna", 1);
      MissingLetter(s, "herr", 1);
      MissingLetter(s, "pojke", 0);
      MissingLetter(s, "pojkar", 0);
    }
  }

  /** The stored names classify back to themselves: "Dam", "Herr" and "" are fixed points. */
  lemma NameRoundTrip(g: Gender)
    ensures NormalizeGender(GenderName(g)) == g
  {
    var s := Lower(GenderName(g));
    DamWordsReduce(s);
    HerrWordsReduce(s);
    match g
    case Dam =>
      assert s == "dam";
      ContainsSelf(s);
    case Herr =>
      assert s == "herr";
      ContainsSelf(s);
      MissingLetter(s, "dam", 0);
      MissingLetter(s, "kvinna", 0);
    case Unknown =>
  }

  /** Classifying a classification changes nothing. */
  lemma NormalizeGenderIdempotent(val: string)
    ensures NormalizeGender(GenderName(NormalizeGender(val))) == NormalizeGender(val)
  {
    NameRoundTrip(NormalizeGender(val));
  }

  /** Letter case does not matter. */
  lemma NormalizeGenderCaseInsensitive(val: string)
    ensures NormalizeGender(Lower(val)) == NormalizeGender(val)
  {
    LowerIdempotent(val);
  }

  /** A cell reading "Mix" counts as men, because it holds an "m". */
  lemma MixIsHerr()
    ensures NormalizeGender("Mix") == Herr
  {
    var s := Lower("Mix");
    assert s == "mix";
    NormalizeGenderMeaning("Mix");
    MissingLetter(s, "dam", 0);
    MissingLetter(s, "kvinna", 0);
  }
}
