/**
 * TimeCodec: reading a result time ("1:05,32", "35.4", "1:02:03.5") into seconds, and writing
 * seconds back as "m:ss.hh". Times are exact rationals here; `NaN` is `None`.
 */
module TimeCodec {
  import opened Wrappers
  import opened Strings

  /** The characters the time reader keeps: `[0-9:.]`. */
  predicate IsTimeChar(c: char) {
    IsDigit(c) || c == ':' || c == '.'
  }

  /** `replace(/,/g, ".")`: a decimal comma becomes a decimal point. */
  function CommaToDot(s: string): (r: string)
    ensures |r| == |s| && ',' !in r
  {
    seq(|s|, i requires 0 <= i < |s| => if s[i] == ',' then '.' else s[i])
  }

  /** The value of the digits `b` read after a decimal point, 0.b. */
  function Fraction(b: string): (r: real)
    requires AllDigits(b)
    ensures 0.0 <= r <= 1.0
  {
    if b == [] then 0.0 else (DigitValue(b[0]) as real + Fraction(b[1..])) / 10.0
  }

  /** The value of digits `a` before and `b` after a decimal point. */
  function Decimal(a: string, b: string): (r: real)
    requires AllDigits(a) && AllDigits(b)
    ensures r >= 0.0
  {
    DigitsValue(a) as real + Fraction(b)
  }

  /** `parseInt(t, 10)` on a text of digits, colons and points: its leading digits, or NaN. */
  function ParseInt(t: string): (r: Option<int>)
    ensures r.Some? ==> r.value >= 0
    ensures r.Some? <==> t != [] && IsDigit(t[0])
  {
    var d := LeadingDigits(t);
    if d == [] then None else Some(DigitsValue(d))
  }

  /**
   * `parseFloat(t)` on a text of digits, colons and points: the longest prefix of the form
   * `D+`, `D+.D*` or `.D+`, or NaN when there is none.
   */
  function ParseFloat(t: string): (r: Option<real>)
    ensures r.Some? ==> r.value >= 0.0
  {
    var a := LeadingDigits(t);
    var rest := t[|a|..];
    var b := if rest != [] && rest[0] == '.' then LeadingDigits(rest[1..]) else [];
    if a == [] && b == [] then None else Some(Decimal(a, b))
  }

  /** `x || 0` for a number that may be NaN. */
  function OrZero(x: Option<int>): int {
    if x.Some? then x.value else 0
  }

  /** The text the reader splits: trimmed, commas to points, only `[0-9:.]` kept. */
  function Clean(str: string): (r: string)
    ensures forall c :: c in r ==> IsTimeChar(c)
  {
    Filter(CommaToDot(Trim(str)), IsTimeChar)
  }

  /** The value of the colon-separated parts: seconds, m:s, or h:m:s. */
  function ReadParts(parts: seq<string>): (r: Option<real>)
    requires |parts| >= 1
    ensures r.Some? ==> r.value >= 0.0
  {
    if |parts| == 1 then ParseFloat(parts[0])
    else if |parts| == 2 then
      var m := ParseInt(parts[0]);
      var s := ParseFloat(parts[1]);
      if m.Some? && s.Some? then Some(m.value as real * 60.0 + s.value) else None
    else
      var h := OrZero(ParseInt(parts[0]));
      var m := OrZero(ParseInt(parts[1]));
      var s := ParseFloat(Join(parts[2..], ":"));
      if s.Some? then Some(h as real * 3600.0 + m as real * 60.0 + s.value) else None
  }

  /**
   * `parseTimeToSeconds`: seconds, minutes:seconds, or hours:minutes:seconds, after trimming,
   * turning commas into points and dropping every character but digits, colons and points.
   */
  function ParseTimeToSeconds(str: string): (r: Option<real>)
    ensures r.Some? ==> r.value >= 0.0
  {
    if str == [] then None
    else
      var clean := Clean(str);
      if clean == [] then None else ReadParts(Split(clean, ':'))
  }

  /** `parseFloat` reads nothing from a text without a digit. */
  lemma ParseFloatNeedsDigit(t: string)
    requires forall i :: 0 <= i < |t| ==> !IsDigit(t[i])
    ensures ParseFloat(t) == None
  {
    var rest := t[|LeadingDigits(t)|..];
    if rest != [] && rest[0] == '.' && |rest| > 1 {
      assert rest[1..][0] == t[1];
    }
  }

  lemma JoinWithoutDigits(parts: seq<string>, sep: string)
    requires forall k, i :: 0 <= k < |parts| && 0 <= i < |parts[k]| ==> !IsDigit(parts[k][i])
    requires forall i :: 0 <= i < |sep| ==> !IsDigit(sep[i])
    ensures forall i :: 0 <= i < |Join(parts, sep)| ==> !IsDigit(Join(parts, sep)[i])
  {
    if |parts| > 1 {
      JoinWithoutDigits(parts[1..], sep);
      var rest := Join(parts[1..], sep);
      forall i | 0 <= i < |Join(parts, sep)|
        ensures !IsDigit(Join(parts, sep)[i])
      {
        var p0 := parts[0];
        if i < |p0| {
        } else if i < |p0| + |sep| {
          assert Join(parts, sep)[i] == sep[i - |p0|];
        } else {
          assert Join(parts, sep)[i] == rest[i - |p0| - |sep|];
        }
      }
    }
  }

  lemma SplitKeepsChars(s: string, c: char, k: nat, x: char)
    requires k < |Split(s, c)| && x in Split(s, c)[k]
    ensures x in s
  {
    if s != [] {
      var rest := Split(s[1..], c);
      if s[0] == c {
        if k > 0 {
          SplitKeepsChars(s[1..], c, k - 1, x);
        }
      } else if k == 0 {
        if x != s[0] {
          SplitKeepsChars(s[1..], c, 0, x);
        }
      } else {
        SplitKeepsChars(s[1..], c, k, x);
      }
    }
  }

  /** A time text without a single digit reads as NaN, in every one of the three forms. */
  lemma NoDigitNoTime(str: string)
    requires forall i :: 0 <= i < |str| ==> !IsDigit(str[i])
    ensures ParseTimeToSeconds(str) == None
  {
    if str != [] {
      var t := Trim(str);
      forall i | 0 <= i < |t|
        ensures !IsDigit(t[i])
      {
        TrimChars(str, t[i]);
      }
      var clean := Clean(str);
      if clean != [] {
        var parts := Split(clean, ':');
        forall k, i | 0 <= k < |parts| && 0 <= i < |parts[k]|
          ensures !IsDigit(parts[k][i])
        {
          SplitKeepsChars(clean, ':', k, parts[k][i]);
        }
        if |parts| == 1 {
          ParseFloatNeedsDigit(parts[0]);
        } else if |parts| == 2 {
          ParseFloatNeedsDigit(parts[1]);
        } else {
          JoinWithoutDigits(parts[2..], ":");
          ParseFloatNeedsDigit(Join(parts[2..], ":"));
        }
      }
    }
  }

  /** `s.padStart(width, c)`. */
  function PadStart(s: string, width: nat, c: char): (r: string)
    ensures |r| == if |s| >= width then |s| else width
    ensures r[|r| - |s|..] == s
    ensures forall i :: 0 <= i < |r| - |s| ==> r[i] == c
  {
    if |s| >= width then s else seq(width - |s|, _ => c) + s
  }

  /** The two-digit text of `d < 100`. */
  function TwoDigits(d: nat): (r: string)
    requires d < 100
    ensures |r| == 2 && AllDigits(r) && DigitsValue(r) == d
  {
    var r := [DigitChar(d / 10), DigitChar(d % 10)];
    assert r[..1] == [DigitChar(d / 10)];
    assert r[..1][..0] == [];
    assert DigitsValue(r[..1]) == d / 10;
    r
  }

  /** `toFixed(2)` of the number `n / 100`, for a whole number `n >= 0` of hundredths. */
  function Fixed2(n: nat): (r: string) {
    NatToString(n / 100) + "." + TwoDigits(n % 100)
  }

  /** `toFixed` rounding: the nearest whole number, halves upward. */
  function RoundHalfUp(x: real): int {
    (x + 0.5).Floor
  }

  /** The text `${m}:${s.toFixed(2).padStart(5, "0")}` for `m` minutes and `k` hundredths of seconds. */
  function MinutesText(m: int, k: nat): string {
    IntToString(m) + ":" + PadStart(Fixed2(k), 5, '0')
  }

  /**
   * `secondsToTimeStr` as written: whole minutes first, then the remaining seconds rounded
   * to hundredths. The rounding can carry the seconds up to 60.
   */
  function SecondsToTimeStr(sec: Option<real>): (r: string)
    ensures sec.None? <==> r == ""
  {
    if sec.None? then "" else AsWrittenText(sec.value)
  }

  /** The as-written text of a finite time. */
  function AsWrittenText(x: real): string {
    var m := (x / 60.0).Floor;
    var s := x - m as real * 60.0;
    var n := RoundHalfUp(s * 100.0);
    MinutesText(m, n)
  }

  /**
   * The as-written text of a time taken apart: the whole minutes `m` and the rounded
   * hundredths `k` of what is left.
   */
  lemma AsWrittenParts(sec: real) returns (m: int, k: nat)
    ensures ((sec / 60.0).Floor, RoundHalfUp((sec - (sec / 60.0).Floor as real * 60.0) * 100.0)) == (m, k)
    ensures AsWrittenText(sec) == MinutesText(m, k)
  {
    MinuteRemainder(sec);
    m := (sec / 60.0).Floor;
    k := RoundHalfUp((sec - m as real * 60.0) * 100.0);
  }

  /** The seconds part of the as-written text reaches "60.00" for 59.999 seconds. */
  lemma SecondsCarryToSixty()
    ensures SecondsToTimeStr(Some(59.999)) == "0:60.00"
  {
    var m, k := AsWrittenParts(59.999);
    CarryValues();
    SixtySeconds();
  }

  /** 59.999 seconds: no whole minute, and 6000 hundredths once rounded. */
  lemma CarryValues()
    ensures ((59.999 / 60.0).Floor, RoundHalfUp((59.999 - (59.999 / 60.0).Floor as real * 60.0) * 100.0)) == (0, 6000)
  {
    assert (59.999 / 60.0).Floor == 0;
  }

  /** No minute and 6000 hundredths are written "0:60.00". */
  lemma SixtySeconds()
    ensures MinutesText(0, 6000) == "0:60.00"
  {
    SixtyFixed();
    ZeroMinutes(PadStart(Fixed2(6000), 5, '0'));
  }

  lemma ZeroMinutes(p: string)
    requires p == "60.00"
    ensures IntToString(0) + ":" + p == "0:60.00"
  {
    assert IntToString(0) == "0";
  }

  /** 6000 hundredths are written "60.00", already five characters wide. */
  lemma SixtyFixed()
    ensures PadStart(Fixed2(6000), 5, '0') == "60.00"
  {
    assert NatToString(60) == "60" by {
      assert NatToString(6) == "6";
    }
    assert TwoDigits(0) == "00";
  }

  /** The time rounded to hundredths, as a whole number of hundredths. */
  function Hundredths(sec: real): int {
    RoundHalfUp(sec * 100.0)
  }

  /**
   * The corrected `secondsToTimeStr`: round the whole time to hundredths first, then split
   * it into minutes and seconds, so the seconds part is always below 60.
   */
  function FormatTime(sec: Option<real>): (r: string)
    ensures sec.None? <==> r == ""
  {
    if sec.None? then "" else CorrectedText(sec.value)
  }

  /** The corrected text of a finite time. */
  function CorrectedText(x: real): string {
    var n := Hundredths(x);
    MinutesText(n / 6000, n % 6000)
  }

  /** The seconds part of a corrected time: two digits, a point, two digits, at most "59.99". */
  lemma SecondsPart(rest: nat)
    requires rest < 6000
    ensures var f := PadStart(Fixed2(rest), 5, '0');
      f == TwoDigits(rest / 100) + "." + TwoDigits(rest % 100)
      && DigitsValue(TwoDigits(rest / 100)) < 60
  {
    var s := rest / 100;
    if s < 10 {
      assert NatToString(s) == [DigitChar(s)];
      assert TwoDigits(s) == "0" + [DigitChar(s)];
    } else {
      var q := NatToString(s);
      assert q == NatToString(s / 10) + [DigitChar(s % 10)];
      assert NatToString(s / 10) == [DigitChar(s / 10)];
    }
  }

  /** The corrected text of `n` hundredths: minutes, a colon, two-digit seconds, a point, two digits. */
  function Clock(n: nat): string {
    NatToString(n / 6000) + [':'] + (TwoDigits(n % 6000 / 100) + "." + TwoDigits(n % 100))
  }

  /** The corrected text never shows 60 or more seconds: it is the clock text of the rounded time. */
  lemma FormatTimeSecondsBelowSixty(sec: real)
    requires sec >= 0.0
    ensures Hundredths(sec) >= 0 && FormatTime(Some(sec)) == Clock(Hundredths(sec))
  {
    ClockOfMinutesText(Hundredths(sec));
  }

  /** Splitting a whole number of hundredths into minutes and the rest gives the clock text. */
  lemma ClockOfMinutesText(n: nat)
    ensures MinutesText(n / 6000, n % 6000) == Clock(n)
    ensures n % 6000 / 100 < 60
  {
    var f := PadStart(Fixed2(n % 6000), 5, '0');
    assert MinutesText(n / 6000, n % 6000) == IntToString(n / 6000) + ":" + f;
    SecondsPart(n % 6000);
    ModNest(n);
  }

  lemma ModNest(n: int)
    ensures n % 6000 % 100 == n % 100
  {
    var q, r := n / 6000, n % 6000;
    assert n == 100 * (60 * q) + r;
  }

  lemma NoSpaceTrimmed(s: string)
    requires forall i :: 0 <= i < |s| ==> !IsSpace(s[i])
    ensures Trim(s) == s
  {
    TrimOfTrimmed(s);
  }

  lemma {:induction false} SplitWithout(a: string, c: char)
    requires c !in a
    ensures Split(a, c) == [a]
  {
    if a != [] {
      SplitWithout(a[1..], c);
      assert [a[0]] + a[1..] == a;
    }
  }

  lemma {:induction false} SplitOnce(a: string, b: string, c: char)
    requires c !in a && c !in b
    ensures Split(a + [c] + b, c) == [a, b]
  {
    if a == [] {
      assert a + [c] + b == [c] + b;
      assert ([c] + b)[1..] == b;
      SplitWithout(b, c);
    } else {
      assert (a + [c] + b)[0] == a[0];
      assert (a + [c] + b)[1..] == a[1..] + [c] + b;
      SplitOnce(a[1..], b, c);
      assert [a[0]] + a[1..] == a;
    }
  }

  lemma {:induction false} LeadingDigitsOf(a: string, b: string)
    requires AllDigits(a) && (b == [] || !IsDigit(b[0]))
    ensures LeadingDigits(a + b) == a
  {
    if a != [] {
      assert (a + b)[1..] == a[1..] + b;
      LeadingDigitsOf(a[1..], b);
    } else {
      assert a + b == b;
    }
  }

  /** `parseFloat` of "ss.hh" reads exactly ss + hh/100. */
  lemma ParseFixed(ss: string, hh: string)
    requires |ss| == 2 && |hh| == 2 && AllDigits(ss) && AllDigits(hh)
    ensures ParseFloat(ss + "." + hh) == Some(DigitsValue(ss) as real + DigitsValue(hh) as real / 100.0)
  {
    TwoDecimals(ss, hh);
    var t := ss + "." + hh;
    LeadingDigitsOf(ss, "." + hh);
    assert t == ss + ("." + hh);
    assert t[|ss|..] == "." + hh;
    assert ("." + hh)[1..] == hh;
    LeadingDigitsOf(hh, []);
    assert hh + [] == hh;
  }

  lemma TwoDecimals(ss: string, hh: string)
    requires |hh| == 2 && AllDigits(ss) && AllDigits(hh)
    ensures Decimal(ss, hh) == DigitsValue(ss) as real + DigitsValue(hh) as real / 100.0
  {
    var d0, d1 := DigitValue(hh[0]), DigitValue(hh[1]);
    assert hh[1..][0] == hh[1] && hh[1..][1..] == [];
    assert Fraction(hh[1..]) == d1 as real / 10.0;
    assert hh[..1][0] == hh[0] && hh[..1][..0] == [];
    assert DigitsValue(hh[..1]) == d0;
    assert DigitsValue(hh) == d0 * 10 + d1;
  }

  lemma ParseWhole(a: string)
    requires a != [] && AllDigits(a)
    ensures ParseInt(a) == Some(DigitsValue(a) as int)
  {
    LeadingDigitsOf(a, []);
    assert a + [] == a;
  }

  /** The characters of a formatted time survive trimming, the comma rewrite and the filter. */
  lemma CleanFormatted(t: string)
    requires forall i :: 0 <= i < |t| ==> IsTimeChar(t[i])
    ensures Clean(t) == t
  {
    NoSpaceTrimmed(t);
    assert CommaToDot(t) == t;
    FilterKeepsAll(t, IsTimeChar);
  }

  /** "m:ss.hh" is made of time characters only, with its one colon after the minutes. */
  lemma FormattedChars(mm: string, ss: string, hh: string)
    requires AllDigits(mm) && |ss| == 2 && |hh| == 2 && AllDigits(ss) && AllDigits(hh)
    ensures forall i :: 0 <= i < |mm + [':'] + (ss + "." + hh)| ==> IsTimeChar((mm + [':'] + (ss + "." + hh))[i])
    ensures ':' !in mm && ':' !in ss + "." + hh
  {
    var rest := ss + "." + hh;
    var t := mm + [':'] + rest;
    forall i | 0 <= i < |t|
      ensures IsTimeChar(t[i])
    {
      if i < |mm| {
        assert t[i] == mm[i];
      } else if i > |mm| {
        assert t[i] == rest[i - |mm| - 1];
        if i - |mm| - 1 < 2 {
          assert rest[i - |mm| - 1] == ss[i - |mm| - 1];
        } else if i - |mm| - 1 > 2 {
          assert rest[i - |mm| - 1] == hh[i - |mm| - 4];
        }
      }
    }
    assert forall i :: 0 <= i < |mm| ==> mm[i] != ':';
    forall i | 0 <= i < |rest|
      ensures rest[i] != ':'
    {
      if i < 2 {
        assert rest[i] == ss[i];
      } else if i > 2 {
        assert rest[i] == hh[i - 3];
      }
    }
  }

  /** A cleaned text with exactly one colon is read as minutes and seconds. */
  lemma ParseMinutesSeconds(str: string, a: string, b: string)
    requires str != [] && Clean(str) == a + [':'] + b
    requires ':' !in a && ':' !in b
    ensures ParseTimeToSeconds(str) == ReadParts([a, b])
  {
    SplitOnce(a, b, ':');
  }

  /** Whole minutes and a readable seconds part add up. */
  lemma ReadMinutes(mm: string, rest: string, v: real)
    requires mm != [] && AllDigits(mm)
    requires ParseFloat(rest) == Some(v)
    ensures ReadParts([mm, rest]) == Some(DigitsValue(mm) as real * 60.0 + v)
  {
    ParseWhole(mm);
    ReadTwo(mm, rest, DigitsValue(mm), v);
  }

  /** Two parts read as minutes and seconds. */
  lemma ReadTwo(a: string, b: string, m: int, s: real)
    requires ParseInt(a) == Some(m) && ParseFloat(b) == Some(s)
    ensures ReadParts([a, b]) == Some(m as real * 60.0 + s)
  {
    var parts := [a, b];
    assert parts[0] == a && parts[1] == b;
  }

  lemma ReadWholeMinutes(t: string, mm: string, rest: string, v: real)
    requires mm != [] && AllDigits(mm)
    requires t != [] && Clean(t) == mm + [':'] + rest && ':' !in mm && ':' !in rest
    requires ParseFloat(rest) == Some(v)
    ensures ParseTimeToSeconds(t) == Some(DigitsValue(mm) as real * 60.0 + v)
  {
    ParseMinutesSeconds(t, mm, rest);
    ReadMinutes(mm, rest, v);
  }

  lemma CleanOfFormatted(mm: string, ss: string, hh: string)
    requires mm != [] && AllDigits(mm)
    requires |ss| == 2 && |hh| == 2 && AllDigits(ss) && AllDigits(hh)
    ensures Clean(mm + [':'] + (ss + "." + hh)) == mm + [':'] + (ss + "." + hh)
    ensures ':' !in mm && ':' !in ss + "." + hh
  {
    FormattedChars(mm, ss, hh);
    CleanFormatted(mm + [':'] + (ss + "." + hh));
  }

  /** Reading "m:ss.hh" gives m minutes plus the seconds ss.hh. */
  lemma ParseFormatted(mm: string, ss: string, hh: string, v: real)
    requires mm != [] && AllDigits(mm)
    requires |ss| == 2 && |hh| == 2 && AllDigits(ss) && AllDigits(hh)
    requires ParseFloat(ss + "." + hh) == Some(v)
    ensures ParseTimeToSeconds(mm + [':'] + (ss + "." + hh)) == Some(DigitsValue(mm) as real * 60.0 + v)
  {
    CleanOfFormatted(mm, ss, hh);
    ReadWholeMinutes(mm + [':'] + (ss + "." + hh), mm, ss + "." + hh, v);
  }

  /** Rounding to hundredths moves a time by at most half a hundredth. */
  lemma HundredthsClose(sec: real)
    ensures -0.005 < Hundredths(sec) as real / 100.0 - sec <= 0.005
  {
    var x := sec * 100.0 + 0.5;
    assert x.Floor as real <= x < x.Floor as real + 1.0;
  }

  /** A clock text taken apart: digit minutes, a colon, and seconds "ss.hh" that read as `v`. */
  lemma ClockDigits(n: nat) returns (mm: string, ss: string, hh: string, v: real)
    ensures Clock(n) == mm + [':'] + (ss + "." + hh)
    ensures mm != [] && AllDigits(mm) && |ss| == 2 && |hh| == 2 && AllDigits(ss) && AllDigits(hh)
    ensures ParseFloat(ss + "." + hh) == Some(v)
    ensures Some(DigitsValue(mm) as real * 60.0 + v) == Some(n as real / 100.0)
  {
    mm, ss, hh := NatToString(n / 6000), TwoDigits(n % 6000 / 100), TwoDigits(n % 100);
    ParseFixed(ss, hh);
    v := DigitsValue(ss) as real + DigitsValue(hh) as real / 100.0;
    HundredthsSplit(n);
    SomeOfEqual(DigitsValue(mm) as real * 60.0 + v, n as real / 100.0);
  }

  lemma SomeOfEqual(e: real, x: real)
    requires e == x
    ensures Some(e) == Some(x)
  {
  }

  /**
   * The corrected text of a time taken apart the same way; its minutes and seconds add up
   * to the rounded time (stated on `Some` values so that the reader's facts stay apart from
   * the arithmetic).
   */
  lemma FormatDigits(sec: real, n: nat) returns (mm: string, ss: string, hh: string, v: real)
    requires sec >= 0.0 && n == Hundredths(sec)
    ensures FormatTime(Some(sec)) == mm + [':'] + (ss + "." + hh)
    ensures mm != [] && AllDigits(mm) && |ss| == 2 && |hh| == 2 && AllDigits(ss) && AllDigits(hh)
    ensures ParseFloat(ss + "." + hh) == Some(v)
    ensures Some(DigitsValue(mm) as real * 60.0 + v) == Some(n as real / 100.0)
  {
    FormatTimeSecondsBelowSixty(sec);
    mm, ss, hh, v := ClockDigits(n);
  }

  /** A text "m:ss.hh" reads as any value equal to m minutes plus the seconds ss.hh. */
  lemma ReadFormatted(t: string, mm: string, ss: string, hh: string, v: real, x: real)
    requires mm != [] && AllDigits(mm) && |ss| == 2 && |hh| == 2 && AllDigits(ss) && AllDigits(hh)
    requires ParseFloat(ss + "." + hh) == Some(v)
    requires Some(DigitsValue(mm) as real * 60.0 + v) == Some(x)
    requires t == mm + [':'] + (ss + "." + hh)
    ensures ParseTimeToSeconds(t) == Some(x)
  {
    ParseFormatted(mm, ss, hh, v);
  }

  /**
   * The corrected formatter and the reader are inverse up to rounding: reading a formatted
   * time gives the time rounded to the nearest hundredth, within half a hundredth of it.
   */
  lemma FormatThenParse(sec: real, t: string, n: nat)
    requires sec >= 0.0 && t == FormatTime(Some(sec)) && n == Hundredths(sec)
    ensures ParseTimeToSeconds(t) == Some(n as real / 100.0)
    ensures -0.005 < n as real / 100.0 - sec <= 0.005
  {
    var mm, ss, hh, v := FormatDigits(sec, n);
    ReadFormatted(t, mm, ss, hh, v, n as real / 100.0);
    HundredthsClose(sec);
  }

  lemma HundredthsSplit(n: int)
    requires n >= 0
    ensures (n / 6000) as real * 60.0 + (n % 6000 / 100) as real + (n % 100) as real / 100.0 == n as real / 100.0
  {
    ModNest(n);
    assert n == (n / 6000) * 6000 + (n % 6000 / 100) * 100 + n % 6000 % 100;
  }

  /**
   * Where the rounded seconds stay below 60, the as-written formatter agrees with the
   * corrected one.
   */
  lemma AsWrittenAgreesBelowCarry(sec: real)
    requires sec >= 0.0
    requires var m := (sec / 60.0).Floor; RoundHalfUp((sec - m as real * 60.0) * 100.0) < 6000
    ensures SecondsToTimeStr(Some(sec)) == FormatTime(Some(sec))
  {
    var m, k := AsWrittenParts(sec);
    var n := Hundredths(sec);
    SameHundredths(sec, m);
    DivModUnique(n, m, k);
  }

  /** What is left after the whole minutes is between 0 and 60 seconds. */
  lemma MinuteRemainder(sec: real)
    ensures var m := (sec / 60.0).Floor; 0.0 <= sec - m as real * 60.0 < 60.0
  {
    var m := (sec / 60.0).Floor;
    assert m as real <= sec / 60.0 < m as real + 1.0;
  }

  lemma DivModUnique(n: int, m: int, k: int)
    requires n == k + 6000 * m && 0 <= k < 6000
    ensures (n / 6000, n % 6000) == (m, k)
  {
  }

  /** Taking whole minutes off before rounding shifts the hundredths by whole minutes. */
  lemma SameHundredths(sec: real, m: int)
    ensures Hundredths(sec) == RoundHalfUp((sec - m as real * 60.0) * 100.0) + m * 6000
  {
    var s := sec - m as real * 60.0;
    assert sec * 100.0 + 0.5 == (s * 100.0 + 0.5) + (m * 6000) as real;
    FloorShift(s * 100.0 + 0.5, m * 6000);
  }

  lemma FloorShift(x: real, k: int)
    ensures (x + k as real).Floor == x.Floor + k
  {
  }

  /** A decimal with digits before the point reads as its value. */
  lemma ParseDecimal(a: string, b: string)
    requires a != [] && AllDigits(a) && AllDigits(b)
    ensures ParseFloat(a + "." + b) == Some(Decimal(a, b))
  {
    var t := a + "." + b;
    LeadingDigitsOf(a, "." + b);
    assert t == a + ("." + b);
    assert t[|a|..] == "." + b;
    assert ("." + b)[1..] == b;
    LeadingDigitsOf(b, []);
    assert b + [] == b;
  }

  /** Splitting at a separator after a part without one splits off that part. */
  lemma {:induction false} SplitAfter(a: string, rest: string, c: char)
    requires c !in a
    ensures Split(a + [c] + rest, c) == [a] + Split(rest, c)
  {
    if a == [] {
      assert a + [c] + rest == [c] + rest;
      assert ([c] + rest)[1..] == rest;
    } else {
      assert (a + [c] + rest)[0] == a[0];
      assert (a + [c] + rest)[1..] == a[1..] + [c] + rest;
      SplitAfter(a[1..], rest, c);
      assert [a[0]] + a[1..] == a;
    }
  }

  /** Every character is one the time reader keeps. */
  predicate TimeText(s: string) {
    forall i :: 0 <= i < |s| ==> IsTimeChar(s[i])
  }

  lemma DigitsTimeText(a: string)
    requires AllDigits(a)
    ensures TimeText(a)
  {
  }

  lemma TimeTextConcat(a: string, b: string)
    requires TimeText(a) && TimeText(b)
    ensures TimeText(a + b)
  {
    forall i | 0 <= i < |a + b|
      ensures IsTimeChar((a + b)[i])
    {
      if i >= |a| {
        assert (a + b)[i] == b[i - |a|];
      }
    }
  }

  /** Digits, a point, digits: a seconds text without a colon. */
  lemma SecondsText(ss: string, d: string)
    requires AllDigits(ss) && AllDigits(d)
    ensures TimeText(ss + "." + d) && ':' !in ss + "." + d
  {
    DigitsTimeText(ss);
    DigitsTimeText(d);
    TimeTextConcat(ss, ".");
    TimeTextConcat(ss + ".", d);
    var s := ss + "." + d;
    forall i | 0 <= i < |s|
      ensures s[i] != ':'
    {
      if i < |ss| {
        assert s[i] == ss[i];
      } else if i > |ss| {
        assert s[i] == d[i - |ss| - 1];
      }
    }
  }

  /** A text made of time characters and commas whose ends are digits is already trimmed. */
  lemma DigitEndsTrimmed(s: string)
    requires s != [] && IsDigit(s[0]) && IsDigit(s[|s| - 1])
    ensures Trim(s) == s
  {
    TrimOfTrimmed(s);
  }

  /** "m:ss,hh" cleans to "m:ss.hh". */
  lemma CleanCommaTime(str: string, mm: string, ss: string, hh: string)
    requires mm != [] && AllDigits(mm) && |hh| == 2 && AllDigits(ss) && AllDigits(hh)
    requires str == mm + [':'] + (ss + "," + hh)
    ensures Clean(str) == mm + [':'] + (ss + "." + hh)
  {
    var p := mm + [':'] + ss;
    var t := mm + [':'] + (ss + "." + hh);
    assert str == p + [','] + hh && t == p + ['.'] + hh;
    assert str[0] == mm[0] && str[|str| - 1] == hh[1];
    DigitEndsTrimmed(str);
    DigitsTimeText(mm);
    DigitsTimeText(ss);
    DigitsTimeText(hh);
    TimeTextConcat(mm, [':']);
    TimeTextConcat(mm + [':'], ss);
    TimeTextConcat(p, ['.']);
    TimeTextConcat(p + ['.'], hh);
    forall i | 0 <= i < |str|
      ensures CommaToDot(str)[i] == t[i]
    {
      if i < |p| {
        assert str[i] == p[i] == t[i];
      } else if i > |p| {
        assert str[i] == hh[i - |p| - 1] == t[i];
      }
    }
    assert CommaToDot(str) == t;
    FilterKeepsAll(t, IsTimeChar);
  }

  /** Minutes, a colon, and seconds with a decimal comma: "m:ss,hh". */
  lemma ReadCommaTime(str: string, mm: string, ss: string, hh: string, v: real)
    requires mm != [] && AllDigits(mm) && |hh| == 2 && AllDigits(ss) && AllDigits(hh)
    requires str == mm + [':'] + (ss + "," + hh)
    requires ParseFloat(ss + "." + hh) == Some(v)
    ensures ParseTimeToSeconds(str) == Some(DigitsValue(mm) as real * 60.0 + v)
  {
    CleanCommaTime(str, mm, ss, hh);
    SecondsText(ss, hh);
    assert ':' !in mm;
    ReadWholeMinutes(str, mm, ss + "." + hh, v);
  }

  /** Seconds alone: "ss.d". */
  lemma ReadPlainSeconds(str: string, ss: string, d: string, v: real)
    requires ss != [] && AllDigits(ss) && AllDigits(d)
    requires str == ss + "." + d
    requires ParseFloat(str) == Some(v)
    ensures ParseTimeToSeconds(str) == Some(v)
  {
    SecondsText(ss, d);
    CleanFormatted(str);
    SplitWithout(str, ':');
  }

  /** Three parts read as hours, minutes and seconds. */
  lemma ReadThree(a: string, b: string, c: string, h: int, m: int, s: real)
    requires ParseInt(a) == Some(h) && ParseInt(b) == Some(m) && ParseFloat(c) == Some(s)
    ensures ReadParts([a, b, c]) == Some(h as real * 3600.0 + m as real * 60.0 + s)
  {
    var parts := [a, b, c];
    assert parts[0] == a && parts[1] == b && parts[2..] == [c];
  }

  /** "h:mm:ss.d" is already clean and splits into its three parts. */
  lemma HoursText(str: string, h: string, mm: string, secs: string)
    requires h != [] && mm != [] && AllDigits(h) && AllDigits(mm)
    requires TimeText(secs) && ':' !in secs
    requires str == h + [':'] + (mm + [':'] + secs)
    ensures Clean(str) == str && Split(str, ':') == [h, mm, secs]
  {
    var rest := mm + [':'] + secs;
    DigitsTimeText(h);
    DigitsTimeText(mm);
    TimeTextConcat(mm, [':']);
    TimeTextConcat(mm + [':'], secs);
    TimeTextConcat(h, [':']);
    TimeTextConcat(h + [':'], rest);
    CleanFormatted(str);
    assert ':' !in h && ':' !in mm;
    SplitAfter(h, rest, ':');
    SplitOnce(mm, secs, ':');
  }

  /** A clean text that splits into whole hours, whole minutes and seconds. */
  lemma ReadThreeParts(str: string, h: string, mm: string, secs: string, v: real)
    requires h != [] && mm != [] && AllDigits(h) && AllDigits(mm)
    requires str != [] && Clean(str) == str && Split(str, ':') == [h, mm, secs]
    requires ParseFloat(secs) == Some(v)
    ensures ParseTimeToSeconds(str) ==
      Some(DigitsValue(h) as real * 3600.0 + DigitsValue(mm) as real * 60.0 + v)
  {
    ParseWhole(h);
    ParseWhole(mm);
    ReadThree(h, mm, secs, DigitsValue(h), DigitsValue(mm), v);
  }

  /** Hours, minutes and seconds: "h:mm:secs". */
  lemma ReadHoursTime(str: string, h: string, mm: string, secs: string, v: real)
    requires h != [] && mm != [] && AllDigits(h) && AllDigits(mm)
    requires TimeText(secs) && ':' !in secs
    requires str == h + [':'] + (mm + [':'] + secs)
    requires ParseFloat(secs) == Some(v)
    ensures ParseTimeToSeconds(str) ==
      Some(DigitsValue(h) as real * 3600.0 + DigitsValue(mm) as real * 60.0 + v)
  {
    HoursText(str, h, mm, secs);
    ReadThreeParts(str, h, mm, secs, v);
  }

  /** The digits and point of a decimal read as the value given. */
  lemma DecimalValue(a: string, b: string, v: real)
    requires a != [] && AllDigits(a) && AllDigits(b) && Decimal(a, b) == v
    ensures ParseFloat(a + "." + b) == Some(v)
  {
    ParseDecimal(a, b);
  }

  /** The pieces of "1:05,32" and their values. */
  lemma CommaExampleParts(str: string, mm: string, ss: string, hh: string)
    requires str == "1:05,32" && mm == "1" && ss == "05" && hh == "32"
    ensures str == mm + [':'] + (ss + "," + hh)
    ensures AllDigits(mm) && AllDigits(ss) && AllDigits(hh)
    ensures DigitsValue(mm) == 1 && Decimal(ss, hh) == 5.32
  {
    assert DigitsValue("05") == 5 && Fraction("32") == 0.32 && DigitsValue("1") == 1;
  }

  /** "1:05,32": one minute and 5.32 seconds with a decimal comma read as 65.32 seconds. */
  lemma DecimalCommaExample(str: string)
    requires str == "1:05,32"
    ensures ParseTimeToSeconds(str) == Some(65.32)
  {
    var mm, ss, hh := "1", "05", "32";
    CommaExampleParts(str, mm, ss, hh);
    DecimalValue(ss, hh, 5.32);
    ReadCommaTime(str, mm, ss, hh, 5.32);
  }

  /** The pieces of "35.40" and their values. */
  lemma SecondsExampleParts(str: string, ss: string, d: string)
    requires str == "35.40" && ss == "35" && d == "40"
    ensures str == ss + "." + d && AllDigits(ss) && AllDigits(d)
    ensures Decimal(ss, d) == 35.4
  {
    assert DigitsValue("35") == 35 && Fraction("40") == 0.4;
  }

  /** "35.40": plain seconds read as 35.4. */
  lemma SecondsExample(str: string)
    requires str == "35.40"
    ensures ParseTimeToSeconds(str) == Some(35.4)
  {
    var ss, d := "35", "40";
    SecondsExampleParts(str, ss, d);
    DecimalValue(ss, d, 35.4);
    ReadPlainSeconds(str, ss, d, 35.4);
  }

  /** The pieces of "1:02:03.5" and their values. */
  lemma HoursExampleParts(str: string, h: string, mm: string, ss: string, d: string)
    requires str == "1:02:03.5" && h == "1" && mm == "02" && ss == "03" && d == "5"
    ensures str == h + [':'] + (mm + [':'] + (ss + "." + d))
    ensures AllDigits(h) && AllDigits(mm) && AllDigits(ss) && AllDigits(d)
    ensures DigitsValue(h) == 1 && DigitsValue(mm) == 2 && Decimal(ss, d) == 3.5
  {
    assert DigitsValue("03") == 3 && Fraction("5") == 0.5;
    assert DigitsValue("1") == 1 && DigitsValue("02") == 2;
  }

  /** "1:02:03.5": hours, minutes and seconds read as 3723.5 seconds. */
  lemma HoursExample(str: string)
    requires str == "1:02:03.5"
    ensures ParseTimeToSeconds(str) == Some(3723.5)
  {
    var h, mm, ss, d := "1", "02", "03", "5";
    HoursExampleParts(str, h, mm, ss, d);
    DecimalValue(ss, d, 3.5);
    SecondsText(ss, d);
    ReadHoursTime(str, h, mm, ss + "." + d, 3.5);
  }

  /** A whole number of hundredths rounds to itself, and its seconds part stays below 60. */
  lemma WholeHundredths(sec: real, h: nat)
    requires sec == h as real / 100.0
    ensures sec >= 0.0 && Hundredths(sec) == h
    ensures var m := (sec / 60.0).Floor; RoundHalfUp((sec - m as real * 60.0) * 100.0) < 6000
  {
    var m := (sec / 60.0).Floor;
    MinuteRemainder(sec);
    var s := sec - m as real * 60.0;
    assert s * 100.0 == (h - 6000 * m) as real;
    FloorShift(0.5, h - 6000 * m);
    FloorShift(0.5, h);
  }

  /**
   * The as-written formatter and the reader are inverse on times that are whole hundredths
   * of a second: no rounding happens, so the seconds never carry to 60.
   */
  lemma AsWrittenRoundTrip(sec: real, h: nat)
    requires sec == h as real / 100.0
    ensures ParseTimeToSeconds(SecondsToTimeStr(Some(sec))) == Some(sec)
  {
    WholeHundredths(sec, h);
    var t := FormatTime(Some(sec));
    AsWrittenAgreesBelowCarry(sec);
    FormatThenParse(sec, t, h);
    SomeOfEqual(h as real / 100.0, sec);
  }
}
