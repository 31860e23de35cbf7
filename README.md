# Swim-meet result validator and relay picker

A Dafny model of the logic in `hello-world/src/App.jsx`, a React page for swim clubs. The page
reads a Tempus "Statistikrapport Individuell" CSV export and finds the result table in it. It
checks that the table has the required columns and keeps each swimmer's best time per event. It
counts swimmers by gender. For a chosen relay, it lists the best times that matter and the
swimmers eligible by class (Dam, Herr, Mix) and age.

The model follows the functions of `App.jsx`, one module per group:

- `Strings`: the JavaScript string built-ins the code relies on. These are `trim` with
  the `\s` white-space set, `toLowerCase` (ASCII and å/ä/ö), `replace(/\s+/g, " ")`,
  `split`, `includes` and number-to-text.
- `Tokenizer`: `detectDelimiter` and `smartSplit`, the quote-aware field scan.
- `TableExtractor`: `findTableStartAndParse`. It finds the header line, filters the body lines
  and builds one row per line, keyed by trimmed header names.
- `ColumnResolver`: `normalizeHeaderName` and `pickColumn`, including JavaScript `Map`
  semantics. A repeated key keeps its first position but takes the last value.
- `EventNormalizer`: `normStr` and `normalizeEvent`. They map an event text to one of six
  event keys.
- `TimeCodec`: `parseTimeToSeconds` and `secondsToTimeStr`. The formatter exists twice:
  as written, and corrected (see Findings).
- `GenderClassifier`: `normalizeGender`.
- `Aggregation`: the body of `onValidate`. It runs the error checks in order, resolves the
  columns, folds the rows into per-swimmer records and builds the summary.
- `Selection`: `requiredEventKeys`, `labelForKey`, the class/age filter, `availableAges` and
  `toggleSelect`.

Loops in the source (the character scan, the header search, the body filter, the `Map`
build, the candidate search, the row fold, the age collection and the sort) are Dafny methods
with loop invariants. The scan, the searches, the filter, the `Map` build and the fold are
proved equal to recursive specification functions, and the properties are proved as lemmas
about those functions. The age methods (`Selection.CollectAges`, `Selection.LeastAt`,
`Selection.SortAscending`, `Selection.AvailableAges`) state their results directly instead:
the ages found without repeats, the position of a least element, and a strictly increasing
list holding exactly the given ages.

Times are exact reals; a time that JavaScript would make `NaN` is `None`. Event keys are a
datatype, and `KeyName` gives the key strings the program uses. A cell reading "Mix" counts as
a man (`GenderClassifier.MixIsHerr`), because it contains an "m".

## Model

| member | source | states |
|---|---|---|
| Strings.Trim | hello-world/src/App.jsx:62-63 | the result has no white space at either end |
| Strings.TrimOfTrimmed | hello-world/src/App.jsx:62-63 | trimming an already trimmed text changes nothing |
| Strings.TrimChars | hello-world/src/App.jsx:62-63 | trimming only removes characters |
| Strings.LowerIdempotent | hello-world/src/App.jsx:101 | lower-casing twice is lower-casing once |
| Strings.Collapse | hello-world/src/App.jsx:101 | after `replace(/\s+/g, " ")` the only white space is single blanks, and a leading blank means the input began with white space |
| Strings.CollapseOfCollapsed | hello-world/src/App.jsx:119 | collapsing an already collapsed text changes nothing |
| Strings.CollapseChars | hello-world/src/App.jsx:119 | collapsing adds no character but a blank |
| Strings.Split | hello-world/src/App.jsx:151 | `split` yields at least one part and no part holds the separator |
| Strings.JoinSplit | hello-world/src/App.jsx:151 | joining the parts of a split with the separator gives back the text |
| Strings.LeadingDigits | hello-world/src/App.jsx:153 | the digits `parseInt` reads are the longest run of digits at the start |
| Strings.Filter | hello-world/src/App.jsx:149 | the kept characters all come from the input and pass the test |
| Strings.FilterKeepsAll | hello-world/src/App.jsx:149 | a text whose characters all pass is unchanged |
| Strings.NatToString | hello-world/src/App.jsx:161 | the decimal text of a number is digits with that value and no leading zero |
| Tokenizer.DetectDelimiter | hello-world/src/App.jsx:47-51 | the result is ';' or ','; it is the more frequent of the two, and ',' only when strictly more frequent |
| Tokenizer.Segments | hello-world/src/App.jsx:54-62 | the scan yields at least one field and no field holds a quote |
| Tokenizer.SegmentCount | hello-world/src/App.jsx:54-62 | there is one more field than there are delimiters outside quotes |
| Tokenizer.SegmentsJoin | hello-world/src/App.jsx:54-62 | the fields joined with the delimiter are the line with its quotes removed |
| Tokenizer.ScanStep | hello-world/src/App.jsx:56-61 | one character of the scan: a quote flips the quote state, an unquoted delimiter opens a field, anything else extends the last field |
| Tokenizer.CleanFields | hello-world/src/App.jsx:62-63 | the final quote strip and trim change nothing; each field is trimmed and quote-free |
| Tokenizer.SmartSplit | hello-world/src/App.jsx:54-64 | the loop returns the specified fields, one more than the unquoted delimiters, each trimmed and quote-free |
| TableExtractor.NormalizeNewlines | hello-world/src/App.jsx:69 | no carriage return remains |
| TableExtractor.Lines | hello-world/src/App.jsx:69 | the text splits into at least one line |
| TableExtractor.HeaderIndexOf | hello-world/src/App.jsx:71-75 | the index of the first line naming Simidrottare or Namn, Gren and Tid, or -1 when no line does |
| TableExtractor.FindHeader | hello-world/src/App.jsx:71-75 | the search loop returns that index |
| TableExtractor.KeptFields | hello-world/src/App.jsx:82-89 | the kept body lines are in input order and each has a non-blank cell, fewer than three header hits and no `Placering` first cell |
| TableExtractor.KeptFieldsAppend | hello-world/src/App.jsx:82-89 | filtering two blocks of lines is filtering each and concatenating |
| TableExtractor.KeptStep | hello-world/src/App.jsx:82-89 | one more line adds its fields exactly when it passes the filters |
| TableExtractor.CountHeaderHits | hello-world/src/App.jsx:87 | the loop counts the cells equal to a header name |
| TableExtractor.ParseLine | hello-world/src/App.jsx:83-88 | a body line's fields and whether they pass the filters |
| TableExtractor.LastIndexOfKey | hello-world/src/App.jsx:93 | the last column whose trimmed header is the key, or -1 |
| TableExtractor.RowOf | hello-world/src/App.jsx:91-95 | a row's keys are exactly the trimmed header names |
| TableExtractor.RowOfLastColumnWins | hello-world/src/App.jsx:93 | when two columns share a header name the later one's trimmed cell is stored |
| TableExtractor.RowOfShortLine | hello-world/src/App.jsx:93 | a column past the end of the line stores "" |
| TableExtractor.RowOfOtherKey | hello-world/src/App.jsx:93 | a column with another name leaves a key's value alone |
| TableExtractor.BuildRow | hello-world/src/App.jsx:91-95 | the row-building loop returns the specified row |
| TableExtractor.RowsOf | hello-world/src/App.jsx:91-95 | one row per kept line |
| TableExtractor.RowsOfSnoc | hello-world/src/App.jsx:91-95 | one more kept line adds its row at the end |
| TableExtractor.ParseBody | hello-world/src/App.jsx:82-95 | the body loop returns the rows of the kept lines |
| TableExtractor.TableOf | hello-world/src/App.jsx:67-98 | the table has at least one header, and every row is keyed by the header names |
| TableExtractor.FindTableStartAndParse | hello-world/src/App.jsx:67-98 | the parse returns the specified table |
| ColumnResolver.NormalizeHeaderName | hello-world/src/App.jsx:100-103 | the result is normalized (lower case, single blanks, no å/ä/ö) and no longer than the input |
| ColumnResolver.NormalizedFixed | hello-world/src/App.jsx:100-103 | a normalized name is its own normal form |
| ColumnResolver.NormalizeIdempotent | hello-world/src/App.jsx:100-103 | normalizing twice is normalizing once |
| ColumnResolver.Norms | hello-world/src/App.jsx:106 | each header's normal form, position by position |
| ColumnResolver.MapOf | hello-world/src/App.jsx:106 | the `Map` has exactly the given keys and every value comes from the given values |
| ColumnResolver.MapOfLastValue | hello-world/src/App.jsx:106 | a repeated key maps to the value of its last occurrence |
| ColumnResolver.MapOfFirstOrder | hello-world/src/App.jsx:106 | the keys iterate in order of first insertion |
| ColumnResolver.BuildNormMap | hello-world/src/App.jsx:106 | the map from normalized header to header is well formed |
| ColumnResolver.BuildMap | hello-world/src/App.jsx:106 | the loop builds that map |
| ColumnResolver.LastIndex | hello-world/src/App.jsx:106 | the last position of a key, or -1 when absent |
| ColumnResolver.FirstIndex | hello-world/src/App.jsx:106 | the first position of a key, or -1 when absent |
| ColumnResolver.FirstContaining | hello-world/src/App.jsx:110 | the first key in iteration order that contains the text, or -1 |
| ColumnResolver.ScanKeys | hello-world/src/App.jsx:110 | the loop finds that key |
| ColumnResolver.Lookup | hello-world/src/App.jsx:109-110 | an exact key wins; otherwise some key containing the text; none exactly when no key contains it |
| ColumnResolver.LookupMatches | hello-world/src/App.jsx:108-110 | a candidate finds a column exactly when some header's normal form contains its normal form |
| ColumnResolver.ValueNormalizesToKey | hello-world/src/App.jsx:106 | every stored value is a header whose normal form is its key |
| ColumnResolver.PickSound | hello-world/src/App.jsx:105-113 | no column exactly when no candidate matches; a picked column is a header matched by a candidate |
| ColumnResolver.ExactFirstCandidateWins | hello-world/src/App.jsx:107-109 | a first candidate equal to a header's normal form picks the last such header |
| ColumnResolver.SubstringSearchOrder | hello-world/src/App.jsx:110 | without an exact match the first key containing the candidate, in insertion order, is taken |
| ColumnResolver.MissedCandidateSkipped | hello-world/src/App.jsx:107-111 | a candidate that matches nothing passes the search on to the next |
| ColumnResolver.PickColumn | hello-world/src/App.jsx:105-113 | the method returns the specified pick; null exactly when no candidate matches; a pick is a header |
| ColumnResolver.KFindsAnyK | hello-world/src/App.jsx:190 | the candidate "K" finds a column exactly when some header holds a "k" |
| ColumnResolver.OnlyKLeft | hello-world/src/App.jsx:190 | when Kön, Kon and Gender all miss, the gender pick is the pick for "K" alone |
| ColumnResolver.GenderFallsBackToAnyK | hello-world/src/App.jsx:190 | then any header holding a "k" becomes the gender column |
| EventNormalizer.KeyNameInjective | hello-world/src/App.jsx:137-142 | distinct keys have distinct key strings |
| EventNormalizer.Rank | hello-world/src/App.jsx:137-142 | the order in which the keys are tried, six positions |
| EventNormalizer.ExpandMeter | hello-world/src/App.jsx:124 | the meter rewrite never lengthens the text |
| EventNormalizer.ExpandMeterNoMDot | hello-world/src/App.jsx:124 | no "m." survives the rewrite |
| EventNormalizer.ExpandMeterWithoutM | hello-world/src/App.jsx:124 | a text without "m" is unchanged |
| EventNormalizer.NormalizeEvent | hello-world/src/App.jsx:122-144 | the key is the first, in test order, whose distance and stroke both occur; null exactly when none qualifies |
| EventNormalizer.NoMeterNoDistance | hello-world/src/App.jsx:127-129 | a text without "m" names no distance |
| EventNormalizer.NoMeterNoEvent | hello-world/src/App.jsx:127-143 | an event text without "m" gets no key |
| EventNormalizer.NormStrCaseInsensitive | hello-world/src/App.jsx:116-120 | `normStr` ignores letter case |
| EventNormalizer.NormStrShape | hello-world/src/App.jsx:116-120 | `normStr` gives a trimmed text with single blanks only |
| EventNormalizer.NormalizeEventCaseInsensitive | hello-world/src/App.jsx:122-125 | the key ignores letter case |
| EventNormalizer.PlainNormStr | hello-world/src/App.jsx:116-120 | a trimmed text of lower-case letters, digits and single blanks is its own `normStr` |
| EventNormalizer.ExpandMeterKeeps | hello-world/src/App.jsx:124 | a text whose every "m" ends it or stands before a blank is unchanged by the meter rewrite |
| EventNormalizer.PlainEventText | hello-world/src/App.jsx:123-125 | such a text is tested as it is |
| EventNormalizer.MissingDigit | hello-world/src/App.jsx:127-129 | a distance whose first digit the text lacks is not named |
| EventNormalizer.FirstQualifying | hello-world/src/App.jsx:137-143 | when a key qualifies and no earlier key does, that key is the result |
| EventNormalizer.PlainFirstQualifying | hello-world/src/App.jsx:122-143 | the same for a name whose lower-case spelling is plain |
| EventNormalizer.PlainNoneQualifying | hello-world/src/App.jsx:122-144 | a plain name that qualifies for no key gives null |
| EventNormalizer.MeterFreestyleExample | hello-world/src/App.jsx:122-144 | "100m Frisim" gives `frisim_100` |
| EventNormalizer.BackstrokeExample | hello-world/src/App.jsx:122-144 | "Rygg 100m" gives `rygg_100` |
| EventNormalizer.NoUnitQualifies | hello-world/src/App.jsx:127-143 | "100 frisim" names no distance, so no key qualifies |
| EventNormalizer.NoUnitExample | hello-world/src/App.jsx:122-144 | "100 Frisim" gives null: the distance needs an m after it, and the final m of "frisim" does not count |
| TimeCodec.CommaToDot | hello-world/src/App.jsx:148 | same length, no comma left |
| TimeCodec.Clean | hello-world/src/App.jsx:149 | only digits, colons and points remain |
| TimeCodec.ParseInt | hello-world/src/App.jsx:153-154 | a number exactly when the text starts with a digit, never negative |
| TimeCodec.ParseFloat | hello-world/src/App.jsx:152-155 | never negative |
| TimeCodec.ParseFloatNeedsDigit | hello-world/src/App.jsx:152 | a text without digits is not a number |
| TimeCodec.ReadParts | hello-world/src/App.jsx:151-155 | seconds, m:s or h:m:s give a non-negative time |
| TimeCodec.ParseTimeToSeconds | hello-world/src/App.jsx:146-156 | a time, when there is one, is non-negative |
| TimeCodec.NoDigitNoTime | hello-world/src/App.jsx:146-156 | a text without digits is no time |
| TimeCodec.ParseMinutesSeconds | hello-world/src/App.jsx:151-153 | a cleaned text with one colon is read as minutes and seconds |
| TimeCodec.ReadTwo | hello-world/src/App.jsx:153 | minutes and seconds give minutes × 60 + seconds |
| TimeCodec.PadStart | hello-world/src/App.jsx:161 | the padded text is the original preceded by fill characters up to the width |
| TimeCodec.TwoDigits | hello-world/src/App.jsx:161 | two digits spelling the number |
| TimeCodec.SecondsToTimeStr | hello-world/src/App.jsx:158-162 | "" exactly when there is no finite time |
| TimeCodec.AsWrittenParts | hello-world/src/App.jsx:160-161 | the as-written text is made of the whole minutes and the rounded hundredths of the rest |
| TimeCodec.SecondsCarryToSixty | hello-world/src/App.jsx:158-162 | the as-written formatter renders 59.999 s as "0:60.00" |
| TimeCodec.AsWrittenAgreesBelowCarry | hello-world/src/App.jsx:158-162 | when the rounding does not carry, the as-written and corrected texts agree |
| TimeCodec.FormatTime | hello-world/src/App.jsx:158-162 | "" exactly when there is no finite time |
| TimeCodec.FormatTimeSecondsBelowSixty | hello-world/src/App.jsx:158-162 | the corrected text is minutes, two-digit seconds below 60 and two-digit hundredths |
| TimeCodec.HundredthsClose | hello-world/src/App.jsx:161 | rounding to hundredths moves a time by at most 0.005 s |
| TimeCodec.FormatThenParse | hello-world/src/App.jsx:146-162 | reading a formatted time gives back the time rounded to hundredths, within 0.005 s of the original |
| TimeCodec.ParseDecimal | hello-world/src/App.jsx:152 | digits, a point and digits read as their decimal value |
| TimeCodec.SplitAfter | hello-world/src/App.jsx:151 | splitting after a colon-free part splits that part off |
| TimeCodec.CleanCommaTime | hello-world/src/App.jsx:148-149 | a decimal comma becomes a point and nothing else changes |
| TimeCodec.ReadCommaTime | hello-world/src/App.jsx:146-153 | "m:ss,hh" reads as m minutes plus ss.hh seconds |
| TimeCodec.ReadPlainSeconds | hello-world/src/App.jsx:146-152 | a time without a colon reads as its seconds |
| TimeCodec.ReadThree | hello-world/src/App.jsx:154-155 | three parts read as hours × 3600 + minutes × 60 + seconds |
| TimeCodec.HoursText | hello-world/src/App.jsx:148-151 | "h:mm:secs" is already clean and splits into its three parts |
| TimeCodec.ReadHoursTime | hello-world/src/App.jsx:146-155 | "h:mm:secs" reads as hours, minutes and seconds |
| TimeCodec.DecimalCommaExample | hello-world/src/App.jsx:146-156 | "1:05,32" reads as 65.32 s |
| TimeCodec.SecondsExample | hello-world/src/App.jsx:146-156 | "35.40" reads as 35.4 s |
| TimeCodec.HoursExample | hello-world/src/App.jsx:146-156 | "1:02:03.5" reads as 3723.5 s |
| TimeCodec.WholeHundredths | hello-world/src/App.jsx:160-161 | a time in whole hundredths rounds to itself and its seconds part stays below 60 |
| TimeCodec.AsWrittenRoundTrip | hello-world/src/App.jsx:146-162 | for a non-negative time in whole hundredths, reading the as-written text gives the time back |
| GenderClassifier.NormalizeGender | hello-world/src/App.jsx:164-172 | an empty cell gives no gender |
| GenderClassifier.DamWordsReduce | hello-world/src/App.jsx:167 | some women's word occurs exactly when "f", "dam" or "kvinna" does |
| GenderClassifier.HerrWordsReduce | hello-world/src/App.jsx:168 | some men's word occurs exactly when "m", "herr", "pojke" or "pojkar" does |
| GenderClassifier.NormalizeGenderMeaning | hello-world/src/App.jsx:164-172 | Dam exactly when a women's mark occurs or the text is "k"; Herr exactly when no women's mark occurs and a men's mark does or the text is "h" |
| GenderClassifier.NameRoundTrip | hello-world/src/App.jsx:164-172 | "Dam", "Herr" and "" classify as themselves |
| GenderClassifier.NormalizeGenderIdempotent | hello-world/src/App.jsx:164-172 | classifying a classification changes nothing |
| GenderClassifier.NormalizeGenderCaseInsensitive | hello-world/src/App.jsx:165 | letter case does not matter |
| GenderClassifier.MixIsHerr | hello-world/src/App.jsx:168 | "Mix" classifies as Herr |
| Aggregation.NumberOf | hello-world/src/App.jsx:214-215 | a number read is never negative, and a blank text reads as 0 |
| Aggregation.DigitsOf | hello-world/src/App.jsx:212 | only digits remain |
| Aggregation.RowAge | hello-world/src/App.jsx:212-217 | with an age column every row has a non-negative age |
| Aggregation.Views | hello-world/src/App.jsx:204-211 | one view per row |
| Aggregation.ViewsAt | hello-world/src/App.jsx:203-208 | the k-th view is read from the k-th row alone |
| Aggregation.ReadRow | hello-world/src/App.jsx:205-217 | the row reading, with the age fallback, gives the specified view |
| Aggregation.StepSlot | hello-world/src/App.jsx:219-230 | a row changes no best time except the one it feeds, and that one only if strictly faster |
| Aggregation.KeepFastest | hello-world/src/App.jsx:223-229 | a row that is not faster keeps the first fastest row fastest |
| Aggregation.NewFastest | hello-world/src/App.jsx:223-229 | a strictly faster row becomes the first fastest |
| Aggregation.NextIsBest | hello-world/src/App.jsx:223-229 | one row's update keeps the stored entry equal to the best |
| Aggregation.BestIsMinimum | hello-world/src/App.jsx:204-234 | each stored best time, per event text and per event key, comes from the first row with the least time; none is stored when no row feeds it |
| Aggregation.RecordsOfRows | hello-world/src/App.jsx:210-219 | a swimmer has a record exactly when some non-empty row bears their name |
| Aggregation.NamelessRecord | hello-world/src/App.jsx:219-222 | a non-empty row without a name creates a record "" that never gets a best time |
| Aggregation.GenderKept | hello-world/src/App.jsx:231 | a gender once set is never overwritten |
| Aggregation.AgeKept | hello-world/src/App.jsx:232 | an age once set (and not 0) is never overwritten |
| Aggregation.RecordFromRows | hello-world/src/App.jsx:219-232 | a record's gender and age are blank or come from one of the swimmer's rows |
| Aggregation.AddRow | hello-world/src/App.jsx:210-233 | one row's update of the records, as specified |
| Aggregation.Aggregate | hello-world/src/App.jsx:204-234 | the row loop builds the fold of the rows' views |
| Aggregation.WithGender | hello-world/src/App.jsx:236-238 | the swimmers counted for a gender are swimmers with records |
| Aggregation.SummaryBound | hello-world/src/App.jsx:236-242 | women plus men never exceed the number of swimmers |
| Aggregation.MissingNames | hello-world/src/App.jsx:195-199 | nothing is missing exactly when name, event and time are all found |
| Aggregation.MissingNamesListed | hello-world/src/App.jsx:195-199 | each missing column is listed once, in the order name, event, time |
| Aggregation.Resolve | hello-world/src/App.jsx:187-199 | a failed resolution names at least one missing column |
| Aggregation.ResolveOutcome | hello-world/src/App.jsx:187-199 | resolution succeeds exactly when every required column has a matching header, and then names headers |
| Aggregation.ResolveColumns | hello-world/src/App.jsx:187-199 | the seven picks and the missing list give the specified resolution |
| Aggregation.ValidateOutcome | hello-world/src/App.jsx:174-242 | no text and no rows give their messages in that order; success exactly when the three required columns match; on success the summary counts every record and no more women plus men than swimmers |
| Aggregation.OnValidate | hello-world/src/App.jsx:174-242 | the validation method ends as specified |
| Selection.KeysFor | hello-world/src/App.jsx:266-272 | the keys are none, the four medley keys, or one freestyle key |
| Selection.RequiredEventKeys | hello-world/src/App.jsx:265-273 | the keys are none, the four medley keys, or one freestyle key |
| Selection.KeysNameTheRelay | hello-world/src/App.jsx:266-271 | keys come only from a text with a "4": a freestyle key needs its distance and "frisim" in the text, the medley keys need "medley" |
| Selection.RelayLetters | hello-world/src/App.jsx:266-271 | a relay pattern needs a "4", the distance and the stroke in the text |
| Selection.RelayAtStart | hello-world/src/App.jsx:266-271 | "4x", the distance, a blank and the stroke at the start match the pattern |
| Selection.MedleyRelay | hello-world/src/App.jsx:270-271 | a medley relay without "frisim" shows back, breast, fly and free at 100 m |
| Selection.NoRelayNoKeys | hello-world/src/App.jsx:265-273 | a text without "4" needs no keys |
| Selection.RequiredEventKeysCaseInsensitive | hello-world/src/App.jsx:266 | the relay text's letter case does not matter |
| Selection.RelayOccurs | hello-world/src/App.jsx:266-271 | a matching relay pattern leaves "4x" and its distance in the text |
| Selection.Freestyle50Relay | hello-world/src/App.jsx:267 | the 50 m freestyle key is shown exactly when "4x50 … frisim" matches |
| Selection.Freestyle100Relay | hello-world/src/App.jsx:267-268 | without "4x50", the 100 m freestyle key is shown exactly when "4x100 … frisim" matches |
| Selection.Freestyle200Relay | hello-world/src/App.jsx:267-269 | without "4x50" or "4x100", the 200 m freestyle key is shown exactly when "4x200 … frisim" matches |
| Selection.PlainRelayName | hello-world/src/App.jsx:265-271 | a plain "4xN stroke" is its own `normStr` and matches that relay's pattern |
| Selection.Freestyle50Name | hello-world/src/App.jsx:265-267 | "4x50 frisim" is unchanged by `normStr` and needs `frisim_50` |
| Selection.Freestyle100Name | hello-world/src/App.jsx:265-268 | "4x100 frisim" is unchanged by `normStr` and needs `frisim_100` |
| Selection.Freestyle200Name | hello-world/src/App.jsx:265-269 | "4x200 frisim" is unchanged by `normStr` and needs `frisim_200` |
| Selection.Medley50Name | hello-world/src/App.jsx:265-270 | "4x50 medley" is unchanged by `normStr` and needs the four 100 m medley keys |
| Selection.Medley100Name | hello-world/src/App.jsx:265-271 | "4x100 medley" is unchanged by `normStr` and needs the four 100 m medley keys |
| Selection.LabelOfKey | hello-world/src/App.jsx:276-286 | each key's label is its distance, a blank and its stroke |
| Selection.LabelInjective | hello-world/src/App.jsx:276-286 | distinct keys get distinct labels |
| Selection.Filtered | hello-world/src/App.jsx:253-262 | only swimmers with records are listed |
| Selection.FilterMeaning | hello-world/src/App.jsx:256-260 | a swimmer is listed exactly when the age passes and the class is unset, Mix, or their gender classifies as the class |
| Selection.FilterAgreesWithSummary | hello-world/src/App.jsx:253-262 | with no ages chosen, the Dam and Herr lists are as long as the summary's counts |
| Selection.CollectAges | hello-world/src/App.jsx:247-248 | the collected ages are each record's age, each once |
| Selection.LeastAt | hello-world/src/App.jsx:249 | the position of a least value |
| Selection.Without | hello-world/src/App.jsx:249 | removing a value keeps all the others and shortens the list when present |
| Selection.SortAscending | hello-world/src/App.jsx:249 | given distinct ages, the sort returns the same ages, as many, in strictly ascending order |
| Selection.WithoutDistinct | hello-world/src/App.jsx:249 | from distinct values, taking out one that occurs removes exactly one element and leaves them distinct |
| Selection.AvailableAges | hello-world/src/App.jsx:246-250 | the offered ages are exactly the ages of the records, strictly ascending |
| Selection.AvailableAgeListsSomeone | hello-world/src/App.jsx:246-259 | choosing any offered age lists at least one swimmer |
| Selection.Toggled | hello-world/src/App.jsx:288-294 | the name's selection flips and no other name's changes |
| Selection.ToggleSelect | hello-world/src/App.jsx:288-294 | the method returns the toggled set |
| Selection.ToggleTwice | hello-world/src/App.jsx:288-294 | toggling twice restores the selection |

## Left out

- React state, rendering and file input (`handleFile`, `resetState`, the JSX, `useMemo`) are not modelled. Each operation takes its inputs as parameters and returns its outputs. The `warnings` list is never filled by the source.
- Floating point is not modelled: times are exact reals, and `toFixed(2)` is rounding half up on the exact value.
- Aggregation.NumberOf: reads `Number()` only on a trimmed run of decimal digits (or a blank, which is 0). A sign, fraction, exponent or hex prefix is read as not a number, although JavaScript would accept them. A digit run too long for a double, which JavaScript reads as `Infinity`, is an ordinary integer here.
- Aggregation.RowAge: an age-column value with more than about 308 digits would be `Infinity` in JavaScript and fall back to the birth year; here it is its integer value.
- `toLowerCase` covers ASCII letters and Å, Ä, Ö only; other Unicode case mappings are not modelled.
- Selection.Filtered: the result is a set of names; the `localeCompare(…, "sv")` ordering of the list is not modelled.
- The relay view keeps `nbest` keyed by the `EventKey` datatype rather than by key strings; `EventNormalizer.KeyNameInjective` shows the two are interchangeable.
- Aggregation.View, Aggregation.ReadRow: the best-time text stored with each entry comes from the corrected formatter `TimeCodec.FormatTime`, not from `secondsToTimeStr` as at hello-world/src/App.jsx:224 and 228. The as-written formatter has the carry bug recorded under Findings, and the model uses the corrected definition from there on. The two texts differ only when the rounding carries: 59.999 s is stored as "1:00.00" here and as "0:60.00" by the program. Otherwise they agree (`TimeCodec.AsWrittenAgreesBelowCarry`). The stored time in seconds is the same either way, and no lemma about the best times depends on the text.
- The `hdrs.length === 0` test in `onValidate` cannot fire, because splitting a line always yields at least one field (`TableExtractor.TableOf`); it is kept in `Aggregation.Validate` all the same.
- Selected ages arrive as strings converted by `Number`; the model takes them as a set of integers.
- `text.slice(0, 2000)` before the delimiter guess counts UTF-16 code units; the model takes the first 2000 characters (code points). The two differ only when a character outside the Basic Multilingual Plane occurs in the first 2000 units.
- `best` is a plain JavaScript object (hello-world/src/App.jsx:201, 219). A swimmer named "constructor", "toString" or "__proto__" finds an inherited property, so no record is created: the swimmer is not counted, and a row of theirs with an event and a finite time throws a TypeError at `best[name].best[gren]`. The same holds for event texts: with `gren` equal to one of those names, `best[name].best[gren]` (hello-world/src/App.jsx:222-223) finds a truthy inherited property and `sec < undefined` is false, so that event never gets a best time, while `Aggregation.Improve` stores one. The `nbest` keys are the six fixed key strings and are not affected. The model's `map` creates a record for every name and an entry for every event text.

## Findings

| source | as written | input that shows it | evidently intended | confidence | as-written member | corrected member |
|---|---|---|---|---|---|---|
| hello-world/src/App.jsx:158-162 | splits off whole minutes first, then rounds the remaining seconds with `toFixed(2)`, so the rounding can carry to 60 seconds | 59.999 seconds renders as "0:60.00" | round to hundredths first, then split, giving "1:00.00" with seconds always below 60 | not executed | TimeCodec.SecondsCarryToSixty | TimeCodec.FormatThenParse |
