# pace-to-mph in Dafny

A model of the logic of the pace-to-mph running calculator, with proofs about it. The app converts a running pace
(minutes per mile or per kilometre) to a speed (miles or kilometres per hour) and back. It works out race finish
times and the pace a target time needs, and it plans negative-split schedules, where every unit is run a fixed
number of seconds faster than the one before. It keeps two lists: pinned favourite conversions, and a history of
recent conversions.

The Swift sources and the Dafny modules match one to one:

| Swift | Dafny | form |
|---|---|---|
| `Models/RaceCalculator.swift` | `RaceCalculator` (race_calculator.dfy) | functions; `negativeSplits` is a method with a loop |
| `Models/ConversionEngine.swift` | `ConversionEngine` (conversion_engine.dfy) | functions and lemmas |
| `Models/FavoritesStore.swift` | `FavoritesStore` (favorites_store.dfy) | a class whose methods update `favorites` |
| `Models/ConversionHistory.swift` | `ConversionHistory` (conversion_history.dfy) | a class whose methods update `records` |
| `ViewModels/ConverterViewModel.swift` | `ConverterViewModel` (converter_view_model.dfy) | a class over `direction`, `unit`, `inputText`, `oldUnit` and a history |

Three support modules model the library behaviour the app relies on:

- `Wrappers` holds `Option` and the `??` operator.
- `Numeric` holds `round` (halfway cases away from zero), `max` and `abs`.
- `Text` covers the string handling:
  - `trimmingCharacters(in: .whitespaces)`;
  - `filter`;
  - `split(separator:)`, which omits empty pieces, and `split(separator:maxSplits: 1)`;
  - `Int(String)` and `Double(String)` on digit text;
  - integer interpolation and `%02d`.

How the model is built:

- Each class method is specified by a pure function of the old state. For example, `ConversionHistory.Add`
  ensures `records == Recorded(old(records), ...)`.
- The properties are then proved about those functions as lemmas. They include:
  - the 20-entry bound;
  - no duplicate favourites;
  - distinct identifiers;
  - "the oldest entry is the one dropped";
  - toggling twice.
- `Double` is modelled as `real`, so the reciprocal of pace and speed and the conversion by 1.60934 hold exactly.
- The negative-split schedule is proved to add up exactly to the target time before rounding. After rounding, the
  reported seconds are within half a second per split of it.
- Text round trips are proved:
  - `parseDuration(formatDuration(s)) == s` for every `s` from 0 up to the largest 64-bit `Int`;
  - `parsePace(formatPace(p))` is `p` to the nearest second;
  - `parseSpeed(formatSpeed(v))` is `v` to the nearest hundredth.

Behaviour of the code that is easy to miss:

- A pace with a colon is cut at its first colon only, and leading colons are skipped. So ":30" reads as 30
  minutes (`ConversionEngine.ParsePaceLeadingColonExample`), and "8::30" is refused because its second segment
  ":30" is not a number (`ConversionEngine.ParsePaceDoubleColonExample`).
- `negativeSplits` counts a remainder as a split only when it is above 0.001 units, so 3.0005 units give 3
  splits (`RaceCalculator.SplitCountExamples`).
- `finishTime` has no guard for a pace or distance that is not positive, and neither does
  `RaceCalculator.FinishTime`.

## Model

| member | source | states |
|---|---|---|
| Numeric.Round | pace-to-mph/Models/RaceCalculator.swift:36 | The nearest integer, halfway cases away from zero: within half of the argument, with the argument's sign |
| Numeric.Max | pace-to-mph/Models/RaceCalculator.swift:124 | The larger of two integers |
| Numeric.RoundOfInt | pace-to-mph/Models/RaceCalculator.swift:36 | Rounding leaves a whole number unchanged |
| Numeric.RoundMonotone | pace-to-mph/Models/RaceCalculator.swift:123 | Rounding preserves order |
| Numeric.RoundSeparates | pace-to-mph/Models/RaceCalculator.swift:123 | Values at least one apart round at least one apart |
| Text.FilterNumeric | pace-to-mph/Models/ConversionEngine.swift:44 | The filter keeps only digits, points and (for a pace) colons, and never lengthens the text |
| Text.FilterNumericConcat | pace-to-mph/Models/ConversionEngine.swift:126-128 | Filtering a concatenation filters each part, so the kept characters keep their order |
| Text.FilterNumericCounts | pace-to-mph/Models/ConversionEngine.swift:126-128 | Every allowed character is kept as often as it occurs; nothing else is kept |
| Text.FilterNumericKeeps | pace-to-mph/Models/ConversionEngine.swift:126-128 | Text made only of allowed characters passes unchanged |
| Text.FilterNumericNone | pace-to-mph/Models/ConversionEngine.swift:44-45 | Text with no allowed character filters to nothing |
| Text.FilterNumericIdempotent | pace-to-mph/Models/ConversionEngine.swift:126-128 | Filtering twice is filtering once |
| Text.Trim | pace-to-mph/Models/ConversionEngine.swift:43 | Trimming never lengthens the text, and what is left neither starts nor ends with whitespace |
| Text.TrimLeft | pace-to-mph/Models/ConversionEngine.swift:43 | Only leading whitespace is dropped, and the result does not start with whitespace |
| Text.TrimRight | pace-to-mph/Models/ConversionEngine.swift:43 | Only trailing whitespace is dropped, and the result does not end with whitespace |
| Text.TrimBlank | pace-to-mph/Models/ConversionHistory.swift:21-22 | Trimming leaves nothing exactly when the text is all whitespace |
| Text.TrimIdempotent | pace-to-mph/Models/ConversionEngine.swift:43 | Trimming twice is trimming once |
| Text.TrimNoWhitespace | pace-to-mph/Models/ConversionEngine.swift:43 | Text without whitespace is left as it is |
| Text.TrimEnds | pace-to-mph/Models/ConversionEngine.swift:43 | Text that neither starts nor ends with whitespace is left as it is |
| Text.NumericTrim | pace-to-mph/Models/ConversionEngine.swift:43 | Digits, points and colons are left as they are by trimming |
| Text.TrimWithin | pace-to-mph/Models/ConversionEngine.swift:43 | Every character left by trimming was in the text |
| Text.IndexOf | pace-to-mph/Models/ConversionEngine.swift:47 | The first position of the separator, or the length when there is none |
| Text.SplitOn | pace-to-mph/Models/RaceCalculator.swift:62 | The pieces between separators: none is empty, none holds the separator |
| Text.SplitOnSingle | pace-to-mph/Models/RaceCalculator.swift:62 | A non-empty separator-free text is one piece |
| Text.SplitOnCons | pace-to-mph/Models/RaceCalculator.swift:62 | A leading piece and a separator split off as the first piece |
| Text.SplitOnce | pace-to-mph/Models/ConversionEngine.swift:47 | At most two non-empty pieces, the first without the separator; none exactly when the text is all separators |
| Text.SplitOnceSingle | pace-to-mph/Models/ConversionEngine.swift:47 | A non-empty separator-free text is left whole |
| Text.SplitOncePair | pace-to-mph/Models/ConversionEngine.swift:47 | A piece, the separator and a non-empty rest split into exactly those two |
| Text.SplitOnceLeading | pace-to-mph/Models/ConversionEngine.swift:47 | Leading separators are skipped |
| Text.NatToString | pace-to-mph/Models/RaceCalculator.swift:47 | Decimal digits that denote the number; a single digit exactly below 10 |
| Text.TwoDigits | pace-to-mph/Models/RaceCalculator.swift:47 | The `%02d` text: digits that denote the number, two of them below 100 |
| Text.DigitsValueAppend | pace-to-mph/Models/RaceCalculator.swift:47 | The value of joined digit strings: the first shifted by the length of the second |
| Text.ParseInt | pace-to-mph/Models/RaceCalculator.swift:65 | `Int(String)`: a parsed integer comes from non-empty text and lies in the 64-bit range; a negative one comes from text starting with a minus sign |
| Text.ParseIntDigits | pace-to-mph/Models/RaceCalculator.swift:65 | Digit text parses as the number it denotes when that fits in 64 bits, and is refused otherwise |
| Text.ParseIntTooLong | pace-to-mph/Models/RaceCalculator.swift:65 | Twenty or more digits without a leading zero are beyond 64 bits and are refused |
| Text.DigitsValueAtLeast | pace-to-mph/Models/RaceCalculator.swift:65 | Digits with a non-zero first digit denote at least 10 to the power of one less than their count |
| Text.Uppercased | pace-to-mph/Models/ConversionEngine.swift:19 | `uppercased()` on ASCII: same length, each lower-case letter moved to its capital, every other character kept |
| Text.ParseDecimal | pace-to-mph/Models/ConversionEngine.swift:50 | A parsed decimal comes from non-empty text and is not negative |
| Text.ParseDecimalDigits | pace-to-mph/Models/ConversionEngine.swift:50 | Digit text parses as the whole number it denotes |
| Text.ParseDecimalPoint | pace-to-mph/Models/ConversionEngine.swift:50 | Digits, a point and digits parse as the exact decimal value |
| Text.ParseDecimalPointValue | pace-to-mph/Models/ConversionEngine.swift:50 | Digits, a point and digits parse as any value equal to the decimal they denote |
| Text.ParseDecimalColon | pace-to-mph/Models/ConversionEngine.swift:57-61 | Text holding a colon does not parse as a number |
| Text.AllNumericConcat | pace-to-mph/Models/ConversionEngine.swift:126 | Text is numeric exactly when both of its parts are |
| Text.AllNumericNoWhitespace | pace-to-mph/Models/ConversionEngine.swift:126 | Numeric text holds no whitespace |
| RaceCalculator.Distance.Miles | pace-to-mph/Models/RaceCalculator.swift:13-21 | Every race but the custom one has a length in miles, and it is positive |
| RaceCalculator.Distance.Kilometers | pace-to-mph/Models/RaceCalculator.swift:23-31 | Every race but the custom one has a length in kilometres, and it is positive |
| RaceCalculator.DistanceTableAgrees | pace-to-mph/Models/RaceCalculator.swift:13-31 | The mile and kilometre columns agree through 1.60934 to a tenth of a metre |
| RaceCalculator.FinishTime | pace-to-mph/Models/RaceCalculator.swift:35-37 | The finish time is within half a second of pace × distance × 60 |
| RaceCalculator.RequiredPace | pace-to-mph/Models/RaceCalculator.swift:54-57 | Zero for a distance that is not positive; otherwise the pace that covers the distance in exactly the target time |
| RaceCalculator.FinishTimeOfRequiredPace | pace-to-mph/Models/RaceCalculator.swift:35-57 | Running the required pace over the distance finishes in exactly the target time |
| RaceCalculator.FiveKExample | pace-to-mph/Models/RaceCalculator.swift:35-57 | 8:00 per mile over a 5K finishes in 1491 s; 1491 s over a 5K is 8:00 per mile to within 0.01 |
| RaceCalculator.CompactMapInt | pace-to-mph/Models/RaceCalculator.swift:65 | `compactMap` never yields more values than pieces |
| RaceCalculator.CompactMapDigits | pace-to-mph/Models/RaceCalculator.swift:65-66 | Digit pieces within 64 bits all parse, each to the number it denotes |
| RaceCalculator.CompactMapAll | pace-to-mph/Models/RaceCalculator.swift:65-66 | Nothing is dropped exactly when every piece parses, and then each value is its piece's |
| RaceCalculator.ParseDuration | pace-to-mph/Models/RaceCalculator.swift:60-84 | A parsed duration is never negative |
| RaceCalculator.ReadDuration | pace-to-mph/Models/RaceCalculator.swift:63-83 | A duration read from pieces is never negative |
| RaceCalculator.ReadDurationAccepts | pace-to-mph/Models/RaceCalculator.swift:63-83 | Pieces are accepted exactly when there are one to three, each a non-negative integer, every one after the first below 60 |
| RaceCalculator.ParseOnePiece | pace-to-mph/Models/RaceCalculator.swift:69-72 | One piece of digits is that many minutes when it fits in 64 bits, and is refused otherwise |
| RaceCalculator.ParseRefusedPiece | pace-to-mph/Models/RaceCalculator.swift:60-72 | A single piece that `Int` refuses, or that reads as negative, makes the whole text refused |
| RaceCalculator.ParseTwoPieces | pace-to-mph/Models/RaceCalculator.swift:73-76 | "M:SS" digit text within 64 bits is M×60+S, and is refused when S reaches 60 |
| RaceCalculator.ParseThreePieces | pace-to-mph/Models/RaceCalculator.swift:77-80 | "H:MM:SS" digit text within 64 bits is H×3600+M×60+S, and is refused when M or S reaches 60 |
| RaceCalculator.ReadTwoPieces | pace-to-mph/Models/RaceCalculator.swift:73-76 | Two digit pieces within 64 bits read as minutes and seconds, refused when the seconds reach 60 |
| RaceCalculator.ReadThreePieces | pace-to-mph/Models/RaceCalculator.swift:77-80 | Three digit pieces within 64 bits read as hours, minutes and seconds, refused when either of the last two reaches 60 |
| RaceCalculator.ReadTwoValues | pace-to-mph/Models/RaceCalculator.swift:73-76 | Minutes and seconds pieces in range read as the time they make up |
| RaceCalculator.ReadThreeValues | pace-to-mph/Models/RaceCalculator.swift:77-80 | Hours, minutes and seconds pieces in range read as the time they make up |
| RaceCalculator.JoinTwo | pace-to-mph/Models/RaceCalculator.swift:61-62 | Two digit strings joined by a colon survive trimming and split back into the two |
| RaceCalculator.SplitTwo | pace-to-mph/Models/RaceCalculator.swift:62 | Two digit strings joined by a colon split back into the two |
| RaceCalculator.JoinThree | pace-to-mph/Models/RaceCalculator.swift:61-62 | Three digit strings joined by colons survive trimming and split back into the three |
| RaceCalculator.SplitThree | pace-to-mph/Models/RaceCalculator.swift:62 | Three digit strings joined by colons split back into the three |
| RaceCalculator.JoinFour | pace-to-mph/Models/RaceCalculator.swift:61-62 | Four digit strings joined by colons survive trimming and split back into the four |
| RaceCalculator.SplitFour | pace-to-mph/Models/RaceCalculator.swift:62 | A digit string, a colon and three pieces split into four |
| RaceCalculator.TrimJoin | pace-to-mph/Models/RaceCalculator.swift:61 | Numeric text joined by a colon is numeric and left alone by trimming |
| RaceCalculator.ParseFourPieces | pace-to-mph/Models/RaceCalculator.swift:63 | Four pieces are refused |
| RaceCalculator.ParseHourExample | pace-to-mph/Models/RaceCalculator.swift:77-80 | "1:30:00" is 5400 s |
| RaceCalculator.ParseMinutesExample | pace-to-mph/Models/RaceCalculator.swift:73-76 | "24:51" is 1491 s |
| RaceCalculator.ParseBareMinutesExample | pace-to-mph/Models/RaceCalculator.swift:69-72 | "30" is 1800 s |
| RaceCalculator.ParseSixtySecondsExample | pace-to-mph/Models/RaceCalculator.swift:75 | "1:60" is refused |
| RaceCalculator.ParseEmptyDurationExample | pace-to-mph/Models/RaceCalculator.swift:63 | "" is refused |
| RaceCalculator.ParseLettersDurationExample | pace-to-mph/Models/RaceCalculator.swift:65-66 | "abc" is refused |
| RaceCalculator.ParseNegativeDurationExample | pace-to-mph/Models/RaceCalculator.swift:71 | "-5" is refused |
| RaceCalculator.ParseFourPiecesExample | pace-to-mph/Models/RaceCalculator.swift:63 | "1:2:3:4" is refused |
| RaceCalculator.ParseHugeDurationExample | pace-to-mph/Models/RaceCalculator.swift:65-66 | Twenty nines are beyond 64 bits, so the duration is refused |
| RaceCalculator.FormatDuration | pace-to-mph/Models/RaceCalculator.swift:40-51 | "0:00" for a negative time; otherwise seconds as two digits after a colon, and a second colon (the H:MM:SS shape) exactly from one hour up |
| RaceCalculator.FormatHourExample | pace-to-mph/Models/RaceCalculator.swift:46-47 | 5400 s is "1:30:00" |
| RaceCalculator.FormatMinutesExample | pace-to-mph/Models/RaceCalculator.swift:48-49 | 1491 s is "24:51" |
| RaceCalculator.FormatDurationExamples | pace-to-mph/Models/RaceCalculator.swift:40-51 | 3661 s is "1:01:01"; 0 s and a negative time are "0:00" |
| RaceCalculator.ParseLongDurationText | pace-to-mph/Models/RaceCalculator.swift:46-47 | "H:MM:SS" text of in-range fields reads back as their time |
| RaceCalculator.ParseShortDurationText | pace-to-mph/Models/RaceCalculator.swift:48-49 | "M:SS" text of in-range fields reads back as their time |
| RaceCalculator.DurationFields | pace-to-mph/Models/RaceCalculator.swift:42-44 | Hours, minutes below 60 and seconds below 60 add back up to the time |
| RaceCalculator.ParseFormatDuration | pace-to-mph/Models/RaceCalculator.swift:40-84 | Every time from zero up to the largest 64-bit integer is read back by `parseDuration` from its `formatDuration` text |
| RaceCalculator.Partial | pace-to-mph/Models/RaceCalculator.swift:95-96 | The remainder after the whole units lies in [0, 1) and adds back to the distance |
| RaceCalculator.EffectiveIsPositive | pace-to-mph/Models/RaceCalculator.swift:97-111 | There is a split exactly when the covered distance is positive |
| RaceCalculator.SplitAt | pace-to-mph/Models/RaceCalculator.swift:115-124 | A split lasts at least one second and is at most one unit long, shorter only as the last split carrying a remainder; unless clamped, its seconds are within half a second of pace × length |
| RaceCalculator.PlannedSplits | pace-to-mph/Models/RaceCalculator.swift:92-128 | No splits for a time or distance that is not positive; otherwise one per whole unit plus one for a remainder, each at least a second, all but the last one unit long |
| RaceCalculator.NegativeSplits | pace-to-mph/Models/RaceCalculator.swift:92-128 | The loop builds exactly the planned schedule, and every split takes at least one second |
| RaceCalculator.PaceSumClosed | pace-to-mph/Models/RaceCalculator.swift:104-105 | The sum of the decreasing paces is k·base − drop·k(k−1)/2 |
| RaceCalculator.WholeSplitDistance | pace-to-mph/Models/RaceCalculator.swift:117-122 | Each whole-unit split is one unit long |
| RaceCalculator.WholeScheduleTime | pace-to-mph/Models/RaceCalculator.swift:100-105 | Over whole-unit splits the schedule time is the series of paces |
| RaceCalculator.ScheduleAlgebra | pace-to-mph/Models/RaceCalculator.swift:100-112 | With the base pace solved as in the source, n whole paces and the scaled last one add up to the total |
| RaceCalculator.ScheduleSum | pace-to-mph/Models/RaceCalculator.swift:100-116 | The unrounded split times add up exactly to the target, the terms named |
| RaceCalculator.ScheduleAddsUp | pace-to-mph/Models/RaceCalculator.swift:100-116 | The unrounded split times add up exactly to the target time, with or without a partial last split |
| RaceCalculator.SplitCountExamples | pace-to-mph/Models/RaceCalculator.swift:95-97 | 3.0 gives 3 splits, 3.1 gives 4, 3.0005 gives 3, 0.5 gives 1 |
| RaceCalculator.PlannedSplitsLength | pace-to-mph/Models/RaceCalculator.swift:93-98 | One entry per split, and none when the time is not positive or the distance is at most 0.001 |
| RaceCalculator.EmptyScheduleExamples | pace-to-mph/Models/RaceCalculator.swift:93 | No time or no distance gives an empty schedule |
| RaceCalculator.SplitDistances | pace-to-mph/Models/RaceCalculator.swift:117-122 | Every split is one unit except a last one carrying the remainder; the lengths add up to the covered distance |
| RaceCalculator.SplitPaceDrops | pace-to-mph/Models/RaceCalculator.swift:116 | Each split's pace is `drop` below the one before, i·drop below the first |
| RaceCalculator.WholeSplitsDescend | pace-to-mph/Models/RaceCalculator.swift:115-125 | With no drop whole splits are equal; with a drop of a second or more each is faster unless clamped |
| RaceCalculator.WholeSplitStep | pace-to-mph/Models/RaceCalculator.swift:116 | Consecutive whole-unit splits differ in unrounded time by exactly the drop |
| RaceCalculator.WholeSplitAt | pace-to-mph/Models/RaceCalculator.swift:115-124 | A whole-unit split is one unit long and reports its rounded time, at least one second |
| RaceCalculator.FiveSecondDropExample | pace-to-mph/Models/RaceCalculator.swift:92-128 | 30 minutes over 3 units with a 5 s drop is 605, 600, 595 s |
| RaceCalculator.ReportedCloseToSchedule | pace-to-mph/Models/RaceCalculator.swift:123-124 | Without clamping, the reported seconds of the first k splits are within k/2 of their unrounded time |
| RaceCalculator.ReportedTotal | pace-to-mph/Models/RaceCalculator.swift:100-125 | Without clamping, the reported schedule adds up to the target within half a second per split |
| ConversionEngine.ConversionDirection.RawValue | pace-to-mph/Models/ConversionEngine.swift:3-5 | The raw text of a direction: "paceToSpeed" starts with a p, "speedToPace" does not |
| ConversionEngine.ConversionDirection.Label | pace-to-mph/Models/ConversionEngine.swift:7-12 | The label starts with "P" (Pace → Speed) exactly for the pace-to-speed direction |
| ConversionEngine.SpeedUnit.RawValue | pace-to-mph/Models/ConversionEngine.swift:15-17 | The raw text of a unit: "mph" starts with an m, "kph" does not |
| ConversionEngine.SpeedUnit.Label | pace-to-mph/Models/ConversionEngine.swift:19 | The label is the raw value upper-cased |
| ConversionEngine.SpeedUnit.PaceLabel | pace-to-mph/Models/ConversionEngine.swift:21-26 | A pace suffix is three characters starting with a slash |
| ConversionEngine.RawValueRoundTrip | pace-to-mph/Models/ConversionEngine.swift:3-17 | Reading back the raw text of a direction or a unit gives that direction or unit |
| ConversionEngine.ConversionDirection.AcceptsColon | pace-to-mph/Models/ConversionEngine.swift:123-130 | Only a typed pace takes a colon |
| ConversionEngine.DirectionFromRaw | pace-to-mph/Models/ConversionEngine.swift:3-5 | A direction exists exactly for its two raw values, and carries the raw value it was made from |
| ConversionEngine.SpeedUnit.SpeedLabel | pace-to-mph/Models/ConversionEngine.swift:28-33 | A speed suffix ends in H and has no leading slash, so it cannot be taken for a pace suffix |
| ConversionEngine.UnitFromRaw | pace-to-mph/Models/ConversionEngine.swift:15-17 | A unit exists exactly for "mph" and "kph", and carries the raw value it was made from |
| ConversionEngine.LabelsDistinct | pace-to-mph/Models/ConversionEngine.swift:21-33 | Pace and speed labels never coincide, and each label tells the units apart |
| ConversionEngine.PositiveDecimal | pace-to-mph/Models/ConversionEngine.swift:50 | A lone segment is accepted exactly when it parses to a number above zero |
| ConversionEngine.ParsePace | pace-to-mph/Models/ConversionEngine.swift:42-64 | A parsed pace is above zero and comes from non-empty text |
| ConversionEngine.ReadPaceSegments | pace-to-mph/Models/ConversionEngine.swift:47-66 | A pace read from segments is above zero, and there were one or two segments |
| ConversionEngine.ParseSpeed | pace-to-mph/Models/ConversionEngine.swift:70-76 | A parsed speed is above zero and comes from non-empty text |
| ConversionEngine.NormalizedText | pace-to-mph/Models/ConversionEngine.swift:43-44 | Clean text survives the trimming and the filter |
| ConversionEngine.ParsePaceWhole | pace-to-mph/Models/ConversionEngine.swift:49-53 | A bare number of digits is that many minutes, refused at zero |
| ConversionEngine.ColonSegments | pace-to-mph/Models/ConversionEngine.swift:43-47 | "M:S" digit text survives trimming and the filter and splits into its two parts |
| ConversionEngine.ParsePaceColon | pace-to-mph/Models/ConversionEngine.swift:56-63 | "M:S" digit text is M + S/60, refused at zero; S is not range-checked |
| ConversionEngine.ReadPacePair | pace-to-mph/Models/ConversionEngine.swift:56-63 | Two digit segments are M + S/60, refused at zero |
| ConversionEngine.ParsePaceHalfExample | pace-to-mph/Models/ConversionEngine.swift:42-64 | "8:30" is 8.5 |
| ConversionEngine.ParsePaceWholeExample | pace-to-mph/Models/ConversionEngine.swift:42-64 | "7:00" is 7.0 |
| ConversionEngine.ParsePaceZeroExample | pace-to-mph/Models/ConversionEngine.swift:63 | "0:00" is refused |
| ConversionEngine.PointNormalized | pace-to-mph/Models/ConversionEngine.swift:43-44 | "W.F" digit text survives trimming and either filter |
| ConversionEngine.PointSingle | pace-to-mph/Models/ConversionEngine.swift:47 | "W.F" digit text is one segment |
| ConversionEngine.ParsePacePoint | pace-to-mph/Models/ConversionEngine.swift:49-53 | "W.F" digit text is the decimal number of minutes, refused at zero |
| ConversionEngine.ReadPaceSingle | pace-to-mph/Models/ConversionEngine.swift:49-53 | A lone segment is its decimal value, refused unless above zero |
| ConversionEngine.ParsePaceDecimalExample | pace-to-mph/Models/ConversionEngine.swift:49-53 | "8.5" is 8.5 |
| ConversionEngine.LeadingColonSegments | pace-to-mph/Models/ConversionEngine.swift:43-47 | ":" then digits survives the filter, and the split drops the leading colon |
| ConversionEngine.LeadingColonNormalized | pace-to-mph/Models/ConversionEngine.swift:43-44 | ":" then digits survives trimming and the filter |
| ConversionEngine.LeadingColonSplit | pace-to-mph/Models/ConversionEngine.swift:47 | ":" then digits splits into the digits alone |
| ConversionEngine.ParsePaceLeadingColon | pace-to-mph/Models/ConversionEngine.swift:47-53 | ":" then digits is read as that many minutes, as the digits alone are |
| ConversionEngine.ParsePaceLeadingColonExample | pace-to-mph/Models/ConversionEngine.swift:47-53 | ":30" is 30 minutes |
| ConversionEngine.DoubleColonSegments | pace-to-mph/Models/ConversionEngine.swift:43-47 | "M::S" digit text survives the filter and splits at the first colon only |
| ConversionEngine.ParsePaceDoubleColon | pace-to-mph/Models/ConversionEngine.swift:56-61 | "M::S" digit text is refused: the second segment keeps a colon |
| ConversionEngine.ParsePaceDoubleColonExample | pace-to-mph/Models/ConversionEngine.swift:56-61 | "8::30" is refused |
| ConversionEngine.ParsePaceNothingNumeric | pace-to-mph/Models/ConversionEngine.swift:44-45 | Text without digits, points or colons is refused as a pace |
| ConversionEngine.ParseSpeedNothingNumeric | pace-to-mph/Models/ConversionEngine.swift:72-73 | Text without digits or points is refused as a speed |
| ConversionEngine.ParsePaceEmptyExample | pace-to-mph/Models/ConversionEngine.swift:45 | "" is refused as a pace |
| ConversionEngine.ParsePaceLettersExample | pace-to-mph/Models/ConversionEngine.swift:45 | "abc" is refused as a pace |
| ConversionEngine.ParseSpeedPoint | pace-to-mph/Models/ConversionEngine.swift:70-76 | "W.F" digit text is the decimal speed, refused at zero |
| ConversionEngine.ParseSpeedText | pace-to-mph/Models/ConversionEngine.swift:70-76 | Clean text that reads as v is a speed exactly when v is above zero |
| ConversionEngine.PositiveDecimalOf | pace-to-mph/Models/ConversionEngine.swift:74 | A number is accepted exactly when it is above zero |
| ConversionEngine.ParseSpeedDecimalExample | pace-to-mph/Models/ConversionEngine.swift:70-76 | "10.5" is 10.5 |
| ConversionEngine.ParseSpeedWholeExample | pace-to-mph/Models/ConversionEngine.swift:70-76 | "6" is 6, "0" is refused |
| ConversionEngine.ParseSpeedEmptyExample | pace-to-mph/Models/ConversionEngine.swift:73 | "" is refused as a speed |
| ConversionEngine.ParseSpeedLettersExample | pace-to-mph/Models/ConversionEngine.swift:73 | "abc" is refused as a speed |
| ConversionEngine.FormatSpeed | pace-to-mph/Models/ConversionEngine.swift:81-83 | The `%.2f` text has at least four characters |
| ConversionEngine.FormatSpeedExamples | pace-to-mph/Models/ConversionEngine.swift:81-83 | 10 is "10.00", 7.567 is "7.57" |
| ConversionEngine.Hundredths | pace-to-mph/Models/ConversionEngine.swift:81-83 | Two-decimal text holds only digits and points and has at least four characters |
| ConversionEngine.HundredthsValue | pace-to-mph/Models/ConversionEngine.swift:81-83 | Two-decimal text reads back as its value |
| ConversionEngine.CentsSplit | pace-to-mph/Models/ConversionEngine.swift:82 | A count of hundredths is its whole part plus its remainder over 100 |
| ConversionEngine.ParseSpeedClean | pace-to-mph/Models/ConversionEngine.swift:70-76 | Clean speed text is its value, refused unless above zero |
| ConversionEngine.RoundHundredths | pace-to-mph/Models/ConversionEngine.swift:81-83 | Rounding to hundredths moves a value by at most 0.005 |
| ConversionEngine.HundredthsSpeed | pace-to-mph/Models/ConversionEngine.swift:70-83 | Two-decimal text reads back as a speed, refused at zero |
| ConversionEngine.ParseFormatSpeed | pace-to-mph/Models/ConversionEngine.swift:70-83 | A speed written and read back is the speed to the nearest hundredth, refused only when that is zero |
| ConversionEngine.PaceFields | pace-to-mph/Models/ConversionEngine.swift:89-96 | Minutes and seconds below 60 that add back to the total seconds |
| ConversionEngine.PaceText | pace-to-mph/Models/ConversionEngine.swift:98 | The "M:SS" text has at least four characters |
| ConversionEngine.FormatPace | pace-to-mph/Models/ConversionEngine.swift:86-99 | There is a text exactly when the pace is above zero |
| ConversionEngine.PaceTextReads | pace-to-mph/Models/ConversionEngine.swift:42-99 | "M:SS" text reads back as total seconds over 60, refused at zero |
| ConversionEngine.ParsePaceSeconds | pace-to-mph/Models/ConversionEngine.swift:56-63 | "M:SS" digit text reads as its seconds over 60, refused at zero |
| ConversionEngine.MinutesAndSeconds | pace-to-mph/Models/ConversionEngine.swift:62 | Minutes and seconds make total seconds over 60 minutes |
| ConversionEngine.RoundSeconds | pace-to-mph/Models/ConversionEngine.swift:89 | Rounding a pace to whole seconds moves it by at most half a second |
| ConversionEngine.ParseFormatPace | pace-to-mph/Models/ConversionEngine.swift:42-99 | A pace written and read back is the pace to the nearest second, refused only when that is zero |
| ConversionEngine.FormatPaceHalfExample | pace-to-mph/Models/ConversionEngine.swift:86-99 | 8.5 is "8:30" |
| ConversionEngine.FormatPaceWholeExample | pace-to-mph/Models/ConversionEngine.swift:86-99 | 7 is "7:00" |
| ConversionEngine.FormatPaceQuarterExample | pace-to-mph/Models/ConversionEngine.swift:86-99 | 6.25 is "6:15"; zero and negative paces have no text |
| ConversionEngine.FormatPaceSixExample | pace-to-mph/Models/ConversionEngine.swift:86-99 | 6 is "6:00" |
| ConversionEngine.PaceToSpeed | pace-to-mph/Models/ConversionEngine.swift:103-105 | Speed × pace is 60, and a positive pace gives a positive speed |
| ConversionEngine.SpeedToPace | pace-to-mph/Models/ConversionEngine.swift:107-109 | Pace × speed is 60, and a positive speed gives a positive pace |
| ConversionEngine.PaceSpeedRoundTrip | pace-to-mph/Models/ConversionEngine.swift:103-109 | Pace to speed and back gives the pace again; 6 and 10 correspond |
| ConversionEngine.ConvertPace | pace-to-mph/Models/ConversionEngine.swift:111-114 | Identity within a unit; per kilometre the pace is the mile pace divided by 1.60934, and back; positivity is kept |
| ConversionEngine.ConvertSpeed | pace-to-mph/Models/ConversionEngine.swift:116-119 | Identity within a unit; km/h is mph times 1.60934, and back; positivity is kept |
| ConversionEngine.ConvertRoundTrip | pace-to-mph/Models/ConversionEngine.swift:111-119 | Converting to another unit and back gives the value again, for a pace and for a speed |
| ConversionEngine.ConvertDirection | pace-to-mph/Models/ConversionEngine.swift:111-119 | A mile pace is larger than the kilometre pace; a mile speed is smaller than the km/h speed |
| ConversionEngine.ConvertPaceMatchesSpeed | pace-to-mph/Models/ConversionEngine.swift:103-119 | Converting a pace gives the pace of the converted speed |
| ConversionEngine.ConvertExamples | pace-to-mph/Models/ConversionEngine.swift:111-119 | 10 mph is 16.0934 km/h and back; 8:00 per mile is under 8:00 per km; same unit is identity |
| ConversionEngine.SanitizeInput | pace-to-mph/Models/ConversionEngine.swift:123-130 | The result is only allowed characters, and never a colon for a typed speed |
| ConversionEngine.SanitizeInputKeepsExactly | pace-to-mph/Models/ConversionEngine.swift:123-130 | Every allowed character is kept as often as it occurs, nothing else, in order |
| ConversionEngine.SanitizeInputIdempotent | pace-to-mph/Models/ConversionEngine.swift:123-130 | Sanitizing twice is sanitizing once; clean text is left alone |
| ConversionEngine.SanitizePaceExample | pace-to-mph/Models/ConversionEngine.swift:126 | "8:3a0" becomes "8:30" |
| ConversionEngine.SanitizeSpeedExample | pace-to-mph/Models/ConversionEngine.swift:128 | "10.5abc" becomes "10.5" |
| ConversionEngine.Convert | pace-to-mph/Models/ConversionEngine.swift:135-137 | Blank input converts to nothing |
| ConversionEngine.ConvertEmpty | pace-to-mph/Models/ConversionEngine.swift:135-149 | The conversion is empty exactly when the trimmed input is blank or does not parse in the direction |
| ConversionEngine.PaceTextNumeric | pace-to-mph/Models/ConversionEngine.swift:98 | Pace text is digits around a colon |
| ConversionEngine.SpeedOfPaceNumeric | pace-to-mph/Models/ConversionEngine.swift:140-143 | The speed text of a positive pace is digits and a point |
| ConversionEngine.PaceOfSpeedNumeric | pace-to-mph/Models/ConversionEngine.swift:144-147 | A positive speed has pace text, made of digits and a colon |
| ConversionEngine.ConvertNumeric | pace-to-mph/Models/ConversionEngine.swift:135-149 | Whatever the input, the conversion is only digits, points and colons |
| ConversionEngine.ConvertedSpeed | pace-to-mph/Models/ConversionEngine.swift:144-147 | A typed speed converts to the formatted pace it stands for |
| ConversionEngine.ConvertPaceReadsBack | pace-to-mph/Models/ConversionEngine.swift:135-143 | The speed shown for a typed pace reads back as that speed to the nearest hundredth, refused only when that rounds to zero |
| ConversionEngine.ConvertSpeedReadsBack | pace-to-mph/Models/ConversionEngine.swift:135-147 | The pace shown for a typed speed reads back as that pace to the nearest second, refused only when that rounds to zero |
| ConversionEngine.SixMinutePace | pace-to-mph/Models/ConversionEngine.swift:42-64 | "6:00" is a pace of 6 and survives trimming |
| ConversionEngine.ConvertPaceExample | pace-to-mph/Models/ConversionEngine.swift:140-143 | Pace "6:00" converts to "10.00" |
| ConversionEngine.TenPerHour | pace-to-mph/Models/ConversionEngine.swift:70-76 | "10" is a speed of 10 |
| ConversionEngine.ConvertSpeedExample | pace-to-mph/Models/ConversionEngine.swift:144-147 | Speed "10" converts to "6:00" |
| ConversionEngine.ConvertBlankExample | pace-to-mph/Models/ConversionEngine.swift:136-137 | Empty and blank input convert to nothing |
| FavoritesStore.Contains | pace-to-mph/Models/FavoritesStore.swift:22 | `contains(where:)`: true exactly when some entry shows the conversion |
| FavoritesStore.FirstMatch | pace-to-mph/Models/FavoritesStore.swift:46 | `first(where:)`: none exactly when no entry shows the conversion; otherwise the first that does |
| FavoritesStore.Prefix | pace-to-mph/Models/FavoritesStore.swift:28 | `prefix(n)`: the first n entries, or all when fewer |
| FavoritesStore.Removed | pace-to-mph/Models/FavoritesStore.swift:35 | `removeAll` never lengthens the list |
| FavoritesStore.RemovedShorter | pace-to-mph/Models/FavoritesStore.swift:35 | Removing the identifier of an entry in the list makes the list shorter |
| FavoritesStore.Added | pace-to-mph/Models/FavoritesStore.swift:25-29 | The new favourite goes first, followed by the old entries in order, at most 20 in all |
| FavoritesStore.AddFavorite | pace-to-mph/Models/FavoritesStore.swift:20-29 | Afterwards the conversion is pinned; an already pinned one leaves the list unchanged, a new one goes first with the fresh identifier |
| FavoritesStore.Toggled | pace-to-mph/Models/FavoritesStore.swift:45-51 | A pinned conversion leaves a shorter list; an unpinned one goes first with the fresh identifier |
| FavoritesStore.FavoritesStore.constructor | pace-to-mph/Models/FavoritesStore.swift:13-17 | The store starts empty and valid |
| FavoritesStore.FavoritesStore.IsFavorited | pace-to-mph/Models/FavoritesStore.swift:40-42 | True exactly when some entry matches all four strings |
| FavoritesStore.FavoritesStore.Add | pace-to-mph/Models/FavoritesStore.swift:20-31 | A pinned conversion changes nothing; otherwise it goes in front and the list is cut to 20; afterwards it is pinned, the invariant holds, and the identifier counter moves on exactly when an entry was made |
| FavoritesStore.FavoritesStore.Remove | pace-to-mph/Models/FavoritesStore.swift:34-37 | Exactly the entries with that identifier go, the others keep their order |
| FavoritesStore.FavoritesStore.Toggle | pace-to-mph/Models/FavoritesStore.swift:45-51 | The first matching entry is removed by its identifier, or the conversion is added; the identifier counter moves on only when an entry was made |
| FavoritesStore.FavoritesStore.Clear | pace-to-mph/Models/FavoritesStore.swift:53-56 | No favourites are left |
| FavoritesStore.PrefixKeeps | pace-to-mph/Models/FavoritesStore.swift:28 | The entries of a prefix are the list's own |
| FavoritesStore.AddedShape | pace-to-mph/Models/FavoritesStore.swift:25-29 | A new favourite goes first, followed by all old entries, or all but the oldest when there were 20 |
| FavoritesStore.AddedValid | pace-to-mph/Models/FavoritesStore.swift:20-29 | Adding a new conversion keeps the list at most 20, duplicate-free and with distinct identifiers, and pins it |
| FavoritesStore.RemovedMembers | pace-to-mph/Models/FavoritesStore.swift:35 | An entry survives exactly when it was there with another identifier |
| FavoritesStore.RemovedConcat | pace-to-mph/Models/FavoritesStore.swift:35 | Removing from a concatenation removes from each part, so the order is kept |
| FavoritesStore.RemovedAbsent | pace-to-mph/Models/FavoritesStore.swift:35 | Removing an identifier nobody carries changes nothing |
| FavoritesStore.RemovedValid | pace-to-mph/Models/FavoritesStore.swift:34-37 | Removing keeps the list duplicate-free with distinct identifiers |
| FavoritesStore.AppendValid | pace-to-mph/Models/FavoritesStore.swift:35 | An entry unlike all others can join a valid list |
| FavoritesStore.ToggledFlips | pace-to-mph/Models/FavoritesStore.swift:45-51 | Toggling pins an unpinned conversion and unpins a pinned one |
| FavoritesStore.ToggleTwice | pace-to-mph/Models/FavoritesStore.swift:45-51 | Toggling an unpinned conversion twice unpins it; the rest is as before, less the oldest on a full list |
| FavoritesStore.AddFavoriteBounded | pace-to-mph/Models/FavoritesStore.swift:27-29 | The list never holds more than 20, and the added conversion is pinned |
| FavoritesStore.AddAllLength | pace-to-mph/Models/FavoritesStore.swift:20-31 | Distinct new conversions grow the list one by one until it holds 20 |
| FavoritesStore.TwentyFiveAddsLeaveTwenty | pace-to-mph/Models/FavoritesStore.swift:20-31 | 25 distinct adds to an empty store leave 20 |
| ConversionHistory.Accepts | pace-to-mph/Models/ConversionHistory.swift:21-22 | The guard passes exactly when both the result and the input hold a character that is not whitespace |
| ConversionHistory.Recorded | pace-to-mph/Models/ConversionHistory.swift:20-35 | A refused conversion leaves the records as they were; an accepted one goes first, at most 20 in all |
| ConversionHistory.ConversionHistory.constructor | pace-to-mph/Models/ConversionHistory.swift:14-18 | The history starts empty and valid |
| ConversionHistory.ConversionHistory.Add | pace-to-mph/Models/ConversionHistory.swift:20-37 | Blank input or result changes nothing; otherwise the record goes in front and the list is cut to 20 |
| ConversionHistory.ConversionHistory.Clear | pace-to-mph/Models/ConversionHistory.swift:39-42 | No records are left |
| ConversionHistory.RecordedBlank | pace-to-mph/Models/ConversionHistory.swift:21-22 | An all-whitespace result or input leaves the history unchanged |
| ConversionHistory.RecordedFront | pace-to-mph/Models/ConversionHistory.swift:24-35 | An accepted record comes first with exactly its four strings, followed by the earlier records, less the oldest when there were 20 |
| ConversionHistory.RecordedValid | pace-to-mph/Models/ConversionHistory.swift:33-35 | Recording keeps at most 20 records with distinct identifiers |
| ConversionHistory.FrontValid | pace-to-mph/Models/ConversionHistory.swift:32-35 | A fresh record in front, cut to 20, keeps the history valid |
| ConversionHistory.OverflowDropsOldest | pace-to-mph/Models/ConversionHistory.swift:33-35 | On a full history the oldest record is pushed out, and no other |
| ConversionHistory.RecordedTwiceKeepsBoth | pace-to-mph/Models/ConversionHistory.swift:20-36 | No de-duplication: the same conversion recorded twice fills the first two places |
| ConversionHistory.RecordedExample | pace-to-mph/Models/ConversionHistory.swift:20-37 | "8:30" /mi = "7.06" MPH is recorded |
| ConversionHistory.BlankResultExample | pace-to-mph/Models/ConversionHistory.swift:21-22 | A blank result is not recorded |
| ConversionHistory.BlankInputExample | pace-to-mph/Models/ConversionHistory.swift:21-22 | An input of spaces is not recorded |
| ConverterViewModel.InputSuffix | pace-to-mph/ViewModels/ConverterViewModel.swift:53-58 | The typed value carries the pace label exactly when a pace is typed, the speed label exactly when a speed is |
| ConverterViewModel.ResultSuffix | pace-to-mph/ViewModels/ConverterViewModel.swift:60-65 | The shown value carries the speed label exactly when a pace is typed, the pace label exactly when a speed is |
| ConverterViewModel.Placeholder | pace-to-mph/ViewModels/ConverterViewModel.swift:46-51 | For a speed, the sample speed 10 or 16 written as speeds are written; for a pace, a pattern that is not itself a pace |
| ConverterViewModel.PatternIsNoPace | pace-to-mph/ViewModels/ConverterViewModel.swift:48 | "mm:ss" does not read as a pace |
| ConverterViewModel.ColonOnlyIsNoPace | pace-to-mph/Models/ConversionEngine.swift:42-50 | Text whose only numeric character is a colon does not read as a pace |
| ConverterViewModel.SampleSpeeds | pace-to-mph/ViewModels/ConverterViewModel.swift:49 | 10 and 16 are written "10.00" and "16.00" |
| ConverterViewModel.HelperText | pace-to-mph/ViewModels/ConverterViewModel.swift:67-74 | The hint names a pace exactly when a pace is typed |
| ConverterViewModel.ConvertedInput | pace-to-mph/ViewModels/ConverterViewModel.swift:112-133 | Blank text is kept; any other text comes out as text the entry field accepts (digits, points, and colons only for a pace) |
| ConverterViewModel.RecordedConversion | pace-to-mph/ViewModels/ConverterViewModel.swift:92-101 | Nothing shown leaves the records and the next identifier as they were; otherwise the newest record holds the typed text and the shown result, and the next identifier moves on by one |
| ConverterViewModel.ConverterViewModel.constructor | pace-to-mph/ViewModels/ConverterViewModel.swift:32-38 | The stored direction and unit when their raw text names one, pace to speed and miles otherwise; nothing typed or recorded |
| ConverterViewModel.ConverterViewModel.Result | pace-to-mph/ViewModels/ConverterViewModel.swift:42-44 | The result is empty exactly when the trimmed input is blank or does not parse, and is only digits, points and colons |
| ConverterViewModel.ConverterViewModel.HandleInput | pace-to-mph/ViewModels/ConverterViewModel.swift:82-84 | The typed text becomes the sanitized value; nothing else changes |
| ConverterViewModel.ConverterViewModel.RecordCurrentConversion | pace-to-mph/ViewModels/ConverterViewModel.swift:92-101 | The records and the next identifier become `RecordedConversion` of the old ones: the shown conversion is added, and the identifier advances, unless nothing is shown |
| ConverterViewModel.ConverterViewModel.SwitchDirection | pace-to-mph/ViewModels/ConverterViewModel.swift:86-90 | No-op for the current direction; otherwise records with the old suffixes, switches, and (the `didSet` observer) clears the input; the history's records and next identifier are stated in both branches |
| ConverterViewModel.ConverterViewModel.SwitchUnit | pace-to-mph/ViewModels/ConverterViewModel.swift:103-108 | No-op for the current unit; otherwise records with the old suffixes, keeps the old unit and (the `didSet` observer) rewrites the input in the new unit; the history's records and next identifier are stated in both branches |
| ConverterViewModel.ConverterViewModel.ConvertInputForUnitChange | pace-to-mph/ViewModels/ConverterViewModel.swift:112-133 | The typed text becomes its rewrite in the new unit; nothing else changes |
| ConverterViewModel.SuffixesSwap | pace-to-mph/ViewModels/ConverterViewModel.swift:53-65 | The suffixes trade places between directions, and the typed and shown quantities always carry different labels |
| ConverterViewModel.NothingShownNothingRecorded | pace-to-mph/ViewModels/ConverterViewModel.swift:92-94 | With nothing shown, nothing is recorded and no identifier is used |
| ConverterViewModel.RecordsShownConversion | pace-to-mph/ViewModels/ConverterViewModel.swift:92-101 | A shown conversion becomes the newest record with the input, result and both suffixes, and the next identifier moves on by one |
| ConverterViewModel.ConvertedInputUnreadable | pace-to-mph/ViewModels/ConverterViewModel.swift:113-127 | Blank input survives a unit change; unreadable input is cleared |
| ConverterViewModel.UnitChangeKeepsPace | pace-to-mph/ViewModels/ConverterViewModel.swift:117-123 | A typed pace reads back after a unit change as the converted pace to the nearest second |
| ConverterViewModel.UnitChangeKeepsSpeed | pace-to-mph/ViewModels/ConverterViewModel.swift:125-131 | A typed speed reads back after a unit change as the converted speed to the nearest hundredth |
| ConverterViewModel.ConvertedPaceInput | pace-to-mph/ViewModels/ConverterViewModel.swift:117-123 | A typed pace is rewritten as the text of the converted pace |
| ConverterViewModel.PlaceholderExamples | pace-to-mph/ViewModels/ConverterViewModel.swift:46-51 | "mm:ss" for a pace, "10.00" in miles and "16.00" in kilometres for a speed |
| ConverterViewModel.PaceHelperTextExample | pace-to-mph/ViewModels/ConverterViewModel.swift:69-70 | "Enter pace per mile to get speed" |
| ConverterViewModel.SpeedHelperTextExample | pace-to-mph/ViewModels/ConverterViewModel.swift:71-72 | "Enter speed in KPH to get pace" |

## Left out

- Persistence:
  - the `save`/`load` methods of both stores (JSON in `UserDefaults`);
  - the `@AppStorage` mirrors `storedDirection` and `storedUnit`.

  Both stores start empty. The view model's constructor takes the two stored raw strings as parameters, and
  writing them back is not modelled.
- `UUID()` is replaced by a per-store counter `nextId`, which makes identifiers distinct by construction.
  `ConversionRecord.date` (`Date()`) is dropped.
- IEEE-754 behaviour is not modelled: `isFinite`, infinities, binary rounding error, and the trap when
  `Int(round(x))` overflows. `Double` is `real`.
- RaceCalculator.ParseDuration: each piece is refused beyond the 64-bit range, as `Int(String)` does, but the
  products `ints[0] * 60` and `ints[0] * 3600` are unbounded. The trap when such a product overflows is not
  modelled.
- `Double(String)` is modelled only on digits with at most one point and at least one digit. Only that can reach it
  after the character filters. Exponents, signs, "inf" and "nan" are not modelled. `Int(String)` takes an optional
  sign and decimal digits, and refuses a value outside the 64-bit range. `Character.isNumber` is the ASCII digits.
- ConversionEngine.FormatSpeed: `%.2f` is modelled as rounding to hundredths with halfway cases away from zero.
  The C library rounds the binary value, so exact ties can differ.
- ConversionEngine.PaceToSpeed and ConversionEngine.SpeedToPace require a non-zero argument. Swift would return
  infinity there, and every caller passes a value already checked to be positive.
- `directionLabel` in the view model only forwards `ConversionDirection.label`. It has no member of its own.
- The `didSet` observers are folded into the methods that assign the fields: `SwitchDirection` and `SwitchUnit`.
  Direct assignment to `direction` or `unit` from outside the view model is not modelled.
- SwiftUI views, the widget, the App Intents and the UI tests are not part of this model.
- RaceCalculator.WholeSplitsDescend states strict descent of the reported whole-unit seconds only for a drop of
  at least one second. A smaller drop can round two splits to the same second. For any positive drop, the
  unrounded paces strictly descend (`RaceCalculator.SplitPaceDrops`).
- RaceCalculator.ReportedTotal bounds the rounded schedule within half a second per split of the target. It
  assumes no split is clamped to one second, since the clamp can add time.
