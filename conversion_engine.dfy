/**
 * The conversion engine: reading pace and speed text, writing pace ("M:SS") and speed
 * ("7.50") text, the pace/speed reciprocal, rescaling between miles and kilometres, the
 * character filter for the entry field, and the whole text-to-text conversion.
 */
module ConversionEngine {
  import opened Wrappers
  import opened Numeric
  import opened Text

  /** Which quantity the user types and which one is shown. */
  datatype ConversionDirection = PaceToSpeed | SpeedToPace {

    /** The raw value, stored as the preferred direction; it starts with the typed quantity. */
    function RawValue(): (r: string)
      ensures r != [] && (r[0] == 'p' <==> this == ConversionDirection.PaceToSpeed)
    {
      match this
      case PaceToSpeed => "paceToSpeed"
      case SpeedToPace => "speedToPace"
    }

    /** The picker label, which names the typed quantity first. */
    function Label(): (r: string)
      ensures r != [] && (r[0] == 'P' <==> this == ConversionDirection.PaceToSpeed)
    {
      match this
      case PaceToSpeed => "Pace → Speed"
      case SpeedToPace => "Speed → Pace"
    }

    /** Whether the entry field takes a colon: only pace is typed as "M:SS". */
    predicate AcceptsColon() {
      this == ConversionDirection.PaceToSpeed
    }
  }

  /** `ConversionDirection(rawValue:)`: the direction whose raw value is `s`, if any. */
  function DirectionFromRaw(s: string): (r: Option<ConversionDirection>)
    ensures r.Some? <==> s == "paceToSpeed" || s == "speedToPace"
    ensures r.Some? ==> r.value.RawValue() == s
  {
    if s == "paceToSpeed" then Some(ConversionDirection.PaceToSpeed)
    else if s == "speedToPace" then Some(ConversionDirection.SpeedToPace)
    else None
  }

  /** The distance unit: per mile and miles per hour, or per kilometre and kilometres per hour. */
  datatype SpeedUnit = Mph | Kph {

    /** The raw value, stored as the preferred unit; it starts with the unit's letter. */
    function RawValue(): (r: string)
      ensures r != [] && (r[0] == 'm' <==> this == Mph)
    {
      match this
      case Mph => "mph"
      case Kph => "kph"
    }

    /** `rawValue.uppercased()`. */
    function Label(): (r: string)
      ensures r == Uppercased(RawValue())
    {
      match this
      case Mph => "MPH"
      case Kph => "KPH"
    }

    /** The suffix of a pace: a slash and the unit, "per mile" or "per kilometre". */
    function PaceLabel(): (r: string)
      ensures |r| == 3 && r[0] == '/'
    {
      match this
      case Mph => "/mi"
      case Kph => "/km"
    }

    /** The suffix of a speed, which ends in the "per hour" H. */
    function SpeedLabel(): (r: string)
      ensures |r| >= 3 && r[|r| - 1] == 'H' && '/' !in r[..1]
    {
      match this
      case Mph => "MPH"
      case Kph => "KM/H"
    }
  }

  /** `SpeedUnit(rawValue:)`: the unit whose raw value is `s`, if any. */
  function UnitFromRaw(s: string): (r: Option<SpeedUnit>)
    ensures r.Some? <==> s == "mph" || s == "kph"
    ensures r.Some? ==> r.value.RawValue() == s
  {
    if s == "mph" then Some(Mph)
    else if s == "kph" then Some(Kph)
    else None
  }

  /** The raw values are read back by the `rawValue` initialisers: a stored preference restores what was stored. */
  lemma RawValueRoundTrip(d: ConversionDirection, u: SpeedUnit)
    ensures DirectionFromRaw(d.RawValue()) == Some(d)
    ensures UnitFromRaw(u.RawValue()) == Some(u)
  {
  }

  /** The suffixes shown beside a pace and beside a speed differ in either unit, and between the units. */
  lemma LabelsDistinct(u: SpeedUnit, v: SpeedUnit)
    ensures u.PaceLabel() != v.SpeedLabel()
    ensures u.PaceLabel() == v.PaceLabel() <==> u == v
    ensures u.SpeedLabel() == v.SpeedLabel() <==> u == v
  {
  }

  /** Kilometres in one mile. */
  const KmPerMile: real := 1.60934

  // ---------------------------------------------------------------------------
  // Parsing

  /** `Double(segment)` with the checks `parsePace` puts on a lone segment: a number above zero. */
  function PositiveDecimal(s: string): (r: Option<real>)
    ensures r.Some? <==> ParseDecimal(s).Some? && ParseDecimal(s).value > 0.0
    ensures r.Some? ==> r == ParseDecimal(s)
  {
    match ParseDecimal(s)
    case Some(d) => if d > 0.0 then Some(d) else None
    case None => None
  }

  /**
   * `parsePace`: keep the digits, colons and points of the trimmed text; a single segment is a
   * decimal number of minutes, two segments around the first colon are minutes and seconds
   * (the seconds are not range-checked), and the pace must come out above zero.
   */
  function ParsePace(value: string): (r: Option<real>)
    ensures r.Some? ==> r.value > 0.0 && value != []
  {
    var normalized := FilterNumeric(Trim(value), true);
    if normalized == [] then None
    else ReadPaceSegments(SplitOnce(normalized, ':'))
  }

  /** What `parsePace` makes of the segments around the first colon. */
  function ReadPaceSegments(segments: seq<string>): (r: Option<real>)
    ensures r.Some? ==> r.value > 0.0
    ensures r.Some? ==> |segments| == 1 || |segments| == 2
  {
    if |segments| == 1 then PositiveDecimal(segments[0])
    else if |segments| == 2 then
      match (ParseDecimal(segments[0]), ParseDecimal(segments[1]))
      case (Some(minutes), Some(seconds)) =>
        var total := minutes + seconds / 60.0;
        if total > 0.0 then Some(total) else None
      case _ => None
    else None
  }

  /** `parseSpeed`: keep the digits and points of the trimmed text, which must read as a number above zero. */
  function ParseSpeed(value: string): (r: Option<real>)
    ensures r.Some? ==> r.value > 0.0 && value != []
  {
    var normalized := FilterNumeric(Trim(value), false);
    if normalized == [] then None else PositiveDecimal(normalized)
  }

  /** Text made only of the characters an entry field keeps is left alone by the trimming and the filter. */
  lemma NormalizedText(s: string, colon: bool)
    requires AllNumeric(s, colon)
    ensures FilterNumeric(Trim(s), colon) == s
  {
    AllNumericNoWhitespace(s, colon);
    TrimNoWhitespace(s);
    FilterNumericKeeps(s, colon);
  }

  /** A bare number of digits reads as that many minutes per unit, unless it is zero. */
  lemma {:induction false} ParsePaceWhole(a: string)
    requires a != [] && AllDigits(a)
    ensures ParsePace(a) == if DigitsValue(a) > 0 then Some(DigitsValue(a) as real) else None
  {
    NormalizedText(a, true);
    DigitsExclude(a, ':');
    SplitOnceSingle(a, ':');
    ParseDecimalDigits(a);
  }

  /** `minutes:seconds` digit text survives the filter and splits into its two parts. */
  lemma {:induction false} ColonSegments(a: string, b: string)
    requires a != [] && AllDigits(a) && b != [] && AllDigits(b)
    ensures Trim(a + ":" + b) == a + ":" + b
    ensures FilterNumeric(Trim(a + ":" + b), true) == a + ":" + b
    ensures SplitOnce(a + ":" + b, ':') == [a, b]
  {
    DigitsNumeric(a, true);
    DigitsNumeric(b, true);
    AllNumericConcat(a, ":", true);
    AllNumericConcat(a + ":", b, true);
    NumericTrim(a + ":" + b, true);
    NormalizedText(a + ":" + b, true);
    DigitsExclude(a, ':');
    assert a + ":" + b == a + [':'] + b;
    SplitOncePair(a, ':', b);
  }

  /** `minutes:seconds` digit text reads as minutes plus seconds/60, unless that is zero. */
  lemma {:induction false} ParsePaceColon(a: string, b: string, v: real)
    requires a != [] && AllDigits(a) && b != [] && AllDigits(b)
    requires v == DigitsValue(a) as real + DigitsValue(b) as real / 60.0
    ensures ParsePace(a + ":" + b) == if v > 0.0 then Some(v) else None
  {
    ColonSegments(a, b);
    ReadPacePair(SplitOnce(a + ":" + b, ':'), a, b, v);
  }

  /** Two digit segments read as minutes plus seconds/60, unless that is zero. */
  lemma {:induction false} ReadPacePair(segments: seq<string>, a: string, b: string, v: real)
    requires a != [] && AllDigits(a) && b != [] && AllDigits(b) && segments == [a, b]
    requires v == DigitsValue(a) as real + DigitsValue(b) as real / 60.0
    ensures ReadPaceSegments(segments) == if v > 0.0 then Some(v) else None
  {
    ParseDecimalDigits(a);
    ParseDecimalDigits(b);
  }

  /** The pace example "8:30": eight and a half minutes. */
  lemma ParsePaceHalfExample()
    ensures ParsePace("8" + ":" + "30") == Some(8.5)
  {
    ParsePaceColon("8", "30", 8.5);
  }

  /** The pace example "7:00": seven minutes. */
  lemma ParsePaceWholeExample()
    ensures ParsePace("7" + ":" + "00") == Some(7.0)
  {
    ParsePaceColon("7", "00", 7.0);
  }

  /** The pace example "0:00": refused, since a pace must be above zero. */
  lemma ParsePaceZeroExample()
    ensures ParsePace("0" + ":" + "00") == None
  {
    ParsePaceColon("0", "00", 0.0);
  }

  /** `whole.fraction` digit text survives the trimming and the filter of either field. */
  lemma {:induction false} PointNormalized(a: string, b: string, colon: bool)
    requires AllDigits(a) && AllDigits(b)
    ensures FilterNumeric(Trim(a + "." + b), colon) == a + "." + b
  {
    DigitsNumeric(a, colon);
    DigitsNumeric(b, colon);
    AllNumericConcat(a, ".", colon);
    AllNumericConcat(a + ".", b, colon);
    NormalizedText(a + "." + b, colon);
  }

  /** `whole.fraction` digit text has no colon to split at. */
  lemma PointSingle(a: string, b: string)
    requires AllDigits(a) && AllDigits(b)
    ensures SplitOnce(a + "." + b, ':') == [a + "." + b]
  {
    DigitsExclude(a, ':');
    DigitsExclude(b, ':');
    ExcludeJoin(a, '.', b, ':');
    assert a + "." + b == a + ['.'] + b;
    SplitOnceSingle(a + "." + b, ':');
  }

  /** `whole.fraction` digit text reads as a decimal number of minutes, unless that is zero. */
  lemma {:induction false} ParsePacePoint(a: string, b: string, v: real)
    requires a != [] && AllDigits(a) && AllDigits(b)
    requires v == DigitsValue(a) as real + DigitsValue(b) as real / Pow10(|b|) as real
    ensures ParsePace(a + "." + b) == if v > 0.0 then Some(v) else None
  {
    PointNormalized(a, b, true);
    PointSingle(a, b);
    ParseDecimalPointValue(a, b, v);
    ReadPaceSingle(SplitOnce(a + "." + b, ':'), a + "." + b, v);
  }

  /** A lone segment reads as the decimal number it spells, unless that is not above zero. */
  lemma ReadPaceSingle(segments: seq<string>, t: string, v: real)
    requires segments == [t] && ParseDecimal(t) == Some(v)
    ensures ReadPaceSegments(segments) == if v > 0.0 then Some(v) else None
  {
  }

  /** The decimal pace example: "8.5" is 8.5. */
  lemma ParsePaceDecimalExample()
    ensures ParsePace("8" + "." + "5") == Some(8.5)
  {
    ParsePacePoint("8", "5", 8.5);
  }

  /** `:` followed by digit text survives the filter, and the split skips the leading colon. */
  lemma LeadingColonSegments(a: string)
    requires a != [] && AllDigits(a)
    ensures FilterNumeric(Trim(":" + a), true) == ":" + a
    ensures SplitOnce(":" + a, ':') == [a]
  {
    LeadingColonNormalized(a);
    LeadingColonSplit(a);
  }

  /** `:` followed by digit text survives the trimming and the filter. */
  lemma LeadingColonNormalized(a: string)
    requires a != [] && AllDigits(a)
    ensures FilterNumeric(Trim(":" + a), true) == ":" + a
  {
    DigitsNumeric(a, true);
    AllNumericConcat(":", a, true);
    NormalizedText(":" + a, true);
  }

  /** `:` followed by digit text splits into the digits alone. */
  lemma LeadingColonSplit(a: string)
    requires a != [] && AllDigits(a)
    ensures SplitOnce(":" + a, ':') == [a]
  {
    DigitsExclude(a, ':');
    SplitOnceSingle(a, ':');
    assert ":" + a == [':'] + a;
    SplitOnceLeading(a, ':');
  }

  /** A leading colon is skipped: ":" followed by digits reads as that many minutes, as the digits alone do. */
  lemma {:induction false} ParsePaceLeadingColon(a: string, v: real)
    requires a != [] && AllDigits(a) && v == DigitsValue(a) as real
    ensures ParsePace(":" + a) == if v > 0.0 then Some(v) else None
  {
    LeadingColonSegments(a);
    ParseDecimalDigits(a);
    ReadPaceSingle(SplitOnce(":" + a, ':'), a, v);
  }

  /** The leading-colon example: ":30" is thirty minutes, not thirty seconds. */
  lemma ParsePaceLeadingColonExample()
    ensures ParsePace(":" + "30") == Some(30.0)
  {
    assert "30"[..1] == "3";
    assert DigitsValue("30") == 30;
    ParsePaceLeadingColon("30", 30.0);
  }

  /** Digit text, two colons and digit text survive the filter; the split keeps the second colon in the seconds. */
  lemma {:induction false} DoubleColonSegments(a: string, b: string)
    requires a != [] && AllDigits(a) && AllDigits(b)
    ensures FilterNumeric(Trim(a + ":" + (":" + b)), true) == a + ":" + (":" + b)
    ensures SplitOnce(a + ":" + (":" + b), ':') == [a, ":" + b]
  {
    var rest := ":" + b;
    DigitsNumeric(a, true);
    DigitsNumeric(b, true);
    AllNumericConcat(":", b, true);
    AllNumericConcat(a, ":", true);
    AllNumericConcat(a + ":", rest, true);
    NormalizedText(a + ":" + rest, true);
    DigitsExclude(a, ':');
    assert a + ":" + rest == a + [':'] + rest;
    SplitOncePair(a, ':', rest);
  }

  /** A second colon stays in the seconds segment, which then does not read as a number: the pace is refused. */
  lemma {:induction false} ParsePaceDoubleColon(a: string, b: string)
    requires a != [] && AllDigits(a) && AllDigits(b)
    ensures ParsePace(a + ":" + (":" + b)) == None
  {
    DoubleColonSegments(a, b);
    ParseDecimalColon(":" + b);
  }

  /** The double-colon example: "8::30" is refused. */
  lemma ParsePaceDoubleColonExample()
    ensures ParsePace("8" + ":" + (":" + "30")) == None
  {
    ParsePaceDoubleColon("8", "30");
  }

  /** Text without a digit, a point or a colon is refused as a pace. */
  lemma ParsePaceNothingNumeric(value: string)
    requires forall c :: c in value ==> !IsNumericChar(c, true)
    ensures ParsePace(value) == None
  {
    TrimWithin(value);
    FilterNumericNone(Trim(value), true);
  }

  /** Text without a digit or a point is refused as a speed. */
  lemma ParseSpeedNothingNumeric(value: string)
    requires forall c :: c in value ==> !IsNumericChar(c, false)
    ensures ParseSpeed(value) == None
  {
    TrimWithin(value);
    FilterNumericNone(Trim(value), false);
  }

  /** The refused pace example: empty text. */
  lemma ParsePaceEmptyExample()
    ensures ParsePace("") == None
  {
    assert Trim("") == [];
  }

  /** The refused pace example: letters only. */
  lemma ParsePaceLettersExample()
    ensures ParsePace("abc") == None
  {
    ParsePaceNothingNumeric("abc");
  }

  /** `whole.fraction` digit text reads as a decimal speed, unless that is zero. */
  lemma {:induction false} ParseSpeedPoint(a: string, b: string, v: real)
    requires a != [] && AllDigits(a) && AllDigits(b)
    requires v == DigitsValue(a) as real + DigitsValue(b) as real / Pow10(|b|) as real
    ensures ParseSpeed(a + "." + b) == if v > 0.0 then Some(v) else None
  {
    PointNormalized(a, b, false);
    ParseDecimalPointValue(a, b, v);
    ParseSpeedText(a + "." + b, v);
  }

  /** Text that the trimming and the filter leave alone and that reads as `v` is a speed exactly when `v` is above zero. */
  lemma ParseSpeedText(t: string, v: real)
    requires FilterNumeric(Trim(t), false) == t && ParseDecimal(t) == Some(v)
    ensures ParseSpeed(t) == if v > 0.0 then Some(v) else None
  {
    PositiveDecimalOf(t, v);
  }

  /** Text that reads as a decimal number is a positive decimal exactly when that number is above zero. */
  lemma PositiveDecimalOf(t: string, v: real)
    requires ParseDecimal(t) == Some(v)
    ensures PositiveDecimal(t) == if v > 0.0 then Some(v) else None
  {
  }

  /** The decimal speed example: "10.5" is 10.5. */
  lemma ParseSpeedDecimalExample()
    ensures ParseSpeed("10" + "." + "5") == Some(10.5)
  {
    ParseSpeedPoint("10", "5", 10.5);
  }

  /** The whole speed example: "6" is 6, while "0" is refused. */
  lemma ParseSpeedWholeExample()
    ensures ParseSpeed("6") == Some(6.0) && ParseSpeed("0") == None
  {
    ParseDecimalDigits("6");
    ParseSpeedClean("6", 6.0);
    ParseDecimalDigits("0");
    ParseSpeedClean("0", 0.0);
  }

  /** The refused speed example: empty text. */
  lemma ParseSpeedEmptyExample()
    ensures ParseSpeed("") == None
  {
    assert Trim("") == [];
  }

  /** The refused speed example: letters only. */
  lemma ParseSpeedLettersExample()
    ensures ParseSpeed("abc") == None
  {
    ParseSpeedNothingNumeric("abc");
  }

  // ---------------------------------------------------------------------------
  // Formatting

  /**
   * A count of hundredths written with two decimals: "7.50" for 750. The text is digits and
   * one point, with exactly two digits after it.
   */
  function Hundredths(cents: nat): (r: string)
    ensures AllNumeric(r, false) && |r| >= 4
  {
    var a, b := NatToString(cents / 100), TwoDigits(cents % 100);
    DigitsNumeric(a, false);
    DigitsNumeric(b, false);
    AllNumericConcat(a, ".", false);
    AllNumericConcat(a + ".", b, false);
    a + "." + b
  }

  /**
   * `String(format: "%.2f", value)`: the value rounded to hundredths, with a minus sign
   * in front of a negative value.
   */
  function FormatSpeed(value: real): (r: string)
    ensures |r| >= 4
  {
    if value < 0.0 then "-" + Hundredths(Round(-value * 100.0)) else Hundredths(Round(value * 100.0))
  }

  /** The speed examples: 10 is "10.00" and 7.567 is "7.57". */
  lemma FormatSpeedExamples()
    ensures FormatSpeed(10.0) == "10.00"
    ensures FormatSpeed(7.567) == "7.57"
  {
    assert Round(1000.0) == 1000;
    assert Round(756.7) == 757;
  }

  /** A count of hundredths written with two decimals reads back as its value. */
  lemma {:induction false} HundredthsValue(cents: nat)
    ensures ParseDecimal(Hundredths(cents)) == Some(cents as real / 100.0)
  {
    var a, b := NatToString(cents / 100), TwoDigits(cents % 100);
    CentsSplit(cents);
    assert Pow10(2) == 100;
    assert Hundredths(cents) == a + "." + b;
    ParseDecimalPointValue(a, b, cents as real / 100.0);
  }

  /** A count of hundredths is its whole part plus its remainder in hundredths. */
  lemma CentsSplit(cents: nat)
    ensures cents as real / 100.0 == (cents / 100) as real + (cents % 100) as real / 100.0
  {
    assert cents == (cents / 100) * 100 + cents % 100;
  }

  /** Clean speed text reads as the number it denotes, provided that is above zero. */
  lemma ParseSpeedClean(s: string, v: real)
    requires s != [] && AllNumeric(s, false) && ParseDecimal(s) == Some(v)
    ensures ParseSpeed(s) == if v > 0.0 then Some(v) else None
  {
    NormalizedText(s, false);
    ParseSpeedText(s, v);
  }

  /** Rounding to a whole number of hundredths moves a value by at most half a hundredth. */
  lemma RoundHundredths(v: real, cents: int)
    requires v >= 0.0 && cents == Round(v * 100.0)
    ensures cents >= 0
    ensures Abs(cents as real / 100.0 - v) <= 0.005
  {
    assert v * 100.0 - 0.5 < cents as real <= v * 100.0 + 0.5;
    assert cents as real / 100.0 - v == (cents as real - v * 100.0) / 100.0;
  }

  /** A speed that is not negative is written as its count of hundredths. */
  lemma FormatSpeedHundredths(v: real, cents: nat)
    requires v >= 0.0 && cents == Round(v * 100.0)
    ensures FormatSpeed(v) == Hundredths(cents)
  {
  }

  /** Hundredths text reads back as a speed, unless it is zero. */
  lemma HundredthsSpeed(text: string, cents: nat)
    requires text == Hundredths(cents)
    ensures ParseSpeed(text) == if cents > 0 then Some(cents as real / 100.0) else None
  {
    HundredthsValue(cents);
    ParseSpeedClean(text, cents as real / 100.0);
  }

  /**
   * A speed that is not negative, written out and read back as a speed, is the speed to
   * the nearest hundredth (`cents` of them); it is refused only when that rounds to zero.
   */
  lemma {:induction false} ParseFormatSpeed(v: real, cents: int)
    requires v >= 0.0 && cents == Round(v * 100.0)
    ensures ParseSpeed(FormatSpeed(v)) == if cents > 0 then Some(cents as real / 100.0) else None
    ensures Abs(cents as real / 100.0 - v) <= 0.005
  {
    RoundHundredths(v, cents);
    FormatSpeedHundredths(v, cents);
    HundredthsSpeed(FormatSpeed(v), cents);
  }

  /** `String(format: "%02d")` of the seconds after a carry: the seconds field is always below 60. */
  function PaceFields(totalSeconds: nat): (r: (nat, nat))
    ensures r.1 < 60 && r.0 * 60 + r.1 == totalSeconds
  {
    var minutes := totalSeconds / 60;
    var seconds := totalSeconds % 60;
    // The carry `formatPace` applies when rounding gives 60 seconds; `% 60` never does.
    var (m, s) := if seconds == 60 then (minutes + 1, 0) else (minutes, seconds);
    (m, s)
  }

  /** The "M:SS" text of a whole number of seconds, after the carry. */
  function PaceText(totalSeconds: nat): (r: string)
    ensures |r| >= 4
  {
    var fields := PaceFields(totalSeconds);
    NatToString(fields.0) + ":" + TwoDigits(fields.1)
  }

  /**
   * `formatPace`: nothing for a pace that is not above zero; otherwise the pace rounded to
   * whole seconds, written "M:SS".
   */
  function FormatPace(minutesPerUnit: real): (r: Option<string>)
    ensures r.Some? <==> minutesPerUnit > 0.0
  {
    if minutesPerUnit <= 0.0 then None
    else
      var total: nat := Round(minutesPerUnit * 60.0);
      Some(PaceText(total))
  }

  /** "M:SS" text read back as a pace is the number of seconds over 60, refused only at zero. */
  lemma {:induction false} PaceTextReads(totalSeconds: nat)
    ensures ParsePace(PaceText(totalSeconds))
         == if totalSeconds > 0 then Some(totalSeconds as real / 60.0) else None
  {
    var fields := PaceFields(totalSeconds);
    var a, b := NatToString(fields.0), TwoDigits(fields.1);
    assert PaceText(totalSeconds) == a + ":" + b;
    MinutesAndSeconds(fields.0, fields.1, totalSeconds);
    ParsePaceSeconds(a, b, totalSeconds);
  }

  /** `minutes:seconds` digit text reads as the whole number of seconds over 60, unless that is zero. */
  lemma {:induction false} ParsePaceSeconds(a: string, b: string, totalSeconds: nat)
    requires a != [] && AllDigits(a) && b != [] && AllDigits(b)
    requires DigitsValue(a) as real + DigitsValue(b) as real / 60.0 == totalSeconds as real / 60.0
    ensures ParsePace(a + ":" + b) == if totalSeconds > 0 then Some(totalSeconds as real / 60.0) else None
  {
    var v := totalSeconds as real / 60.0;
    ParsePaceColon(a, b, v);
    if totalSeconds > 0 {
      assert v > 0.0;
    } else {
      assert v == 0.0;
    }
  }

  /** Minutes and seconds as a real number of minutes. */
  lemma MinutesAndSeconds(minutes: nat, seconds: nat, totalSeconds: nat)
    requires minutes * 60 + seconds == totalSeconds
    ensures minutes as real + seconds as real / 60.0 == totalSeconds as real / 60.0
  {
  }

  /** The seconds of a positive pace: not negative, and within half a second of the pace. */
  lemma RoundSeconds(p: real, total: int)
    requires p > 0.0 && total == Round(p * 60.0)
    ensures total >= 0
    ensures Abs(total as real / 60.0 - p) <= 1.0 / 120.0
  {
  }

  /**
   * A pace written out and read back is the pace to the nearest second (`total` seconds);
   * it is refused only when that rounds to zero.
   */
  lemma {:induction false} ParseFormatPace(p: real, total: int)
    requires p > 0.0 && total == Round(p * 60.0)
    ensures FormatPace(p).Some?
    ensures ParsePace(FormatPace(p).value) == if total > 0 then Some(total as real / 60.0) else None
    ensures Abs(total as real / 60.0 - p) <= 1.0 / 120.0
  {
    RoundSeconds(p, total);
    assert FormatPace(p) == Some(PaceText(total));
    PaceTextReads(total);
  }

  /** The pace example 8.5: "8:30". */
  lemma FormatPaceHalfExample()
    ensures FormatPace(8.5) == Some("8:30")
  {
    assert Round(8.5 * 60.0) == 510;
    assert PaceFields(510) == (8, 30);
    assert NatToString(8) == "8";
    assert TwoDigits(30) == "30";
    assert PaceText(510) == "8:30";
  }

  /** The pace example 7: "7:00". */
  lemma FormatPaceWholeExample()
    ensures FormatPace(7.0) == Some("7:00")
  {
    assert Round(7.0 * 60.0) == 420;
    assert PaceFields(420) == (7, 0);
    assert NatToString(7) == "7";
    assert TwoDigits(0) == "00";
    assert PaceText(420) == "7:00";
  }

  /** The pace example 6.25: "6:15"; zero and negative paces have no text. */
  lemma FormatPaceQuarterExample()
    ensures FormatPace(6.25) == Some("6:15")
    ensures FormatPace(0.0) == None && FormatPace(-1.0) == None
  {
    assert Round(6.25 * 60.0) == 375;
    assert PaceFields(375) == (6, 15);
    assert NatToString(6) == "6";
    assert TwoDigits(15) == "15";
    assert PaceText(375) == "6:15";
  }

  // ---------------------------------------------------------------------------
  // Conversion

  /** `paceToSpeed`: minutes per unit to units per hour. */
  function PaceToSpeed(paceMinutes: real): (r: real)
    requires paceMinutes != 0.0
    ensures r * paceMinutes == 60.0
    ensures paceMinutes > 0.0 ==> r > 0.0
  {
    60.0 / paceMinutes
  }

  /** `speedToPace`: units per hour to minutes per unit. */
  function SpeedToPace(speed: real): (r: real)
    requires speed != 0.0
    ensures r * speed == 60.0
    ensures speed > 0.0 ==> r > 0.0
  {
    60.0 / speed
  }

  /** Pace and speed are reciprocal: going to speed and back gives the pace again, and 6:00 is 10 per hour. */
  lemma PaceSpeedRoundTrip(p: real)
    requires p != 0.0
    ensures PaceToSpeed(p) != 0.0 && SpeedToPace(PaceToSpeed(p)) == p
    ensures p > 0.0 ==> PaceToSpeed(p) > 0.0
    ensures PaceToSpeed(6.0) == 10.0 && SpeedToPace(10.0) == 6.0
  {
    var s := PaceToSpeed(p);
    assert s * p == 60.0;
    assert SpeedToPace(s) * s == 60.0;
  }

  /** `convertPaceBetweenUnits`: a pace per mile becomes a smaller pace per kilometre, and back. */
  function ConvertPace(paceMinutes: real, from: SpeedUnit, to: SpeedUnit): (r: real)
    ensures from == to ==> r == paceMinutes
    ensures from == Mph && to == Kph ==> r * KmPerMile == paceMinutes
    ensures from == Kph && to == Mph ==> r == paceMinutes * KmPerMile
    ensures paceMinutes > 0.0 ==> r > 0.0
  {
    if from == to then paceMinutes
    else if from == Mph then paceMinutes / KmPerMile
    else paceMinutes * KmPerMile
  }

  /** `convertSpeedBetweenUnits`: miles per hour become more kilometres per hour, and back. */
  function ConvertSpeed(speed: real, from: SpeedUnit, to: SpeedUnit): (r: real)
    ensures from == to ==> r == speed
    ensures from == Mph && to == Kph ==> r == speed * KmPerMile
    ensures from == Kph && to == Mph ==> r * KmPerMile == speed
    ensures speed > 0.0 ==> r > 0.0
  {
    if from == to then speed
    else if from == Mph then speed * KmPerMile
    else speed / KmPerMile
  }

  /** Converting a pace to another unit and back gives it again; so does a speed. */
  lemma ConvertRoundTrip(v: real, a: SpeedUnit, b: SpeedUnit)
    ensures ConvertPace(ConvertPace(v, a, b), b, a) == v
    ensures ConvertSpeed(ConvertSpeed(v, a, b), b, a) == v
  {
  }

  /** A positive pace stays positive, and per kilometre it is smaller than per mile; speeds go the other way. */
  lemma ConvertDirection(v: real)
    requires v > 0.0
    ensures 0.0 < ConvertPace(v, Mph, Kph) < v < ConvertPace(v, Kph, Mph)
    ensures 0.0 < ConvertSpeed(v, Kph, Mph) < v < ConvertSpeed(v, Mph, Kph)
  {
  }

  /** Pace and speed are rescaled in opposite directions: converting a pace gives the pace of the converted speed. */
  lemma ConvertPaceMatchesSpeed(p: real, a: SpeedUnit, b: SpeedUnit)
    requires p > 0.0
    ensures ConvertPace(p, a, b) > 0.0
    ensures PaceToSpeed(ConvertPace(p, a, b)) == ConvertSpeed(PaceToSpeed(p), a, b)
  {
    var q := ConvertPace(p, a, b);
    var s := PaceToSpeed(p);
    assert s * p == 60.0;
    assert PaceToSpeed(q) * q == 60.0;
  }

  /** The unit examples: 10 mph is 16.0934 km/h and back, and 8:00 per mile is under 8:00 per kilometre. */
  lemma ConvertExamples()
    ensures ConvertSpeed(10.0, Mph, Kph) == 16.0934
    ensures ConvertSpeed(16.0934, Kph, Mph) == 10.0
    ensures ConvertPace(8.0, Mph, Kph) < 8.0
    ensures ConvertSpeed(10.0, Mph, Mph) == 10.0 && ConvertPace(8.0, Kph, Kph) == 8.0
  {
  }

  // ---------------------------------------------------------------------------
  // Input sanitization

  /** `sanitizeInput`: the digits, points and (for a pace) colons of the text, in order. */
  function SanitizeInput(direction: ConversionDirection, value: string): (r: string)
    ensures AllNumeric(r, direction.AcceptsColon())
    ensures direction == ConversionDirection.SpeedToPace ==> ':' !in r
  {
    FilterNumeric(value, direction.AcceptsColon())
  }

  /**
   * Sanitizing keeps exactly the allowed characters: each as often as it occurs, nothing
   * else, and in their order (sanitizing a concatenation sanitizes each part).
   */
  lemma SanitizeInputKeepsExactly(direction: ConversionDirection, value: string, rest: string, c: char)
    ensures multiset(SanitizeInput(direction, value))[c]
         == if IsNumericChar(c, direction.AcceptsColon()) then multiset(value)[c] else 0
    ensures SanitizeInput(direction, value + rest) == SanitizeInput(direction, value) + SanitizeInput(direction, rest)
  {
    FilterNumericCounts(value, direction.AcceptsColon(), c);
    FilterNumericConcat(value, rest, direction.AcceptsColon());
  }

  /** Sanitizing is idempotent, and text that is already clean is left alone. */
  lemma SanitizeInputIdempotent(direction: ConversionDirection, value: string)
    ensures SanitizeInput(direction, SanitizeInput(direction, value)) == SanitizeInput(direction, value)
    ensures AllNumeric(value, direction.AcceptsColon()) ==> SanitizeInput(direction, value) == value
  {
    FilterNumericIdempotent(value, direction.AcceptsColon());
    if AllNumeric(value, direction.AcceptsColon()) {
      FilterNumericKeeps(value, direction.AcceptsColon());
    }
  }

  /** The sanitizing example for a pace: "8:3a0" becomes "8:30". */
  lemma SanitizePaceExample()
    ensures SanitizeInput(ConversionDirection.PaceToSpeed, "8:3a0") == "8:30"
  {
  }

  /** The sanitizing example for a speed: "10.5abc" becomes "10.5". */
  lemma SanitizeSpeedExample()
    ensures SanitizeInput(ConversionDirection.SpeedToPace, "10.5abc") == "10.5"
  {
  }

  // ---------------------------------------------------------------------------
  // Full conversion

  /**
   * `convert`: the formatted speed of a typed pace, or the formatted pace of a typed speed;
   * empty when the trimmed input is blank or does not parse.
   */
  function Convert(direction: ConversionDirection, input: string): (r: string)
    ensures Trim(input) == [] ==> r == []
  {
    var trimmed := Trim(input);
    if trimmed == [] then ""
    else
      match direction
      case PaceToSpeed =>
        (match ParsePace(trimmed)
         case None => ""
         case Some(paceMinutes) => FormatSpeed(PaceToSpeed(paceMinutes)))
      case SpeedToPace =>
        (match ParseSpeed(trimmed)
         case None => ""
         case Some(speed) => FormatPace(SpeedToPace(speed)).GetOr(""))
  }

  /** The conversion is empty exactly when the trimmed input is blank or does not parse. */
  lemma ConvertEmpty(direction: ConversionDirection, input: string)
    ensures Convert(direction, input) == [] <==>
              || Trim(input) == []
              || (direction == ConversionDirection.PaceToSpeed && ParsePace(Trim(input)).None?)
              || (direction == ConversionDirection.SpeedToPace && ParseSpeed(Trim(input)).None?)
  {
    var trimmed := Trim(input);
    if trimmed == [] {
    } else if direction == ConversionDirection.PaceToSpeed {
      if ParsePace(trimmed).Some? {
        assert |FormatSpeed(PaceToSpeed(ParsePace(trimmed).value))| >= 4;
      }
    } else if ParseSpeed(trimmed).Some? {
      var v := ParseSpeed(trimmed).value;
      assert |FormatPace(SpeedToPace(v)).value| >= 4;
    }
  }

  /** The text of a whole number of seconds is digits around one colon. */
  lemma PaceTextNumeric(totalSeconds: nat)
    ensures AllNumeric(PaceText(totalSeconds), true)
  {
    var fields := PaceFields(totalSeconds);
    var a, b := NatToString(fields.0), TwoDigits(fields.1);
    DigitsNumeric(a, true);
    DigitsNumeric(b, true);
    AllNumericConcat(a, ":", true);
    AllNumericConcat(a + ":", b, true);
  }

  /** The speed text of a positive pace is digits and a point. */
  lemma SpeedOfPaceNumeric(p: real)
    requires p > 0.0
    ensures AllNumeric(FormatSpeed(PaceToSpeed(p)), true)
  {
    var v := PaceToSpeed(p);
    var cents: nat := Round(v * 100.0);
    FormatSpeedHundredths(v, cents);
  }

  /** The pace text of a positive speed is digits around a colon. */
  lemma PaceOfSpeedNumeric(v: real)
    requires v > 0.0
    ensures FormatPace(SpeedToPace(v)).Some?
    ensures AllNumeric(FormatPace(SpeedToPace(v)).value, true)
  {
    var total: nat := Round(SpeedToPace(v) * 60.0);
    assert FormatPace(SpeedToPace(v)) == Some(PaceText(total));
    PaceTextNumeric(total);
  }

  /** Whatever the input, the conversion is made of digits, points and colons only. */
  lemma ConvertNumeric(direction: ConversionDirection, input: string)
    ensures AllNumeric(Convert(direction, input), true)
  {
    var trimmed := Trim(input);
    if trimmed == [] {
    } else if direction == ConversionDirection.PaceToSpeed {
      if ParsePace(trimmed).Some? {
        var p := ParsePace(trimmed).value;
        ConvertedPace(input, p);
        SpeedOfPaceNumeric(p);
      }
    } else if ParseSpeed(trimmed).Some? {
      var v := ParseSpeed(trimmed).value;
      ConvertedSpeed(input, v);
      PaceOfSpeedNumeric(v);
    }
  }

  /** A typed pace converts to the formatted speed it stands for. */
  lemma ConvertedPace(input: string, p: real)
    requires ParsePace(Trim(input)) == Some(p)
    ensures Convert(ConversionDirection.PaceToSpeed, input) == FormatSpeed(PaceToSpeed(p))
  {
  }

  /** A typed speed converts to the formatted pace it stands for. */
  lemma ConvertedSpeed(input: string, v: real)
    requires ParseSpeed(Trim(input)) == Some(v)
    ensures Convert(ConversionDirection.SpeedToPace, input) == FormatPace(SpeedToPace(v)).value
  {
  }

  /**
   * A typed pace `p` converts to text that reads back as a speed: the speed of `p` to the
   * nearest hundredth (`cents` of them), refused only when that rounds to zero.
   */
  lemma ConvertPaceReadsBack(input: string, p: real, v: real, cents: int)
    requires ParsePace(Trim(input)) == Some(p) && v == PaceToSpeed(p) && cents == Round(v * 100.0)
    ensures ParseSpeed(Convert(ConversionDirection.PaceToSpeed, input))
         == if cents > 0 then Some(cents as real / 100.0) else None
    ensures Abs(cents as real / 100.0 - v) <= 0.005
  {
    ConvertedPace(input, p);
    ParseFormatSpeed(v, cents);
  }

  /**
   * A typed speed `v` converts to text that reads back as a pace: the pace of `v` to the
   * nearest second (`total` seconds), refused only when that rounds to zero.
   */
  lemma ConvertSpeedReadsBack(input: string, v: real, p: real, total: int)
    requires ParseSpeed(Trim(input)) == Some(v) && p == SpeedToPace(v) && total == Round(p * 60.0)
    ensures ParsePace(Convert(ConversionDirection.SpeedToPace, input))
         == if total > 0 then Some(total as real / 60.0) else None
    ensures Abs(total as real / 60.0 - p) <= 1.0 / 120.0
  {
    ConvertedSpeed(input, v);
    ParseFormatPace(p, total);
  }

  /** "6:00" reads as a pace of six minutes, and trimming leaves it alone. */
  lemma SixMinutePace()
    ensures ParsePace(Trim("6" + ":" + "00")) == Some(6.0)
  {
    ColonSegments("6", "00");
    ParsePaceColon("6", "00", 6.0);
  }

  /** The full conversion of a pace: "6:00" per unit is "10.00" per hour. */
  lemma ConvertPaceExample()
    ensures Convert(ConversionDirection.PaceToSpeed, "6" + ":" + "00") == "10.00"
  {
    SixMinutePace();
    ConvertedPace("6" + ":" + "00", 6.0);
    assert PaceToSpeed(6.0) == 10.0;
    FormatSpeedExamples();
  }

  /** "10" reads as a speed of ten per hour. */
  lemma TenPerHour()
    ensures ParseSpeed(Trim("10")) == Some(10.0)
  {
    TrimNoWhitespace("10");
    ParseDecimalDigits("10");
    ParseSpeedClean("10", 10.0);
  }

  /** The pace 6: "6:00". */
  lemma FormatPaceSixExample()
    ensures FormatPace(6.0) == Some("6:00")
  {
    assert Round(6.0 * 60.0) == 360;
    assert PaceFields(360) == (6, 0);
    assert NatToString(6) == "6";
    assert TwoDigits(0) == "00";
    assert PaceText(360) == "6:00";
  }

  /** The full conversion of a speed: 10 per hour is "6:00" per unit. */
  lemma ConvertSpeedExample()
    ensures Convert(ConversionDirection.SpeedToPace, "10") == "6:00"
  {
    TenPerHour();
    ConvertedSpeed("10", 10.0);
    assert SpeedToPace(10.0) == 6.0;
    FormatPaceSixExample();
  }

  /** Blank input converts to nothing in either direction. */
  lemma ConvertBlankExample()
    ensures Convert(ConversionDirection.PaceToSpeed, "") == "" && Convert(ConversionDirection.SpeedToPace, " ") == ""
  {
    assert Trim(" ") == [];
  }
}
