/**
 * The converter screen's state: the direction, the unit, the typed text and the unit in
 * effect before the last unit change, together with the conversion history the screen
 * records into. Changing the direction clears the typed text; changing the unit rewrites
 * the typed value in the new unit. The stored preferences the app restores the direction
 * and the unit from are passed to the constructor as their raw text.
 */
module ConverterViewModel {
  import opened Wrappers
  import opened Numeric
  import opened Text
  import opened ConversionEngine
  import History = ConversionHistory

  /** `inputSuffix`: the pace label exactly when a pace is typed, the speed label otherwise. */
  function InputSuffix(direction: ConversionDirection, unit: SpeedUnit): (r: string)
    ensures r == unit.PaceLabel() <==> direction == ConversionDirection.PaceToSpeed
    ensures r == unit.SpeedLabel() <==> direction == ConversionDirection.SpeedToPace
  {
    LabelsDistinct(unit, unit);
    match direction
    case PaceToSpeed => unit.PaceLabel()
    case SpeedToPace => unit.SpeedLabel()
  }

  /** `resultSuffix`: the label of the quantity shown, the speed label exactly when a pace is typed. */
  function ResultSuffix(direction: ConversionDirection, unit: SpeedUnit): (r: string)
    ensures r == unit.SpeedLabel() <==> direction == ConversionDirection.PaceToSpeed
    ensures r == unit.PaceLabel() <==> direction == ConversionDirection.SpeedToPace
  {
    LabelsDistinct(unit, unit);
    match direction
    case PaceToSpeed => unit.SpeedLabel()
    case SpeedToPace => unit.PaceLabel()
  }

  /**
   * `placeholder`: what the empty entry field shows. For a speed it is a sample speed written
   * as speeds are written (10 per hour, or 16 in kilometres); for a pace it is the "mm:ss"
   * pattern, which is not itself a pace.
   */
  function Placeholder(direction: ConversionDirection, unit: SpeedUnit): (r: string)
    ensures direction == ConversionDirection.SpeedToPace ==> r == FormatSpeed(if unit == Mph then 10.0 else 16.0)
    ensures direction == ConversionDirection.PaceToSpeed ==> ParsePace(r) == None
  {
    if direction == ConversionDirection.PaceToSpeed then
      PatternIsNoPace();
      "mm:ss"
    else if unit == Mph then
      SampleSpeeds();
      "10.00"
    else
      SampleSpeeds();
      "16.00"
  }

  /** "mm:ss" keeps only its colon through the filter, which leaves no segment to read. */
  lemma PatternIsNoPace()
    ensures ParsePace("mm:ss") == None
  {
    TrimEnds("mm:ss");
    PatternFiltered();
    ColonOnlyIsNoPace("mm:ss");
  }

  /** Text whose only numeric character is a colon has no minutes to read. */
  lemma ColonOnlyIsNoPace(value: string)
    requires FilterNumeric(Trim(value), true) == ":"
    ensures ParsePace(value) == None
  {
    assert SplitOnce(":", ':') == [];
  }

  /** The letters of "mm:ss" are dropped by the filter of a pace field. */
  lemma PatternFiltered()
    ensures FilterNumeric("mm:ss", true) == ":"
  {
    FilterNumericConcat("mm", ":ss", true);
    FilterNumericConcat(":", "ss", true);
    assert FilterNumeric("s", true) == [] && FilterNumeric("ss", true) == [];
    assert FilterNumeric("m", true) == [] && FilterNumeric("mm", true) == [];
    assert "mm:ss" == "mm" + ":ss" && ":ss" == ":" + "ss";
  }

  /** The sample speeds 10 and 16 written with two decimals. */
  lemma SampleSpeeds()
    ensures FormatSpeed(10.0) == "10.00" && FormatSpeed(16.0) == "16.00"
  {
    FormatSpeedExamples();
    assert Round(1600.0) == 1600;
    assert NatToString(16) == "16" by {
      assert NatToString(1) == "1" && NatToString(6) == "6";
    }
    assert TwoDigits(0) == "00";
    assert Hundredths(1600) == "16.00";
  }

  /** `helperText`: the hint under the entry field, which names the quantity to type first. */
  function HelperText(direction: ConversionDirection, unit: SpeedUnit): (r: string)
    ensures |r| > 10 && (r[6..10] == "pace" <==> direction == ConversionDirection.PaceToSpeed)
  {
    if direction == ConversionDirection.PaceToSpeed then
      "Enter pace " + (if unit == Mph then "per mile" else "per km") + " to get speed"
    else
      var text := "Enter speed in " + unit.Label() + " to get pace";
      assert text[6..10][0] == 's';
      text
  }

  /**
   * `convertInputForUnitChange`: blank text is left as it is, text that does not read as a
   * pace (or speed) is cleared, and a value is rewritten as the same pace (or speed) in the
   * new unit. Text that is not blank comes out as text the entry field accepts.
   */
  function ConvertedInput(direction: ConversionDirection, input: string, from: SpeedUnit, to: SpeedUnit): (r: string)
    ensures Trim(input) == [] ==> r == input
    ensures Trim(input) != [] ==> AllNumeric(r, direction.AcceptsColon())
  {
    var trimmed := Trim(input);
    if trimmed == [] then input
    else if direction == ConversionDirection.PaceToSpeed then
      match ParsePace(trimmed)
      case None => ""
      case Some(paceMinutes) =>
        var total: nat := Round(ConvertPace(paceMinutes, from, to) * 60.0);
        PaceTextNumeric(total);
        FormatPace(ConvertPace(paceMinutes, from, to)).GetOr("")
    else
      match ParseSpeed(trimmed)
      case None => ""
      case Some(speed) =>
        FormatSpeedHundredths(ConvertSpeed(speed, from, to), Round(ConvertSpeed(speed, from, to) * 100.0));
        FormatSpeed(ConvertSpeed(speed, from, to))
  }

  /** The records of a history and the identifier it hands out next. */
  datatype HistoryState = HistoryState(records: seq<History.Record>, nextId: nat)

  /**
   * The history after `recordCurrentConversion`: unchanged when nothing is shown; otherwise
   * the newest record holds the typed text and the shown result, and the next identifier moves on.
   */
  function RecordedConversion(records: seq<History.Record>, nextId: nat, direction: ConversionDirection,
                              unit: SpeedUnit, input: string): (r: HistoryState)
    ensures Convert(direction, input) == [] ==> r == HistoryState(records, nextId)
    ensures Convert(direction, input) != [] ==>
              && |r.records| >= 1 && r.records[0].input == input && r.records[0].result == Convert(direction, input)
              && r.nextId == nextId + 1
  {
    ConvertNumeric(direction, input);
    AllNumericNoWhitespace(Convert(direction, input), true);
    TrimNoWhitespace(Convert(direction, input));
    var result := Convert(direction, input);
    if result == [] || Trim(input) == [] then HistoryState(records, nextId)
    else
      HistoryState(History.Recorded(records, nextId, input, InputSuffix(direction, unit), result, ResultSuffix(direction, unit)),
                   nextId + 1)
  }

  class ConverterViewModel {
    const history: History.ConversionHistory
    var direction: ConversionDirection
    var unit: SpeedUnit
    var inputText: string
    /** The unit in effect before the last unit change. */
    var oldUnit: SpeedUnit

    ghost predicate Valid()
      reads this, history
    {
      history.Valid()
    }

    /**
     * `init`: the stored direction and unit when their raw text names one, pace to speed
     * and miles otherwise; nothing typed and nothing recorded.
     */
    constructor(storedDirection: string, storedUnit: string)
      ensures Valid() && fresh(history) && history.records == []
      ensures direction == DirectionFromRaw(storedDirection).GetOr(ConversionDirection.PaceToSpeed)
      ensures unit == UnitFromRaw(storedUnit).GetOr(Mph) && oldUnit == unit
      ensures inputText == []
    {
      history := new History.ConversionHistory();
      direction := DirectionFromRaw(storedDirection).GetOr(ConversionDirection.PaceToSpeed);
      var u := UnitFromRaw(storedUnit).GetOr(Mph);
      unit := u;
      oldUnit := u;
      inputText := "";
    }

    /** `result`: the conversion of the typed text, empty exactly when it is blank or does not parse. */
    function Result(): (r: string)
      reads this
      ensures r == [] <==>
                || Trim(inputText) == []
                || (direction == ConversionDirection.PaceToSpeed && ParsePace(Trim(inputText)).None?)
                || (direction == ConversionDirection.SpeedToPace && ParseSpeed(Trim(inputText)).None?)
      ensures AllNumeric(r, true)
    {
      ConvertEmpty(direction, inputText);
      ConvertNumeric(direction, inputText);
      Convert(direction, inputText)
    }

    /** `handleInput`: the typed text keeps only what the direction's entry field accepts. */
    method HandleInput(value: string)
      modifies this
      ensures inputText == SanitizeInput(direction, value)
      ensures direction == old(direction) && unit == old(unit) && oldUnit == old(oldUnit)
    {
      inputText := SanitizeInput(direction, value);
    }

    /** `recordCurrentConversion`: the shown conversion goes into the history, unless nothing is shown. */
    method RecordCurrentConversion()
      requires Valid()
      modifies history
      ensures Valid()
      ensures HistoryState(history.records, history.nextId)
              == RecordedConversion(old(history.records), old(history.nextId), direction, unit, inputText)
    {
      var currentResult := Result();
      if currentResult == [] || Trim(inputText) == [] {
        return;
      }
      AllNumericNoWhitespace(currentResult, true);
      TrimNoWhitespace(currentResult);
      history.Add(inputText, InputSuffix(direction, unit), currentResult, ResultSuffix(direction, unit));
    }

    /**
     * `switchDirection`: nothing for the current direction; otherwise the shown conversion is
     * recorded with the old suffixes, the direction changes and the typed text is cleared.
     */
    method SwitchDirection(newDirection: ConversionDirection)
      requires Valid()
      modifies this, history
      ensures Valid()
      ensures old(direction) == newDirection ==>
                && direction == old(direction) && inputText == old(inputText)
                && history.records == old(history.records) && history.nextId == old(history.nextId)
      ensures old(direction) != newDirection ==>
                && direction == newDirection && inputText == []
                && HistoryState(history.records, history.nextId)
                   == RecordedConversion(old(history.records), old(history.nextId), old(direction), old(unit), old(inputText))
      ensures unit == old(unit) && oldUnit == old(oldUnit)
    {
      if newDirection == direction {
        return;
      }
      RecordCurrentConversion();
      direction := newDirection;
      // The `didSet` observer of `direction`.
      inputText := "";
    }

    /**
     * `switchUnit`: nothing for the current unit; otherwise the shown conversion is recorded
     * with the old suffixes, the old unit is kept and the typed value is rewritten in the new one.
     */
    method SwitchUnit(newUnit: SpeedUnit)
      requires Valid()
      modifies this, history
      ensures Valid()
      ensures old(unit) == newUnit ==>
                unit == old(unit) && oldUnit == old(oldUnit) && inputText == old(inputText)
                && history.records == old(history.records) && history.nextId == old(history.nextId)
      ensures old(unit) != newUnit ==>
                && unit == newUnit && oldUnit == old(unit)
                && inputText == ConvertedInput(old(direction), old(inputText), old(unit), newUnit)
                && HistoryState(history.records, history.nextId)
                   == RecordedConversion(old(history.records), old(history.nextId), old(direction), old(unit), old(inputText))
      ensures direction == old(direction)
    {
      if newUnit == unit {
        return;
      }
      RecordCurrentConversion();
      oldUnit := unit;
      unit := newUnit;
      // The `didSet` observer of `unit`.
      ConvertInputForUnitChange(oldUnit, unit);
    }

    /** `convertInputForUnitChange`: rewrites the typed value from one unit to the other. */
    method ConvertInputForUnitChange(from: SpeedUnit, to: SpeedUnit)
      modifies this
      ensures inputText == ConvertedInput(direction, old(inputText), from, to)
      ensures direction == old(direction) && unit == old(unit) && oldUnit == old(oldUnit)
    {
      var trimmed := Trim(inputText);
      if trimmed == [] {
        return;
      }
      if direction == ConversionDirection.PaceToSpeed {
        var parsed := ParsePace(trimmed);
        if parsed.None? || parsed.value <= 0.0 {
          inputText := "";
          return;
        }
        var converted := ConvertPace(parsed.value, from, to);
        inputText := FormatPace(converted).GetOr("");
      } else {
        var parsed := ParseSpeed(trimmed);
        if parsed.None? || parsed.value <= 0.0 {
          inputText := "";
          return;
        }
        var converted := ConvertSpeed(parsed.value, from, to);
        inputText := FormatSpeed(converted);
      }
    }
  }

  // ---------------------------------------------------------------------------
  // What the screen promises

  /**
   * The two suffixes trade places when the direction changes; in either direction the typed
   * quantity and the shown one carry different labels, and a pace carries the pace label.
   */
  lemma SuffixesSwap(unit: SpeedUnit)
    ensures InputSuffix(ConversionDirection.PaceToSpeed, unit) == ResultSuffix(ConversionDirection.SpeedToPace, unit)
    ensures ResultSuffix(ConversionDirection.PaceToSpeed, unit) == InputSuffix(ConversionDirection.SpeedToPace, unit)
    ensures forall d :: InputSuffix(d, unit) != ResultSuffix(d, unit)
    ensures InputSuffix(ConversionDirection.PaceToSpeed, unit) == unit.PaceLabel()
    ensures InputSuffix(ConversionDirection.SpeedToPace, unit) == unit.SpeedLabel()
  {
    LabelsDistinct(unit, unit);
  }

  /** With nothing shown, nothing is recorded. */
  lemma NothingShownNothingRecorded(records: seq<History.Record>, nextId: nat, direction: ConversionDirection,
                                    unit: SpeedUnit, input: string)
    requires Convert(direction, input) == []
    ensures RecordedConversion(records, nextId, direction, unit, input) == HistoryState(records, nextId)
  {
  }

  /**
   * A shown conversion is recorded as the newest record, with the typed text, the result and
   * both suffixes; the earlier records follow, less the oldest when there were already 20.
   */
  lemma RecordsShownConversion(records: seq<History.Record>, nextId: nat, direction: ConversionDirection,
                               unit: SpeedUnit, input: string, result: string)
    requires |records| <= History.MaxRecords
    requires result == Convert(direction, input) && result != []
    ensures RecordedConversion(records, nextId, direction, unit, input).nextId == nextId + 1
    ensures var r := RecordedConversion(records, nextId, direction, unit, input).records;
            && |r| == (if |records| < History.MaxRecords then |records| + 1 else History.MaxRecords)
            && r[0] == History.Record(nextId, input, InputSuffix(direction, unit), result, ResultSuffix(direction, unit))
            && r[1..] == (if |records| < History.MaxRecords then records else records[..History.MaxRecords - 1])
  {
    ConvertNumeric(direction, input);
    AllNumericNoWhitespace(result, true);
    TrimNoWhitespace(result);
    assert Trim(input) != [];
    History.RecordedFront(records, nextId, input, InputSuffix(direction, unit), result, ResultSuffix(direction, unit));
  }

  /** Blank text survives a unit change as it is; text that does not read as a value is cleared. */
  lemma ConvertedInputUnreadable(direction: ConversionDirection, input: string, from: SpeedUnit, to: SpeedUnit)
    ensures Trim(input) == [] ==> ConvertedInput(direction, input, from, to) == input
    ensures (Trim(input) != [] && direction == ConversionDirection.PaceToSpeed && ParsePace(Trim(input)).None?)
              ==> ConvertedInput(direction, input, from, to) == []
    ensures (Trim(input) != [] && direction == ConversionDirection.SpeedToPace && ParseSpeed(Trim(input)).None?)
              ==> ConvertedInput(direction, input, from, to) == []
  {
  }

  /**
   * After a unit change, a typed pace `p` reads back as the same pace in the new unit (`q`) to
   * the nearest second (`total` seconds), and is refused only when that rounds to zero.
   */
  lemma UnitChangeKeepsPace(input: string, p: real, q: real, from: SpeedUnit, to: SpeedUnit, total: int)
    requires ParsePace(Trim(input)) == Some(p) && q == ConvertPace(p, from, to)
    requires total == Round(q * 60.0)
    ensures ParsePace(ConvertedInput(ConversionDirection.PaceToSpeed, input, from, to))
         == if total > 0 then Some(total as real / 60.0) else None
    ensures Abs(total as real / 60.0 - q) <= 1.0 / 120.0
  {
    ConvertedPaceInput(input, p, from, to);
    ParseFormatPace(q, total);
  }

  /**
   * After a unit change, a typed speed `v` reads back as the same speed in the new unit (`w`)
   * to the nearest hundredth (`cents` of them), and is refused only when that rounds to zero.
   */
  lemma UnitChangeKeepsSpeed(input: string, v: real, w: real, from: SpeedUnit, to: SpeedUnit, cents: int)
    requires ParseSpeed(Trim(input)) == Some(v) && w == ConvertSpeed(v, from, to)
    requires cents == Round(w * 100.0)
    ensures ParseSpeed(ConvertedInput(ConversionDirection.SpeedToPace, input, from, to))
         == if cents > 0 then Some(cents as real / 100.0) else None
    ensures Abs(cents as real / 100.0 - w) <= 0.005
  {
    ConvertedSpeedInput(input, v, from, to);
    ParseFormatSpeed(w, cents);
  }

  /** A typed pace is rewritten as the text of the converted pace. */
  lemma ConvertedPaceInput(input: string, p: real, from: SpeedUnit, to: SpeedUnit)
    requires ParsePace(Trim(input)) == Some(p)
    ensures FormatPace(ConvertPace(p, from, to)) == Some(ConvertedInput(ConversionDirection.PaceToSpeed, input, from, to))
  {
    var trimmed := Trim(input);
    assert trimmed != [];
  }

  /** A typed speed is rewritten as the text of the converted speed. */
  lemma ConvertedSpeedInput(input: string, v: real, from: SpeedUnit, to: SpeedUnit)
    requires ParseSpeed(Trim(input)) == Some(v)
    ensures ConvertedInput(ConversionDirection.SpeedToPace, input, from, to) == FormatSpeed(ConvertSpeed(v, from, to))
  {
    var trimmed := Trim(input);
    assert trimmed != [];
    assert ConversionDirection.SpeedToPace != ConversionDirection.PaceToSpeed;
  }

  /** The placeholders for each direction and unit. */
  lemma PlaceholderExamples()
    ensures Placeholder(ConversionDirection.PaceToSpeed, Kph) == "mm:ss"
    ensures Placeholder(ConversionDirection.SpeedToPace, Mph) == "10.00"
    ensures Placeholder(ConversionDirection.SpeedToPace, Kph) == "16.00"
  {
  }

  /** The helper text for a pace in miles. */
  lemma PaceHelperTextExample()
    ensures HelperText(ConversionDirection.PaceToSpeed, Mph) == "Enter pace per mile to get speed"
  {
  }

  /** The helper text for a speed in kilometres. */
  lemma SpeedHelperTextExample()
    ensures HelperText(ConversionDirection.SpeedToPace, Kph) == "Enter speed in KPH to get pace"
  {
    var kph := Kph.Label();
    assert kph == "KPH";
    assert HelperText(ConversionDirection.SpeedToPace, Kph) == "Enter speed in " + kph + " to get pace";
  }
}
