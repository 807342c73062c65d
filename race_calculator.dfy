/**
 * Race math: the standard race distances, finish time from a pace, the pace needed for a
 * target time, the "h:mm:ss" duration text in both directions, and the negative-split
 * schedule, in which each whole unit is run a fixed number of seconds faster than the one
 * before and the unrounded split times add up to the target exactly.
 */
module RaceCalculator {
  import opened Wrappers
  import opened Numeric
  import opened Text
  import ConversionEngine

  // ---------------------------------------------------------------------------
  // The distance table

  datatype Distance = FiveK | TenK | HalfMarathon | Marathon | Custom {

    /** The raw value, which is also the identifier shown in the picker. */
    function Id(): string {
      match this
      case FiveK => "5K"
      case TenK => "10K"
      case HalfMarathon => "Half Marathon"
      case Marathon => "Marathon"
      case Custom => "Custom"
    }

    /** The length in miles; a custom distance has none. */
    function Miles(): (r: Option<real>)
      ensures r.None? <==> this == Custom
      ensures r.Some? ==> r.value > 0.0
    {
      match this
      case FiveK => Some(3.10686)
      case TenK => Some(6.21371)
      case HalfMarathon => Some(13.1094)
      case Marathon => Some(26.2188)
      case Custom => None
    }

    /** The length in kilometres; a custom distance has none. */
    function Kilometers(): (r: Option<real>)
      ensures r.None? <==> this == Custom
      ensures r.Some? ==> r.value > 0.0
    {
      match this
      case FiveK => Some(5.0)
      case TenK => Some(10.0)
      case HalfMarathon => Some(21.0975)
      case Marathon => Some(42.195)
      case Custom => None
    }
  }

  /** The two columns of the table describe the same races: they agree through the mile constant to a tenth of a metre. */
  lemma DistanceTableAgrees(d: Distance)
    requires d != Custom
    ensures Abs(d.Miles().value * ConversionEngine.KmPerMile - d.Kilometers().value) < 0.0001
  {
  }

  // ---------------------------------------------------------------------------
  // Finish time and required pace

  /** `finishTime`: the whole number of seconds nearest to the time that `paceMinutes` per unit takes over the distance. */
  function FinishTime(paceMinutes: real, distanceInUnits: real): (r: int)
    ensures Abs(r as real - paceMinutes * distanceInUnits * 60.0) <= 0.5
  {
    Round(paceMinutes * distanceInUnits * 60.0)
  }

  /** `requiredPace`: zero for a distance that is not positive, otherwise the pace that covers the distance in exactly `totalSeconds`. */
  function RequiredPace(totalSeconds: int, distanceInUnits: real): (r: real)
    ensures distanceInUnits <= 0.0 ==> r == 0.0
    ensures distanceInUnits > 0.0 ==> r * distanceInUnits * 60.0 == totalSeconds as real
  {
    if distanceInUnits <= 0.0 then 0.0 else totalSeconds as real / 60.0 / distanceInUnits
  }

  /** Running the required pace over the distance finishes in the target time exactly. */
  lemma FinishTimeOfRequiredPace(totalSeconds: int, distanceInUnits: real)
    requires distanceInUnits > 0.0
    ensures FinishTime(RequiredPace(totalSeconds, distanceInUnits), distanceInUnits) == totalSeconds
  {
    var p := RequiredPace(totalSeconds, distanceInUnits);
    assert p * distanceInUnits * 60.0 == totalSeconds as real;
    RoundOfInt(totalSeconds);
  }

  /** 8:00 per mile over a 5K finishes in 1491 seconds, and 1491 seconds over a 5K is within a hundredth of 8:00 per mile. */
  lemma FiveKExample()
    ensures FinishTime(8.0, 3.10686) == 1491
    ensures Abs(RequiredPace(1491, 3.10686) - 8.0) < 0.01
  {
    assert 8.0 * 3.10686 * 60.0 == 1491.2928;
  }

  // ---------------------------------------------------------------------------
  // Duration text

  /**
   * `formatDuration`: "H:MM:SS" from one hour on, "M:SS" below it, "0:00" for a negative time;
   * the seconds are always the two digits after the last colon.
   */
  function FormatDuration(totalSeconds: int): (r: string)
    ensures totalSeconds < 0 ==> r == "0:00"
    ensures |r| >= 4 && r[|r| - 3] == ':'
    ensures totalSeconds >= 3600 <==> |r| >= 7 && r[|r| - 6] == ':'
  {
    if totalSeconds < 0 then "0:00"
    else
      var hours, minutes, seconds := totalSeconds / 3600, (totalSeconds % 3600) / 60, totalSeconds % 60;
      DurationFields(totalSeconds);
      if hours > 0 then NatToString(hours) + ":" + TwoDigits(minutes) + ":" + TwoDigits(seconds)
      else NatToString(minutes) + ":" + TwoDigits(seconds)
  }

  /** `parts.compactMap { Int($0) }`: the values of the pieces that parse, in order. */
  function CompactMapInt(parts: seq<string>): (ints: seq<int>)
    ensures |ints| <= |parts|
  {
    if parts == [] then []
    else
      (match ParseInt(parts[0]) case Some(v) => [v] case None => []) + CompactMapInt(parts[1..])
  }

  /** Pieces made of digits within 64 bits all parse, each to the number it denotes. */
  lemma {:induction false} CompactMapDigits(parts: seq<string>)
    requires forall i :: 0 <= i < |parts| ==> parts[i] != [] && AllDigits(parts[i]) && DigitsValue(parts[i]) <= IntMax
    ensures |CompactMapInt(parts)| == |parts|
    ensures forall i :: 0 <= i < |parts| ==> CompactMapInt(parts)[i] == DigitsValue(parts[i]) as int
  {
    if parts != [] {
      ParseIntDigits(parts[0]);
      CompactMapDigits(parts[1..]);
    }
  }

  /**
   * `parseDuration`: after trimming, one piece is whole minutes, two are minutes and
   * seconds, three are hours, minutes and seconds; every piece must be an integer that is not
   * negative, and minute and second fields of a longer form must be below 60.
   */
  function ParseDuration(input: string): (r: Option<int>)
    ensures r.Some? ==> r.value >= 0
  {
    ReadDuration(SplitOn(Trim(input), ':'))
  }

  /** The checks and the arithmetic `parseDuration` applies to the pieces between the colons. */
  function ReadDuration(parts: seq<string>): (r: Option<int>)
    ensures r.Some? ==> r.value >= 0
  {
    if parts == [] || |parts| > 3 then None
    else
      var ints := CompactMapInt(parts);
      if |ints| != |parts| then None
      else if |ints| == 1 then
        if ints[0] >= 0 then Some(ints[0] * 60) else None
      else if |ints| == 2 then
        if ints[0] >= 0 && ints[1] >= 0 && ints[1] < 60 then Some(ints[0] * 60 + ints[1]) else None
      else if |ints| == 3 then
        if ints[0] >= 0 && ints[1] >= 0 && ints[1] < 60 && ints[2] >= 0 && ints[2] < 60
        then Some(ints[0] * 3600 + ints[1] * 60 + ints[2])
        else None
      else None
  }

  /** Two digit strings joined by a colon are left alone by trimming and split back into the two. */
  lemma {:induction false} JoinTwo(a: string, b: string)
    requires a != [] && AllDigits(a) && b != [] && AllDigits(b)
    ensures SplitOn(Trim(a + ":" + b), ':') == [a, b]
  {
    DigitsNumeric(a, true);
    DigitsNumeric(b, true);
    AllNumericConcat(a, ":", true);
    AllNumericConcat(a + ":", b, true);
    NumericTrim(a + ":" + b, true);
    SplitTwo(a, b);
  }

  /** Two digit strings joined by a colon split back into the two. */
  lemma SplitTwo(a: string, b: string)
    requires a != [] && AllDigits(a) && b != [] && AllDigits(b)
    ensures SplitOn(a + ":" + b, ':') == [a, b]
  {
    DigitsExclude(a, ':');
    DigitsExclude(b, ':');
    assert a + ":" + b == a + [':'] + b;
    SplitOnCons(a, ':', b);
    SplitOnSingle(b, ':');
  }

  /** Three digit strings joined by colons are left alone by trimming and split back into the three. */
  lemma {:induction false} JoinThree(a: string, b: string, c: string)
    requires a != [] && AllDigits(a) && b != [] && AllDigits(b) && c != [] && AllDigits(c)
    ensures SplitOn(Trim(a + ":" + b + ":" + c), ':') == [a, b, c]
  {
    DigitsNumeric(a, true);
    DigitsNumeric(b, true);
    DigitsNumeric(c, true);
    AllNumericConcat(a, ":", true);
    AllNumericConcat(a + ":", b, true);
    AllNumericConcat(a + ":" + b, ":", true);
    AllNumericConcat(a + ":" + b + ":", c, true);
    NumericTrim(a + ":" + b + ":" + c, true);
    SplitThree(a, b, c);
  }

  /** Three digit strings joined by colons split back into the three. */
  lemma SplitThree(a: string, b: string, c: string)
    requires a != [] && AllDigits(a) && b != [] && AllDigits(b) && c != [] && AllDigits(c)
    ensures SplitOn(a + ":" + b + ":" + c, ':') == [a, b, c]
  {
    DigitsExclude(a, ':');
    assert a + ":" + b + ":" + c == a + [':'] + (b + ":" + c);
    SplitOnCons(a, ':', b + ":" + c);
    SplitTwo(b, c);
  }

  /** Two digit pieces read as minutes and seconds, provided the minutes fit in 64 bits and the seconds are below 60. */
  lemma {:induction false} ReadTwoPieces(parts: seq<string>, a: string, b: string)
    requires a != [] && AllDigits(a) && b != [] && AllDigits(b) && parts == [a, b]
    ensures ReadDuration(parts)
         == if DigitsValue(a) <= IntMax && DigitsValue(b) < 60 then Some(DigitsValue(a) * 60 + DigitsValue(b)) else None
  {
    ParseIntDigits(a);
    ParseIntDigits(b);
    CompactMapAll(parts);
  }

  /** Three digit pieces read as hours, minutes and seconds, provided the hours fit in 64 bits and the last two are below 60. */
  lemma {:induction false} ReadThreePieces(parts: seq<string>, a: string, b: string, c: string)
    requires a != [] && AllDigits(a) && b != [] && AllDigits(b) && c != [] && AllDigits(c)
    requires parts == [a, b, c]
    ensures ReadDuration(parts)
         == if DigitsValue(a) <= IntMax && DigitsValue(b) < 60 && DigitsValue(c) < 60
            then Some(DigitsValue(a) * 3600 + DigitsValue(b) * 60 + DigitsValue(c))
            else None
  {
    ParseIntDigits(a);
    ParseIntDigits(b);
    ParseIntDigits(c);
    CompactMapAll(parts);
  }

  /** "M:SS"-shaped text reads as minutes and seconds, and is refused when the minutes pass 64 bits or the seconds reach 60. */
  lemma {:induction false} ParseTwoPieces(a: string, b: string)
    requires a != [] && AllDigits(a) && b != [] && AllDigits(b)
    ensures ParseDuration(a + ":" + b)
         == if DigitsValue(a) <= IntMax && DigitsValue(b) < 60 then Some(DigitsValue(a) * 60 + DigitsValue(b)) else None
  {
    JoinTwo(a, b);
    ReadTwoPieces(SplitOn(Trim(a + ":" + b), ':'), a, b);
  }

  /**
   * "H:MM:SS"-shaped text reads as hours, minutes and seconds, and is refused when the hours
   * pass 64 bits or either of the last two reaches 60.
   */
  lemma {:induction false} ParseThreePieces(a: string, b: string, c: string)
    requires a != [] && AllDigits(a) && b != [] && AllDigits(b) && c != [] && AllDigits(c)
    ensures ParseDuration(a + ":" + b + ":" + c)
         == if DigitsValue(a) <= IntMax && DigitsValue(b) < 60 && DigitsValue(c) < 60
            then Some(DigitsValue(a) * 3600 + DigitsValue(b) * 60 + DigitsValue(c))
            else None
  {
    JoinThree(a, b, c);
    ReadThreePieces(SplitOn(Trim(a + ":" + b + ":" + c), ':'), a, b, c);
  }

  /** Minutes and seconds pieces in range read as the time they make up. */
  lemma {:induction false} ReadTwoValues(parts: seq<string>, a: string, b: string, total: int)
    requires a != [] && AllDigits(a) && b != [] && AllDigits(b) && parts == [a, b]
    requires DigitsValue(a) <= IntMax && DigitsValue(b) < 60 && total == DigitsValue(a) * 60 + DigitsValue(b)
    ensures ReadDuration(parts) == Some(total)
  {
    ReadTwoPieces(parts, a, b);
  }

  /** Hours, minutes and seconds pieces in range read as the time they make up. */
  lemma {:induction false} ReadThreeValues(parts: seq<string>, a: string, b: string, c: string, total: int)
    requires a != [] && AllDigits(a) && b != [] && AllDigits(b) && c != [] && AllDigits(c)
    requires parts == [a, b, c] && DigitsValue(a) <= IntMax && DigitsValue(b) < 60 && DigitsValue(c) < 60
    requires total == DigitsValue(a) * 3600 + DigitsValue(b) * 60 + DigitsValue(c)
    ensures ReadDuration(parts) == Some(total)
  {
    ReadThreePieces(parts, a, b, c);
  }

  /** "H:MM:SS" text of fields with minutes and seconds below 60 reads back as the time they make up. */
  lemma {:induction false} ParseLongDurationText(h: nat, m: nat, sec: nat, total: int)
    requires 0 < h <= IntMax && m < 60 && sec < 60 && total == h * 3600 + m * 60 + sec
    ensures ParseDuration(NatToString(h) + ":" + TwoDigits(m) + ":" + TwoDigits(sec)) == Some(total)
  {
    var a, b, c := NatToString(h), TwoDigits(m), TwoDigits(sec);
    JoinThree(a, b, c);
    ReadThreeValues(SplitOn(Trim(a + ":" + b + ":" + c), ':'), a, b, c, total);
  }

  /** "M:SS" text of minutes within 64 bits and seconds below 60 reads back as the time they make up. */
  lemma {:induction false} ParseShortDurationText(m: nat, sec: nat, total: int)
    requires m <= IntMax && sec < 60 && total == m * 60 + sec
    ensures ParseDuration(NatToString(m) + ":" + TwoDigits(sec)) == Some(total)
  {
    var a, c := NatToString(m), TwoDigits(sec);
    JoinTwo(a, c);
    ReadTwoValues(SplitOn(Trim(a + ":" + c), ':'), a, c, total);
  }

  /** Integer division splits a time into hours, minutes below 60 and seconds below 60 that add back up to it. */
  lemma DurationFields(s: nat)
    ensures (s % 3600) / 60 < 60 && s % 60 < 60
    ensures s == (s / 3600) * 3600 + ((s % 3600) / 60) * 60 + s % 60
  {
    var r := s % 3600;
    assert s == (s / 3600) * 3600 + r;
    assert r == (r / 60) * 60 + r % 60;
    assert r % 60 == s % 60 by {
      assert s == (s / 3600) * 60 * 60 + r;
    }
  }

  /** Every time that is not negative, up to the largest `Int`, survives being written out and read back. */
  lemma {:induction false} ParseFormatDuration(s: int)
    requires 0 <= s <= IntMax
    ensures ParseDuration(FormatDuration(s)) == Some(s)
  {
    var h, m, sec := s / 3600, (s % 3600) / 60, s % 60;
    DurationFields(s);
    if h > 0 {
      assert h <= s;
      assert FormatDuration(s) == NatToString(h) + ":" + TwoDigits(m) + ":" + TwoDigits(sec);
      ParseLongDurationText(h, m, sec, s);
    } else {
      assert FormatDuration(s) == NatToString(m) + ":" + TwoDigits(sec);
      ParseShortDurationText(m, sec, s);
    }
  }

  /** `compactMap` drops nothing exactly when every piece parses, and then each value is its piece's. */
  lemma {:induction false} CompactMapAll(parts: seq<string>)
    ensures |CompactMapInt(parts)| == |parts| <==> forall i :: 0 <= i < |parts| ==> ParseInt(parts[i]).Some?
    ensures |CompactMapInt(parts)| == |parts| ==>
              forall i :: 0 <= i < |parts| ==> CompactMapInt(parts)[i] == ParseInt(parts[i]).value
  {
    if parts != [] {
      CompactMapAll(parts[1..]);
      assert forall i :: 1 <= i < |parts| ==> parts[1..][i - 1] == parts[i];
    }
  }

  /**
   * The pieces are accepted exactly when there are one to three of them, each an integer that
   * is not negative, and every piece after the first is below 60.
   */
  lemma ReadDurationAccepts(parts: seq<string>)
    ensures ReadDuration(parts).Some? <==>
              && 1 <= |parts| <= 3
              && (forall i :: 0 <= i < |parts| ==> ParseInt(parts[i]).Some? && ParseInt(parts[i]).value >= 0)
              && (forall i :: 1 <= i < |parts| ==> ParseInt(parts[i]).value < 60)
  {
    CompactMapAll(parts);
  }

  /** A bare number of digits reads as that many minutes, unless it is beyond 64 bits. */
  lemma ParseOnePiece(a: string)
    requires a != [] && AllDigits(a)
    ensures ParseDuration(a) == if DigitsValue(a) <= IntMax then Some(DigitsValue(a) * 60) else None
  {
    NumericTrim(a, false) by { DigitsNumeric(a, false); }
    DigitsExclude(a, ':');
    SplitOnSingle(a, ':');
    ParseIntDigits(a);
  }

  /** Numeric text, a colon and more numeric text are left alone by trimming. */
  lemma TrimJoin(a: string, b: string)
    requires AllNumeric(a, true) && AllNumeric(b, true)
    ensures AllNumeric(a + ":" + b, true) && Trim(a + ":" + b) == a + ":" + b
  {
    AllNumericConcat(a, ":", true);
    AllNumericConcat(a + ":", b, true);
    NumericTrim(a + ":" + b, true);
  }

  /** Four digit strings joined by colons are left alone by trimming and split back into the four. */
  lemma {:induction false} JoinFour(a: string, b: string, c: string, d: string)
    requires a != [] && AllDigits(a) && b != [] && AllDigits(b)
    requires c != [] && AllDigits(c) && d != [] && AllDigits(d)
    ensures SplitOn(Trim(a + ":" + b + ":" + c + ":" + d), ':') == [a, b, c, d]
  {
    var rest := b + ":" + c + ":" + d;
    assert a + ":" + b + ":" + c + ":" + d == a + ":" + rest;
    DigitsNumeric(a, true);
    DigitsNumeric(b, true);
    DigitsNumeric(c, true);
    DigitsNumeric(d, true);
    TrimJoin(b, c);
    TrimJoin(b + ":" + c, d);
    TrimJoin(a, rest);
    SplitThree(b, c, d);
    SplitFour(a, rest, b, c, d);
  }

  /** A digit string, a colon and text that splits into three pieces split into four. */
  lemma SplitFour(a: string, rest: string, b: string, c: string, d: string)
    requires a != [] && AllDigits(a) && SplitOn(rest, ':') == [b, c, d]
    ensures SplitOn(a + ":" + rest, ':') == [a, b, c, d]
  {
    DigitsExclude(a, ':');
    assert a + ":" + rest == a + [':'] + rest;
    SplitOnCons(a, ':', rest);
  }

  /** Four digit pieces are too many: the text is refused. */
  lemma ParseFourPieces(a: string, b: string, c: string, d: string)
    requires a != [] && AllDigits(a) && b != [] && AllDigits(b)
    requires c != [] && AllDigits(c) && d != [] && AllDigits(d)
    ensures ParseDuration(a + ":" + b + ":" + c + ":" + d) == None
  {
    JoinFour(a, b, c, d);
  }

  /** The duration example "1:30:00": an hour and a half, the text of 5400 seconds. */
  lemma ParseHourExample()
    ensures ParseDuration("1:30:00") == Some(5400)
  {
    FormatHourExample();
    ParseFormatDuration(5400);
  }

  /** The duration example "24:51": 1491 seconds, the text of 1491 seconds. */
  lemma ParseMinutesExample()
    ensures ParseDuration("24:51") == Some(1491)
  {
    FormatMinutesExample();
    ParseFormatDuration(1491);
  }

  /** 5400 seconds is "1:30:00". */
  lemma FormatHourExample()
    ensures FormatDuration(5400) == "1:30:00"
  {
    assert 5400 / 3600 == 1 && (5400 % 3600) / 60 == 30 && 5400 % 60 == 0;
    assert NatToString(1) == "1" && TwoDigits(30) == "30" && TwoDigits(0) == "00";
  }

  /** 1491 seconds is "24:51". */
  lemma FormatMinutesExample()
    ensures FormatDuration(1491) == "24:51"
  {
    assert 1491 / 3600 == 0 && (1491 % 3600) / 60 == 24 && 1491 % 60 == 51;
    assert NatToString(24) == "24" && TwoDigits(51) == "51";
  }

  /** 3661 seconds is "1:01:01", and zero and negative times are "0:00". */
  lemma FormatDurationExamples()
    ensures FormatDuration(3661) == "1:01:01"
    ensures FormatDuration(0) == "0:00" && FormatDuration(-30) == "0:00"
  {
    assert NatToString(1) == "1" && TwoDigits(1) == "01";
    assert NatToString(0) == "0" && TwoDigits(0) == "00";
  }

  /** The duration example "30": thirty minutes. */
  lemma ParseBareMinutesExample()
    ensures ParseDuration("30") == Some(1800)
  {
    assert "30"[..1] == "3";
    assert DigitsValue("30") == 30;
    ParseOnePiece("30");
  }

  /** Seconds of 60 are refused: "1:60". */
  lemma ParseSixtySecondsExample()
    ensures ParseDuration("1" + ":" + "60") == None
  {
    ParseTwoPieces("1", "60");
  }

  /** Empty text has no pieces and is refused. */
  lemma ParseEmptyDurationExample()
    ensures ParseDuration("") == None
  {
    assert Trim("") == [];
  }

  /** One trimmed piece that `Int` refuses, or reads as negative, makes the whole text refused. */
  lemma ParseRefusedPiece(a: string)
    requires a != [] && !IsWhitespace(a[0]) && !IsWhitespace(a[|a| - 1])
    requires ':' !in a && (ParseInt(a) == None || ParseInt(a).value < 0)
    ensures ParseDuration(a) == None
  {
    TrimEnds(a);
    SplitOnSingle(a, ':');
    assert CompactMapInt([a]) == match ParseInt(a) case Some(v) => [v] case None => [];
  }

  /** Letters are not an integer: "abc" is refused. */
  lemma ParseLettersDurationExample()
    ensures ParseDuration("abc") == None
  {
    assert "abc"[0] == 'a' && !IsDigit('a');
    assert ParseInt("abc") == None;
    ParseRefusedPiece("abc");
  }

  /** A negative number of minutes is refused: "-5". */
  lemma ParseNegativeDurationExample()
    ensures ParseDuration("-5") == None
  {
    assert ParseInt("-5") == Some(-5);
    ParseRefusedPiece("-5");
  }

  /** Twenty digits are beyond 64 bits, so `Int` refuses them and the text is refused. */
  lemma ParseHugeDurationExample()
    ensures ParseDuration("99999999999999999999") == None
  {
    var s := "99999999999999999999";
    ParseIntTooLong(s);
    ParseIntDigits(s);
    ParseOnePiece(s);
  }

  /** Four pieces are too many: "1:2:3:4" is refused. */
  lemma ParseFourPiecesExample()
    ensures ParseDuration("1" + ":" + "2" + ":" + "3" + ":" + "4") == None
  {
    ParseFourPieces("1", "2", "3", "4");
  }

  // ---------------------------------------------------------------------------
  // Negative splits

  /** One leg of a split schedule: its length in units and its time in whole seconds. */
  datatype Split = Split(distance: real, seconds: int)

  /** A remainder at or below this many units is ignored. */
  const PartialThreshold: real := 0.001

  /** `Int(distanceInUnits)`: the number of whole units. */
  function FullSplits(d: real): nat
    requires d > 0.0
  {
    d.Floor
  }

  /** The remainder after the whole units: in [0, 1), and the whole units plus it give the distance back. */
  function Partial(d: real): (p: real)
    requires d > 0.0
    ensures 0.0 <= p < 1.0 && FullSplits(d) as real + p == d
  {
    d - FullSplits(d) as real
  }

  predicate HasPartial(d: real)
    requires d > 0.0
  {
    Partial(d) > PartialThreshold
  }

  /** One split per whole unit, plus one for a remainder above the threshold. */
  function SplitCount(d: real): nat
    requires d > 0.0
  {
    FullSplits(d) + (if HasPartial(d) then 1 else 0)
  }

  /** The distance the schedule covers. */
  function EffectiveDistance(d: real): real
    requires d > 0.0
  {
    FullSplits(d) as real + (if HasPartial(d) then Partial(d) else 0.0)
  }

  /** The seconds given back by the decrements: drop × (0 + 1 + … + (n − 1) + remainder × n). */
  function DropSum(d: real, drop: real): real
    requires d > 0.0
  {
    var n := FullSplits(d) as real;
    drop * (n * (n - 1.0) / 2.0 + (if HasPartial(d) then Partial(d) * n else 0.0))
  }

  /** The pace of the first split, per unit, chosen so that the schedule adds up to the target. */
  function BasePace(totalSeconds: int, d: real, drop: real): real
    requires d > 0.0 && EffectiveDistance(d) > 0.0
  {
    (totalSeconds as real + DropSum(d, drop)) / EffectiveDistance(d)
  }

  /** The pace of split `i`, per unit: `drop` seconds faster than split `i - 1`. */
  function SplitPace(totalSeconds: int, d: real, drop: real, i: nat): real
    requires d > 0.0 && EffectiveDistance(d) > 0.0
  {
    BasePace(totalSeconds, d, drop) - i as real * drop
  }

  /** The length of split `i`: one unit, except a last split that carries the remainder. */
  function SplitDistance(d: real, i: nat): real
    requires d > 0.0
  {
    if i == SplitCount(d) - 1 && HasPartial(d) then Partial(d) else 1.0
  }

  /** The time split `i` takes before rounding. */
  function SplitTime(totalSeconds: int, d: real, drop: real, i: nat): real
    requires d > 0.0 && EffectiveDistance(d) > 0.0
  {
    SplitPace(totalSeconds, d, drop, i) * SplitDistance(d, i)
  }

  /**
   * Split `i` as the schedule reports it: at most one unit long, its time rounded to whole
   * seconds and never below one second.
   */
  function SplitAt(totalSeconds: int, d: real, drop: real, i: nat): (r: Split)
    requires d > 0.0 && EffectiveDistance(d) > 0.0
    ensures r.seconds >= 1 && 0.0 < r.distance <= 1.0
    ensures r.distance < 1.0 <==> i == SplitCount(d) - 1 && HasPartial(d)
    ensures SplitTime(totalSeconds, d, drop, i) >= 0.5 ==>
              Abs(r.seconds as real - SplitTime(totalSeconds, d, drop, i)) <= 0.5
  {
    Split(SplitDistance(d, i), Max(Round(SplitTime(totalSeconds, d, drop, i)), 1))
  }

  /**
   * The schedule `negativeSplits` promises: empty for a time or distance that is not positive,
   * otherwise one split per whole unit and one for a remainder, each at least a second long,
   * all one unit long except perhaps the last.
   */
  function PlannedSplits(totalSeconds: int, d: real, drop: real): (r: seq<Split>)
    ensures |r| == if d > 0.0 && totalSeconds > 0 then SplitCount(d) else 0
    ensures forall i :: 0 <= i < |r| ==> r[i].seconds >= 1 && 0.0 < r[i].distance <= 1.0
    ensures forall i :: 0 <= i < |r| - 1 ==> r[i].distance == 1.0
  {
    if d <= 0.0 || totalSeconds <= 0 || SplitCount(d) == 0 then []
    else
      EffectiveIsPositive(d);
      seq(SplitCount(d), i requires 0 <= i < SplitCount(d) => SplitAt(totalSeconds, d, drop, i))
  }

  /** There is a split exactly when the schedule covers some distance. */
  lemma EffectiveIsPositive(d: real)
    requires d > 0.0
    ensures SplitCount(d) > 0 <==> EffectiveDistance(d) > 0.0
  {
  }

  /** `negativeSplits`, built by appending one split per iteration as the source does. */
  method NegativeSplits(totalSeconds: int, distanceInUnits: real, dropSeconds: real)
    returns (results: seq<Split>)
    ensures results == PlannedSplits(totalSeconds, distanceInUnits, dropSeconds)
    ensures forall i :: 0 <= i < |results| ==> results[i].seconds >= 1
  {
    if !(distanceInUnits > 0.0 && totalSeconds > 0) {
      return [];
    }
    var fullSplits := distanceInUnits.Floor;
    var partial := distanceInUnits - fullSplits as real;
    var splitCount := fullSplits + (if partial > 0.001 then 1 else 0);
    if splitCount <= 0 {
      return [];
    }
    var n := fullSplits as real;
    var effectiveDistance := n + (if partial > 0.001 then partial else 0.0);
    var dropSum := dropSeconds * (n * (n - 1.0) / 2.0 + (if partial > 0.001 then partial * n else 0.0));
    if effectiveDistance <= 0.0 {
      return [];
    }
    var basePace := (totalSeconds as real + dropSum) / effectiveDistance;
    assert fullSplits == FullSplits(distanceInUnits) && partial == Partial(distanceInUnits);
    assert (partial > 0.001) == HasPartial(distanceInUnits) && splitCount == SplitCount(distanceInUnits);
    assert effectiveDistance == EffectiveDistance(distanceInUnits);
    assert dropSum == DropSum(distanceInUnits, dropSeconds);
    assert basePace == BasePace(totalSeconds, distanceInUnits, dropSeconds);
    ghost var planned := PlannedSplits(totalSeconds, distanceInUnits, dropSeconds);
    assert |planned| == splitCount;
    results := [];
    for i := 0 to splitCount
      invariant results == planned[..i]
    {
      var splitPace := basePace - i as real * dropSeconds;
      var dist: real;
      if i == splitCount - 1 && partial > 0.001 {
        dist := partial;
      } else {
        dist := 1.0;
      }
      var splitTime := Round(splitPace * dist);
      assert dist == SplitDistance(distanceInUnits, i);
      assert splitPace == SplitPace(totalSeconds, distanceInUnits, dropSeconds, i);
      LoopSplit(totalSeconds, distanceInUnits, dropSeconds, i, splitPace, dist, splitTime);
      PlannedSplitAt(totalSeconds, distanceInUnits, dropSeconds, i);
      var split := Split(dist, Max(splitTime, 1));
      assert split == planned[i];
      assert planned[..i + 1] == planned[..i] + [split];
      results := results + [split];
    }
    assert planned[..splitCount] == planned;
  }

  /** Entry `i` of a schedule is split `i`. */
  lemma PlannedSplitAt(totalSeconds: int, d: real, drop: real, i: nat)
    requires d > 0.0 && totalSeconds > 0 && i < SplitCount(d)
    ensures EffectiveDistance(d) > 0.0 && i < |PlannedSplits(totalSeconds, d, drop)|
    ensures PlannedSplits(totalSeconds, d, drop)[i] == SplitAt(totalSeconds, d, drop, i)
  {
    EffectiveIsPositive(d);
  }

  /** The split one pass of the loop in `negativeSplits` appends is split `i` of the schedule. */
  lemma LoopSplit(totalSeconds: int, d: real, drop: real, i: nat, splitPace: real, dist: real, splitTime: int)
    requires d > 0.0 && EffectiveDistance(d) > 0.0
    requires splitPace == SplitPace(totalSeconds, d, drop, i) && dist == SplitDistance(d, i)
    requires splitTime == Round(splitPace * dist)
    ensures Split(dist, Max(splitTime, 1)) == SplitAt(totalSeconds, d, drop, i)
  {
  }

  // ---------------------------------------------------------------------------
  // What the schedule promises

  /** The sum of the first `k` paces of a sequence that starts at `base` and drops by `drop` each time. */
  function PaceSum(base: real, drop: real, k: nat): real {
    if k == 0 then 0.0 else PaceSum(base, drop, k - 1) + (base - (k - 1) as real * drop)
  }

  /** The arithmetic series in closed form: k·base − drop·k(k − 1)/2. */
  lemma {:induction false} PaceSumClosed(base: real, drop: real, k: nat)
    ensures PaceSum(base, drop, k) == k as real * base - drop * (k as real * (k as real - 1.0) / 2.0)
  {
    if k > 0 {
      PaceSumClosed(base, drop, k - 1);
      var m := (k - 1) as real;
      assert (m + 1.0) * base == m * base + base;
      assert (m + 1.0) * m / 2.0 == m * (m - 1.0) / 2.0 + m;
      assert drop * (m * (m - 1.0) / 2.0 + m) == drop * (m * (m - 1.0) / 2.0) + m * drop;
    }
  }

  /** The unrounded time of the first `k` splits. */
  function ScheduleTime(totalSeconds: int, d: real, drop: real, k: nat): real
    requires d > 0.0 && EffectiveDistance(d) > 0.0
  {
    if k == 0 then 0.0
    else ScheduleTime(totalSeconds, d, drop, k - 1) + SplitTime(totalSeconds, d, drop, k - 1)
  }

  /** The whole-unit splits come first; each is one unit long. */
  lemma WholeSplitDistance(d: real, i: nat)
    requires d > 0.0 && i < FullSplits(d)
    ensures SplitDistance(d, i) == 1.0
  {
  }

  /** Over the whole-unit splits the schedule time is the series of paces. */
  lemma {:induction false} WholeScheduleTime(totalSeconds: int, d: real, drop: real, k: nat)
    requires d > 0.0 && EffectiveDistance(d) > 0.0 && k <= FullSplits(d)
    ensures ScheduleTime(totalSeconds, d, drop, k) == PaceSum(BasePace(totalSeconds, d, drop), drop, k)
  {
    if k > 0 {
      WholeScheduleTime(totalSeconds, d, drop, k - 1);
      WholeSplitDistance(d, k - 1);
    }
  }

  /**
   * The algebra behind the schedule: with `base` chosen as (total + dropSum)/(n + p), n whole
   * paces and a last one scaled by p add up to the total.
   */
  lemma ScheduleAlgebra(total: real, n: real, p: real, drop: real, base: real)
    requires n + p != 0.0
    requires base == (total + drop * (n * (n - 1.0) / 2.0 + p * n)) / (n + p)
    ensures n * base - drop * (n * (n - 1.0) / 2.0) + (base - n * drop) * p == total
  {
    var dropSum := drop * (n * (n - 1.0) / 2.0 + p * n);
    assert ((total + dropSum) / (n + p)) * (n + p) == total + dropSum;
    assert base * (n + p) == total + dropSum;
    assert (base - n * drop) * p == base * p - drop * (p * n);
    assert n * base + base * p == base * (n + p);
  }

  /**
   * The base pace is chosen so that the unrounded split times add up to the target time
   * exactly, with or without a partial last split.
   */
  lemma {:induction false} ScheduleAddsUp(totalSeconds: int, d: real, drop: real)
    requires d > 0.0 && EffectiveDistance(d) > 0.0
    ensures ScheduleTime(totalSeconds, d, drop, SplitCount(d)) == totalSeconds as real
  {
    ScheduleSum(totalSeconds, d, drop, FullSplits(d), BasePace(totalSeconds, d, drop),
                if HasPartial(d) then Partial(d) else 0.0);
  }

  /** `ScheduleAddsUp` with the whole splits `n`, the base pace and the partial distance `p` named. */
  lemma ScheduleSum(totalSeconds: int, d: real, drop: real, n: nat, base: real, p: real)
    requires d > 0.0 && EffectiveDistance(d) > 0.0
    requires n == FullSplits(d) && base == BasePace(totalSeconds, d, drop)
    requires p == if HasPartial(d) then Partial(d) else 0.0
    ensures ScheduleTime(totalSeconds, d, drop, SplitCount(d)) == totalSeconds as real
  {
    WholeScheduleTime(totalSeconds, d, drop, n);
    PaceSumClosed(base, drop, n);
    ScheduleAlgebra(totalSeconds as real, n as real, p, drop, base);
    if HasPartial(d) {
      assert SplitCount(d) == n + 1;
      assert SplitTime(totalSeconds, d, drop, n) == (base - n as real * drop) * p;
    } else {
      assert SplitCount(d) == n;
    }
  }

  /** The number of splits: one per whole unit plus one for a remainder above the threshold. */
  lemma SplitCountExamples()
    ensures SplitCount(3.0) == 3 && SplitCount(3.1) == 4
    ensures SplitCount(3.0005) == 3 && SplitCount(0.5) == 1
  {
    assert FullSplits(3.0) == 3 && FullSplits(3.1) == 3;
    assert FullSplits(3.0005) == 3 && FullSplits(0.5) == 0;
  }

  /**
   * A schedule has one entry per split, and none at all when the time is not positive or the
   * distance is at most the threshold.
   */
  lemma PlannedSplitsLength(totalSeconds: int, d: real, drop: real)
    ensures |PlannedSplits(totalSeconds, d, drop)|
         == if totalSeconds > 0 && d > PartialThreshold then SplitCount(d) else 0
  {
    if d > 0.0 && d <= PartialThreshold {
      assert FullSplits(d) == 0;
    }
    if d > PartialThreshold && d < 1.0 {
      assert FullSplits(d) == 0;
    }
  }

  /** The empty-schedule examples: no time, or no distance. */
  lemma EmptyScheduleExamples()
    ensures PlannedSplits(0, 3.0, 5.0) == [] && PlannedSplits(1800, 0.0, 5.0) == []
  {
  }

  /**
   * Every split is one unit long except a last one that carries the remainder, and the split
   * lengths add up to the distance the schedule covers.
   */
  lemma {:induction false} SplitDistances(d: real, k: nat)
    requires d > 0.0 && k <= SplitCount(d)
    ensures forall i :: 0 <= i < k ==> SplitDistance(d, i) == 1.0 || (i == FullSplits(d) && HasPartial(d))
    ensures k == SplitCount(d) ==> DistanceSum(d, k) == EffectiveDistance(d)
    ensures k <= FullSplits(d) ==> DistanceSum(d, k) == k as real
  {
    if k > 0 {
      SplitDistances(d, k - 1);
    }
  }

  /** The length of the first `k` splits. */
  function DistanceSum(d: real, k: nat): real
    requires d > 0.0
  {
    if k == 0 then 0.0 else DistanceSum(d, k - 1) + SplitDistance(d, k - 1)
  }

  /** Each split is `drop` seconds per unit faster than the one before. */
  lemma SplitPaceDrops(totalSeconds: int, d: real, drop: real, i: nat)
    requires d > 0.0 && EffectiveDistance(d) > 0.0
    ensures SplitPace(totalSeconds, d, drop, i) - SplitPace(totalSeconds, d, drop, i + 1) == drop
    ensures SplitPace(totalSeconds, d, drop, i) == SplitPace(totalSeconds, d, drop, 0) - i as real * drop
  {
  }

  /**
   * Between two whole-unit splits, the later one is reported no slower; with no drop they are
   * equal, and with a drop of at least a second it is faster unless both are clamped to one
   * second.
   */
  lemma WholeSplitsDescend(totalSeconds: int, d: real, drop: real, i: nat)
    requires d > 0.0 && totalSeconds > 0 && i + 1 < FullSplits(d)
    ensures EffectiveDistance(d) > 0.0
    ensures drop == 0.0 ==> PlannedSplits(totalSeconds, d, drop)[i] == PlannedSplits(totalSeconds, d, drop)[i + 1]
    ensures drop >= 1.0 ==>
              var s := PlannedSplits(totalSeconds, d, drop);
              s[i + 1].seconds <= s[i].seconds && (s[i].seconds > 1 ==> s[i + 1].seconds < s[i].seconds)
  {
    var t0, t1 := SplitTime(totalSeconds, d, drop, i), SplitTime(totalSeconds, d, drop, i + 1);
    WholeSplitAt(totalSeconds, d, drop, i);
    WholeSplitAt(totalSeconds, d, drop, i + 1);
    WholeSplitStep(totalSeconds, d, drop, i);
    if drop >= 1.0 {
      RoundSeparates(t1, t0);
    }
  }

  /** Consecutive whole-unit splits differ in unrounded time by exactly the drop. */
  lemma WholeSplitStep(totalSeconds: int, d: real, drop: real, i: nat)
    requires d > 0.0 && EffectiveDistance(d) > 0.0 && i + 1 < FullSplits(d)
    ensures SplitTime(totalSeconds, d, drop, i + 1) == SplitTime(totalSeconds, d, drop, i) - drop
  {
    WholeSplitDistance(d, i);
    WholeSplitDistance(d, i + 1);
    var base := BasePace(totalSeconds, d, drop);
    assert (i + 1) as real * drop == i as real * drop + drop;
  }

  /** A whole-unit split is one unit long and takes its rounded time, at least a second. */
  lemma WholeSplitAt(totalSeconds: int, d: real, drop: real, i: nat)
    requires d > 0.0 && totalSeconds > 0 && i < FullSplits(d)
    ensures EffectiveDistance(d) > 0.0 && i < |PlannedSplits(totalSeconds, d, drop)|
    ensures PlannedSplits(totalSeconds, d, drop)[i] == Split(1.0, Max(Round(SplitTime(totalSeconds, d, drop, i)), 1))
  {
    WholeSplitDistance(d, i);
    assert PlannedSplits(totalSeconds, d, drop)[i] == SplitAt(totalSeconds, d, drop, i);
  }

  /** The three-mile example: 30 minutes with a 5-second drop is 10:05, 10:00, 9:55. */
  lemma FiveSecondDropExample()
    ensures PlannedSplits(1800, 3.0, 5.0) == [Split(1.0, 605), Split(1.0, 600), Split(1.0, 595)]
  {
    assert FullSplits(3.0) == 3 && !HasPartial(3.0);
    assert BasePace(1800, 3.0, 5.0) == 605.0;
    RoundOfInt(605);
    RoundOfInt(600);
    RoundOfInt(595);
    assert SplitTime(1800, 3.0, 5.0, 1) == 600.0;
    assert SplitTime(1800, 3.0, 5.0, 2) == 595.0;
  }

  /** The seconds a schedule reports, added up. */
  function ReportedSeconds(splits: seq<Split>): int {
    if splits == [] then 0 else ReportedSeconds(splits[..|splits| - 1]) + splits[|splits| - 1].seconds
  }

  /**
   * When no split is clamped to one second (each takes at least half a second), the reported
   * seconds of the first `k` splits are within half a second per split of their unrounded time.
   */
  lemma {:induction false} ReportedCloseToSchedule(totalSeconds: int, d: real, drop: real, k: nat)
    requires d > PartialThreshold && totalSeconds > 0 && k <= SplitCount(d)
    requires EffectiveDistance(d) > 0.0
    requires forall i :: 0 <= i < k ==> SplitTime(totalSeconds, d, drop, i) >= 0.5
    ensures |PlannedSplits(totalSeconds, d, drop)| == SplitCount(d)
    ensures Abs(ReportedSeconds(PlannedSplits(totalSeconds, d, drop)[..k]) as real
                - ScheduleTime(totalSeconds, d, drop, k)) <= k as real / 2.0
  {
    var s := PlannedSplits(totalSeconds, d, drop);
    PlannedSplitsLength(totalSeconds, d, drop);
    if k > 0 {
      ReportedCloseToSchedule(totalSeconds, d, drop, k - 1);
      assert s[..k][..k - 1] == s[..k - 1];
      var t := SplitTime(totalSeconds, d, drop, k - 1);
      assert s[k - 1].seconds == Max(Round(t), 1);
      assert Round(t) >= 1;
    }
  }

  /**
   * The reported schedule adds up to the target time to within half a second per split, as
   * long as no split is clamped to one second.
   */
  lemma ReportedTotal(totalSeconds: int, d: real, drop: real)
    requires d > PartialThreshold && totalSeconds > 0 && EffectiveDistance(d) > 0.0
    requires forall i :: 0 <= i < SplitCount(d) ==> SplitTime(totalSeconds, d, drop, i) >= 0.5
    ensures Abs(ReportedSeconds(PlannedSplits(totalSeconds, d, drop)) as real - totalSeconds as real)
         <= SplitCount(d) as real / 2.0
  {
    var s := PlannedSplits(totalSeconds, d, drop);
    ReportedCloseToSchedule(totalSeconds, d, drop, SplitCount(d));
    assert s[..SplitCount(d)] == s;
    ScheduleAddsUp(totalSeconds, d, drop);
  }
}
