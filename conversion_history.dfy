/**
 * The conversion history: the most recent conversions first, at most 20 of them. A
 * conversion whose input or result is blank is not recorded; the same conversion recorded
 * twice is kept twice. Each record carries an identifier from a counter where the app draws
 * a fresh UUID, and the date it was recorded is not modelled.
 */
module ConversionHistory {
  import opened Text

  /** `ConversionRecord` without its date. */
  datatype Record = Record(id: nat, input: string, inputSuffix: string, result: string, resultSuffix: string)

  /** `maxRecords`. */
  const MaxRecords: nat := 20

  /**
   * The guard of `add`: both the result and the input keep something after trimming spaces
   * and tabs, that is, each holds a character that is not whitespace.
   */
  function Accepts(input: string, result: string): (b: bool)
    ensures b <==> ((exists k :: 0 <= k < |result| && !IsWhitespace(result[k]))
                    && (exists k :: 0 <= k < |input| && !IsWhitespace(input[k])))
  {
    TrimBlank(result);
    TrimBlank(input);
    Trim(result) != [] && Trim(input) != []
  }

  /** No identifier is carried by two records. */
  predicate DistinctIds(records: seq<Record>) {
    forall i, j :: 0 <= i < |records| && 0 <= j < |records| && i != j ==> records[i].id != records[j].id
  }

  /** Every identifier in the list was handed out before `nextId`. */
  predicate IdsBelow(records: seq<Record>, nextId: nat) {
    forall i :: 0 <= i < |records| ==> records[i].id < nextId
  }

  /**
   * The records after `add`: unchanged when the guard refuses; otherwise the new record in
   * front, followed by the earlier records in their order, at most 20 in all.
   */
  function Recorded(records: seq<Record>, id: nat, input: string, inputSuffix: string, result: string, resultSuffix: string): (r: seq<Record>)
    ensures !Accepts(input, result) ==> r == records
    ensures Accepts(input, result) ==>
              1 <= |r| <= MaxRecords && |r| <= |records| + 1 && r[0] == Record(id, input, inputSuffix, result, resultSuffix)
  {
    if !Accepts(input, result) then records
    else
      var all := [Record(id, input, inputSuffix, result, resultSuffix)] + records;
      if |all| > MaxRecords then all[..MaxRecords] else all
  }

  class ConversionHistory {
    var records: seq<Record>
    /** Where the next identifier comes from. */
    var nextId: nat

    ghost predicate Valid()
      reads this
    {
      |records| <= MaxRecords && DistinctIds(records) && IdsBelow(records, nextId)
    }

    /** A history that starts empty (what it would load from storage is not modelled). */
    constructor()
      ensures Valid() && records == []
    {
      records := [];
      nextId := 0;
    }

    /** `add`: records the conversion in front unless its input or result is blank, and keeps the newest 20. */
    method Add(input: string, inputSuffix: string, result: string, resultSuffix: string)
      requires Valid()
      modifies this
      ensures Valid()
      ensures records == Recorded(old(records), old(nextId), input, inputSuffix, result, resultSuffix)
      ensures nextId == if Accepts(input, result) then old(nextId) + 1 else old(nextId)
    {
      var trimmed := Trim(result);
      if trimmed == [] || Trim(input) == [] {
        return;
      }
      RecordedValid(records, nextId, input, inputSuffix, result, resultSuffix);
      ghost var recorded := Recorded(records, nextId, input, inputSuffix, result, resultSuffix);
      assert Accepts(input, result);
      assert |recorded| <= MaxRecords && DistinctIds(recorded) && IdsBelow(recorded, nextId + 1);
      var record := Record(nextId, input, inputSuffix, result, resultSuffix);
      records := [record] + records;
      if |records| > MaxRecords {
        records := records[..MaxRecords];
      }
      assert records == recorded;
      nextId := nextId + 1;
    }

    /** `clear`: no records left. */
    method Clear()
      requires Valid()
      modifies this
      ensures Valid() && records == [] && nextId == old(nextId)
    {
      records := [];
    }
  }

  // ---------------------------------------------------------------------------
  // What recording promises

  /** A conversion whose result or input is nothing but spaces and tabs leaves the history as it was. */
  lemma RecordedBlank(records: seq<Record>, id: nat, input: string, inputSuffix: string, result: string, resultSuffix: string)
    requires (forall k :: 0 <= k < |result| ==> IsWhitespace(result[k]))
          || (forall k :: 0 <= k < |input| ==> IsWhitespace(input[k]))
    ensures Recorded(records, id, input, inputSuffix, result, resultSuffix) == records
  {
    TrimBlank(result);
    TrimBlank(input);
  }

  /**
   * An accepted conversion becomes the first record, carrying exactly the four strings, and the
   * earlier records follow it in their order: all of them, or all but the oldest when there were
   * already 20.
   */
  lemma RecordedFront(records: seq<Record>, id: nat, input: string, inputSuffix: string, result: string, resultSuffix: string)
    requires |records| <= MaxRecords && Accepts(input, result)
    ensures var r := Recorded(records, id, input, inputSuffix, result, resultSuffix);
            && |r| == (if |records| < MaxRecords then |records| + 1 else MaxRecords)
            && r[0] == Record(id, input, inputSuffix, result, resultSuffix)
            && r[1..] == (if |records| < MaxRecords then records else records[..MaxRecords - 1])
  {
    var all := [Record(id, input, inputSuffix, result, resultSuffix)] + records;
    assert all[1..] == records;
    if |all| > MaxRecords {
      assert all[..MaxRecords][1..] == all[1..MaxRecords];
    }
  }

  /** Recording keeps a history of at most 20 valid; an accepted record uses up the identifier. */
  lemma RecordedValid(records: seq<Record>, nextId: nat, input: string, inputSuffix: string, result: string, resultSuffix: string)
    requires |records| <= MaxRecords && DistinctIds(records) && IdsBelow(records, nextId)
    ensures var r := Recorded(records, nextId, input, inputSuffix, result, resultSuffix);
            var next := if Accepts(input, result) then nextId + 1 else nextId;
            |r| <= MaxRecords && DistinctIds(r) && IdsBelow(r, next)
  {
    if Accepts(input, result) {
      FrontValid(records, Record(nextId, input, inputSuffix, result, resultSuffix), nextId);
    }
  }

  /** A record with a fresh identifier put in front of a valid history, then cut to 20, gives a valid history. */
  lemma FrontValid(records: seq<Record>, record: Record, nextId: nat)
    requires DistinctIds(records) && IdsBelow(records, nextId) && record.id == nextId
    ensures var all := [record] + records;
            var r := if |all| > MaxRecords then all[..MaxRecords] else all;
            |r| <= MaxRecords && DistinctIds(r) && IdsBelow(r, nextId + 1)
  {
    var all := [record] + records;
    assert forall i :: 1 <= i < |all| ==> all[i] == records[i - 1];
    assert DistinctIds(all);
  }

  /** On a full history an accepted conversion pushes out the oldest record and no other. */
  lemma OverflowDropsOldest(records: seq<Record>, nextId: nat, input: string, inputSuffix: string, result: string, resultSuffix: string)
    requires |records| == MaxRecords && DistinctIds(records) && IdsBelow(records, nextId)
    requires Accepts(input, result)
    ensures var r := Recorded(records, nextId, input, inputSuffix, result, resultSuffix);
            && records[MaxRecords - 1] !in r
            && forall i :: 0 <= i < MaxRecords - 1 ==> records[i] in r
  {
    RecordedFront(records, nextId, input, inputSuffix, result, resultSuffix);
    var r := Recorded(records, nextId, input, inputSuffix, result, resultSuffix);
    var oldest := records[MaxRecords - 1];
    assert r[1..] == records[..MaxRecords - 1];
    forall k | 0 <= k < |r|
      ensures r[k] != oldest
    {
      if k == 0 {
        assert r[k].id == nextId > oldest.id;
      } else {
        assert r[k] == r[1..][k - 1] == records[k - 1];
        assert records[k - 1].id != oldest.id;
      }
    }
    forall i | 0 <= i < MaxRecords - 1
      ensures records[i] in r
    {
      assert r[i + 1] == r[1..][i] == records[i];
    }
  }

  /** Nothing is merged: the same accepted conversion recorded twice fills the first two places. */
  lemma RecordedTwiceKeepsBoth(records: seq<Record>, id: nat, input: string, inputSuffix: string, result: string, resultSuffix: string)
    requires |records| <= MaxRecords && Accepts(input, result)
    ensures var twice := Recorded(Recorded(records, id, input, inputSuffix, result, resultSuffix),
                                  id + 1, input, inputSuffix, result, resultSuffix);
            && |twice| == (if |records| + 2 <= MaxRecords then |records| + 2 else MaxRecords)
            && twice[0] == Record(id + 1, input, inputSuffix, result, resultSuffix)
            && twice[1] == Record(id, input, inputSuffix, result, resultSuffix)
  {
    var once := Recorded(records, id, input, inputSuffix, result, resultSuffix);
    RecordedFront(records, id, input, inputSuffix, result, resultSuffix);
    RecordedFront(once, id + 1, input, inputSuffix, result, resultSuffix);
    var twice := Recorded(once, id + 1, input, inputSuffix, result, resultSuffix);
    assert twice[1] == twice[1..][0];
  }

  /** "8:30" /mi = "7.06" MPH is recorded. */
  lemma RecordedExample()
    ensures Recorded([], 0, "8:30", "/mi", "7.06", "MPH") == [Record(0, "8:30", "/mi", "7.06", "MPH")]
  {
    TrimNoWhitespace("8:30");
    TrimNoWhitespace("7.06");
  }

  /** A blank result is not recorded. */
  lemma BlankResultExample()
    ensures Recorded([], 0, "8:30", "/mi", "", "MPH") == []
  {
    assert Trim("") == [];
  }

  /** An input of spaces is not recorded. */
  lemma BlankInputExample()
    ensures Recorded([], 0, "  ", "/mi", "7.06", "MPH") == []
  {
    RecordedBlank([], 0, "  ", "/mi", "7.06", "MPH");
  }
}
