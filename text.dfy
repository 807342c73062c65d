/**
 * The string handling the app borrows from Swift and Foundation: whitespace trimming,
 * `split(separator:)`, decimal rendering of integers and the `Int(String)` and
 * `Double(String)` parsers, restricted to ASCII digits.
 */
module Text {
  import opened Wrappers

  /** `Character.isNumber`, restricted to the ASCII digits. */
  predicate IsDigit(c: char) {
    '0' <= c <= '9'
  }

  predicate AllDigits(s: string) {
    forall i :: 0 <= i < |s| ==> IsDigit(s[i])
  }

  /** Membership in Foundation's `CharacterSet.whitespaces`: the tab and the Unicode space separators. */
  predicate IsWhitespace(c: char) {
    || c == '\t' || c == ' ' || c == '\U{A0}' || c == '\U{1680}'
    || ('\U{2000}' <= c <= '\U{200A}')
    || c == '\U{202F}' || c == '\U{205F}' || c == '\U{3000}'
  }

  predicate NoWhitespace(s: string) {
    forall i :: 0 <= i < |s| ==> !IsWhitespace(s[i])
  }

  /** A digit, a point or, when `colon` holds, a colon: what the numeric entry fields accept. */
  predicate IsNumericChar(c: char, colon: bool) {
    IsDigit(c) || c == '.' || (colon && c == ':')
  }

  predicate AllNumeric(s: string, colon: bool) {
    forall i :: 0 <= i < |s| ==> IsNumericChar(s[i], colon)
  }

  /** Digits are numeric text. */
  lemma DigitsNumeric(s: string, colon: bool)
    requires AllDigits(s)
    ensures AllNumeric(s, colon)
  {
  }

  /** A character that is not a digit does not occur in digit text. */
  lemma DigitsExclude(s: string, c: char)
    requires AllDigits(s) && !IsDigit(c)
    ensures c !in s
  {
  }

  /** A character absent from two texts and from the one joining them is absent from the whole. */
  lemma ExcludeJoin(a: string, d: char, b: string, c: char)
    requires c !in a && c !in b && c != d
    ensures c !in a + [d] + b
  {
  }

  /** A text is numeric exactly when both of its parts are. */
  lemma AllNumericConcat(a: string, b: string, colon: bool)
    ensures AllNumeric(a + b, colon) <==> AllNumeric(a, colon) && AllNumeric(b, colon)
  {
    var s := a + b;
    assert forall i :: 0 <= i < |a| ==> s[i] == a[i];
    assert forall i :: 0 <= i < |b| ==> s[|a| + i] == b[i];
  }

  /** Numeric text holds no whitespace. */
  lemma AllNumericNoWhitespace(s: string, colon: bool)
    requires AllNumeric(s, colon)
    ensures NoWhitespace(s)
  {
  }

  /** `filter { $0.isNumber || $0 == "." }` (with `":"` too when `colon` holds): the allowed characters, in order. */
  function FilterNumeric(s: string, colon: bool): (r: string)
    ensures AllNumeric(r, colon) && |r| <= |s|
  {
    if s == [] then []
    else (if IsNumericChar(s[0], colon) then [s[0]] else []) + FilterNumeric(s[1..], colon)
  }

  /** Filtering a concatenation filters each part: the kept characters stay in their order. */
  lemma {:induction false} FilterNumericConcat(a: string, b: string, colon: bool)
    ensures FilterNumeric(a + b, colon) == FilterNumeric(a, colon) + FilterNumeric(b, colon)
  {
    if a != [] {
      assert (a + b)[1..] == a[1..] + b;
      FilterNumericConcat(a[1..], b, colon);
    } else {
      assert a + b == b;
    }
  }

  /** Each allowed character is kept as often as it occurs, and nothing else is kept. */
  lemma {:induction false} FilterNumericCounts(s: string, colon: bool, c: char)
    ensures multiset(FilterNumeric(s, colon))[c] == if IsNumericChar(c, colon) then multiset(s)[c] else 0
  {
    if s != [] {
      FilterNumericCounts(s[1..], colon, c);
      assert s == [s[0]] + s[1..];
    }
  }

  /** Text made only of allowed characters passes the filter unchanged. */
  lemma {:induction false} FilterNumericKeeps(s: string, colon: bool)
    requires AllNumeric(s, colon)
    ensures FilterNumeric(s, colon) == s
  {
    if s != [] {
      FilterNumericKeeps(s[1..], colon);
    }
  }

  /** Text with no allowed character filters to nothing. */
  lemma {:induction false} FilterNumericNone(s: string, colon: bool)
    requires forall c :: c in s ==> !IsNumericChar(c, colon)
    ensures FilterNumeric(s, colon) == []
  {
    if s != [] {
      assert s[0] in s;
      assert forall c :: c in s[1..] ==> c in s;
      FilterNumericNone(s[1..], colon);
    }
  }

  /** Filtering twice is filtering once. */
  lemma FilterNumericIdempotent(s: string, colon: bool)
    ensures FilterNumeric(FilterNumeric(s, colon), colon) == FilterNumeric(s, colon)
  {
    FilterNumericKeeps(FilterNumeric(s, colon), colon);
  }

  // ---------------------------------------------------------------------------
  // Trimming

  /** Drops the leading whitespace: what is dropped is all whitespace, and what is left does not start with any. */
  function TrimLeft(s: string): (r: string)
    ensures |r| <= |s| && r == s[|s| - |r|..]
    ensures forall k :: 0 <= k < |s| - |r| ==> IsWhitespace(s[k])
    ensures r != [] ==> !IsWhitespace(r[0])
  {
    if s != [] && IsWhitespace(s[0]) then
      var r := TrimLeft(s[1..]);
      assert forall k :: 1 <= k < |s| - |r| ==> s[k] == s[1..][k - 1];
      r
    else s
  }

  /** Drops the trailing whitespace: what is dropped is all whitespace, and what is left does not end with any. */
  function TrimRight(s: string): (r: string)
    ensures |r| <= |s| && r == s[..|r|]
    ensures forall k :: |r| <= k < |s| ==> IsWhitespace(s[k])
    ensures r != [] ==> !IsWhitespace(r[|r| - 1])
  {
    if s != [] && IsWhitespace(s[|s| - 1]) then
      var r := TrimRight(s[..|s| - 1]);
      assert forall k :: |r| <= k < |s| - 1 ==> s[k] == s[..|s| - 1][k];
      r
    else s
  }

  /** `trimmingCharacters(in: .whitespaces)`. */
  function Trim(s: string): (r: string)
    ensures |r| <= |s|
    ensures r != [] ==> !IsWhitespace(r[0]) && !IsWhitespace(r[|r| - 1])
  {
    var l := TrimLeft(s);
    var r := TrimRight(l);
    assert r != [] ==> r[0] == l[0];
    r
  }

  /** Numeric text is left as it is by trimming. */
  lemma NumericTrim(s: string, colon: bool)
    requires AllNumeric(s, colon)
    ensures Trim(s) == s
  {
    AllNumericNoWhitespace(s, colon);
    TrimNoWhitespace(s);
  }

  /** Text without whitespace is left as it is. */
  lemma TrimNoWhitespace(s: string)
    requires NoWhitespace(s)
    ensures Trim(s) == s
  {
    assert TrimLeft(s) == s;
  }

  /** Text that neither starts nor ends with whitespace is left as it is. */
  lemma TrimEnds(s: string)
    requires s != [] && !IsWhitespace(s[0]) && !IsWhitespace(s[|s| - 1])
    ensures Trim(s) == s
  {
    assert TrimLeft(s) == s;
    assert TrimRight(s) == s;
  }

  /** Trimming leaves nothing exactly when the text is blank. */
  lemma TrimBlank(s: string)
    ensures Trim(s) == [] <==> forall k :: 0 <= k < |s| ==> IsWhitespace(s[k])
  {
    var l := TrimLeft(s);
    if Trim(s) == [] {
      assert l == [];
    }
  }

  /** Trimming keeps a stretch of the text: every character left was in the text. */
  lemma TrimWithin(s: string)
    ensures forall c :: c in Trim(s) ==> c in s
  {
    var l := TrimLeft(s);
    assert forall c :: c in l ==> c in s;
    var r := TrimRight(l);
    assert forall c :: c in r ==> c in l;
  }

  /** Trimming twice is trimming once. */
  lemma TrimIdempotent(s: string)
    ensures Trim(Trim(s)) == Trim(s)
  {
    var r := Trim(s);
    if r != [] {
      assert TrimLeft(r) == r;
      assert TrimRight(r) == r;
    }
  }

  // ---------------------------------------------------------------------------
  // Searching and splitting

  /** The index of the first `c` in `s`, or `|s|` when there is none. */
  function IndexOf(s: string, c: char): (k: nat)
    ensures k <= |s|
    ensures k < |s| ==> s[k] == c
    ensures forall i :: 0 <= i < k ==> s[i] != c
  {
    if s == [] || s[0] == c then 0 else 1 + IndexOf(s[1..], c)
  }

  /**
   * `split(separator:)` with its defaults: the pieces between separators, with the
   * empty ones omitted ("1::30" gives "1" and "30").
   */
  function SplitOn(s: string, sep: char): (pieces: seq<string>)
    ensures forall i :: 0 <= i < |pieces| ==> pieces[i] != [] && sep !in pieces[i]
    decreases |s|
  {
    var k := IndexOf(s, sep);
    if k == |s| then
      (if s == [] then [] else [s])
    else
      (if k == 0 then [] else [s[..k]]) + SplitOn(s[k + 1..], sep)
  }

  /** A non-empty text without the separator is a single piece. */
  lemma SplitOnSingle(a: string, sep: char)
    requires a != [] && sep !in a
    ensures SplitOn(a, sep) == [a]
  {
  }

  /** A non-empty separator-free text followed by the separator splits off as the first piece. */
  lemma SplitOnCons(a: string, sep: char, b: string)
    requires a != [] && sep !in a
    ensures SplitOn(a + [sep] + b, sep) == [a] + SplitOn(b, sep)
  {
    var s := a + [sep] + b;
    assert s[|a|] == sep;
    assert forall i :: 0 <= i < |a| ==> s[i] == a[i];
    assert IndexOf(s, sep) == |a|;
    assert s[..|a|] == a;
    assert s[|a| + 1..] == b;
  }

  /**
   * `split(separator:, maxSplits: 1)`: leading separators are skipped, the first non-empty
   * piece is cut at the next separator, and whatever follows that separator, if anything,
   * is the second piece, uncut ("8::30" gives "8" and ":30"; ":30" gives "30").
   */
  function SplitOnce(s: string, sep: char): (pieces: seq<string>)
    ensures |pieces| <= 2
    ensures forall i :: 0 <= i < |pieces| ==> pieces[i] != []
    ensures |pieces| >= 1 ==> sep !in pieces[0]
    ensures pieces == [] <==> forall i :: 0 <= i < |s| ==> s[i] == sep
  {
    if s == [] then []
    else if s[0] == sep then
      var r := SplitOnce(s[1..], sep);
      assert forall i :: 1 <= i < |s| ==> s[i] == s[1..][i - 1];
      r
    else
      var k := IndexOf(s, sep);
      if k == |s| then [s]
      else if k + 1 == |s| then [s[..k]]
      else [s[..k], s[k + 1..]]
  }

  /** A non-empty text without the separator is left whole. */
  lemma SplitOnceSingle(a: string, sep: char)
    requires a != [] && sep !in a
    ensures SplitOnce(a, sep) == [a]
  {
    assert a[0] != sep;
    assert IndexOf(a, sep) == |a|;
  }

  /** Leading separators are skipped. */
  lemma SplitOnceLeading(a: string, sep: char)
    ensures SplitOnce([sep] + a, sep) == SplitOnce(a, sep)
  {
    assert ([sep] + a)[1..] == a;
  }

  /** A leading piece, the separator and a non-empty rest split into exactly those two pieces. */
  lemma SplitOncePair(a: string, sep: char, b: string)
    requires a != [] && sep !in a && b != []
    ensures SplitOnce(a + [sep] + b, sep) == [a, b]
  {
    var s := a + [sep] + b;
    assert s[0] == a[0];
    assert s[|a|] == sep;
    assert forall i :: 0 <= i < |a| ==> s[i] == a[i];
    assert IndexOf(s, sep) == |a|;
    assert s[..|a|] == a;
    assert s[|a| + 1..] == b;
  }

  /** `uppercased()` on ASCII text: each lower-case letter becomes its capital, other characters stay. */
  function Uppercased(s: string): (r: string)
    ensures |r| == |s|
    ensures forall i :: 0 <= i < |s| ==> ('a' <= s[i] <= 'z' ==> r[i] as int == s[i] as int - 32)
    ensures forall i :: 0 <= i < |s| ==> (!('a' <= s[i] <= 'z') ==> r[i] == s[i])
  {
    if s == [] then []
    else [if 'a' <= s[0] <= 'z' then (s[0] as int - 32) as char else s[0]] + Uppercased(s[1..])
  }

  // ---------------------------------------------------------------------------
  // Digits

  function DigitValue(c: char): (d: nat)
    requires IsDigit(c)
    ensures d < 10
  {
    c as int - '0' as int
  }

  function DigitChar(d: nat): (c: char)
    requires d < 10
    ensures IsDigit(c) && DigitValue(c) == d
  {
    ('0' as int + d) as char
  }

  /** The number a string of decimal digits denotes, most significant digit first. */
  function DigitsValue(s: string): nat
    requires AllDigits(s)
  {
    if s == [] then 0 else DigitsValue(s[..|s| - 1]) * 10 + DigitValue(s[|s| - 1])
  }

  function Pow10(k: nat): (p: nat)
    ensures p >= 1
  {
    if k == 0 then 1 else 10 * Pow10(k - 1)
  }

  /** Digit strings stay digit strings when joined. */
  lemma AllDigitsConcat(a: string, b: string)
    requires AllDigits(a) && AllDigits(b)
    ensures AllDigits(a + b)
  {
    var s := a + b;
    forall i | 0 <= i < |s| ensures IsDigit(s[i]) {
      if i < |a| { assert s[i] == a[i]; } else { assert s[i] == b[i - |a|]; }
    }
  }

  /** Shifting a number with a tail appended: (x·p + y)·10 + d = x·(10p) + (10y + d). */
  lemma ShiftDigit(x: int, p: int, y: int, d: int)
    ensures (x * p + y) * 10 + d == x * (p * 10) + (y * 10 + d)
  {
  }

  /** The value of a concatenation: the digits of `a` shifted left by the length of `b`. */
  lemma {:induction false} DigitsValueAppend(a: string, b: string)
    requires AllDigits(a) && AllDigits(b)
    ensures AllDigits(a + b)
    ensures DigitsValue(a + b) == DigitsValue(a) * Pow10(|b|) + DigitsValue(b)
  {
    AllDigitsConcat(a, b);
    if b == [] {
      assert a + b == a;
    } else {
      var b' := b[..|b| - 1];
      var d := DigitValue(b[|b| - 1]);
      var s := a + b;
      assert s[..|s| - 1] == a + b';
      assert s[|s| - 1] == b[|b| - 1];
      DigitsValueAppend(a, b');
      assert DigitsValue(s) == DigitsValue(a + b') * 10 + d;
      assert DigitsValue(b) == DigitsValue(b') * 10 + d;
      ShiftDigit(DigitsValue(a), Pow10(|b'|), DigitsValue(b'), d);
    }
  }

  /** Decimal rendering of a natural number, as string interpolation writes an `Int`. */
  function NatToString(n: nat): (s: string)
    ensures s != [] && AllDigits(s)
    ensures DigitsValue(s) == n
    ensures |s| == 1 <==> n < 10
    ensures n < 100 ==> |s| <= 2
    decreases n
  {
    if n < 10 then
      [DigitChar(n)]
    else
      var t := NatToString(n / 10);
      var s := t + [DigitChar(n % 10)];
      assert s[..|s| - 1] == t;
      s
  }

  /** `String(format: "%02d", n)`: at least two digits, padded with a leading zero. */
  function TwoDigits(n: nat): (s: string)
    ensures AllDigits(s) && DigitsValue(s) == n
    ensures n < 100 ==> |s| == 2
  {
    if n < 10 then
      DigitsValueAppend("0", NatToString(n));
      "0" + NatToString(n)
    else
      assert n < 100 ==> |NatToString(n / 10)| == 1;
      NatToString(n)
  }

  // ---------------------------------------------------------------------------
  // Parsing numbers

  /** The least and the greatest value of Swift's `Int` on a 64-bit platform. */
  const IntMin: int := -0x8000_0000_0000_0000
  const IntMax: int := 0x7FFF_FFFF_FFFF_FFFF

  /**
   * `Int(String)`: an optional sign followed by at least one decimal digit, denoting a value
   * that fits in 64 bits; anything else, including digit text beyond that range, is refused.
   */
  function ParseInt(s: string): (r: Option<int>)
    ensures r.Some? ==> s != [] && IntMin <= r.value <= IntMax
    ensures r.Some? && r.value < 0 ==> s[0] == '-'
  {
    var v: Option<int> :=
      if s != [] && (s[0] == '+' || s[0] == '-') then
        var digits := s[1..];
        if digits != [] && AllDigits(digits) then
          Some(if s[0] == '-' then -(DigitsValue(digits) as int) else DigitsValue(digits))
        else None
      else if s != [] && AllDigits(s) then Some(DigitsValue(s))
      else None;
    if v.Some? && IntMin <= v.value <= IntMax then v else None
  }

  /** Digits without a sign read back as their value, unless that is beyond 64 bits. */
  lemma ParseIntDigits(s: string)
    requires s != [] && AllDigits(s)
    ensures ParseInt(s) == if DigitsValue(s) <= IntMax then Some(DigitsValue(s) as int) else None
  {
    assert IsDigit(s[0]);
  }

  /** A digit string without a leading zero is at least the power of ten just below its length. */
  lemma {:induction false} DigitsValueAtLeast(s: string)
    requires s != [] && AllDigits(s) && s[0] != '0'
    ensures DigitsValue(s) >= Pow10(|s| - 1)
  {
    if |s| > 1 {
      var t := s[..|s| - 1];
      assert t[0] == s[0];
      DigitsValueAtLeast(t);
    }
  }

  /** Twenty digits or more without a leading zero are beyond 64 bits: `Int` refuses them. */
  lemma ParseIntTooLong(s: string)
    requires |s| >= 20 && AllDigits(s) && s[0] != '0'
    ensures ParseInt(s) == None
  {
    DigitsValueAtLeast(s);
    Pow10Grows(19, |s| - 1);
    assert Pow10(5) == 100000;
    assert Pow10(10) == 10 * 10 * 10 * 10 * 10 * Pow10(5);
    assert Pow10(15) == 10 * 10 * 10 * 10 * 10 * Pow10(10);
    assert Pow10(19) == 10 * 10 * 10 * 10 * Pow10(15);
    ParseIntDigits(s);
  }

  /** Powers of ten grow with the exponent. */
  lemma {:induction false} Pow10Grows(j: nat, k: nat)
    requires j <= k
    ensures Pow10(j) <= Pow10(k)
  {
    if j < k {
      Pow10Grows(j, k - 1);
    }
  }

  /**
   * `Double(String)` on text made of digits and at most one point, with at least one digit
   * ("8", "8.5", ".5", "5."); the value is exact. Any other text is refused.
   */
  function ParseDecimal(s: string): (r: Option<real>)
    ensures r.Some? ==> r.value >= 0.0
    ensures r.Some? ==> s != []
  {
    var k := IndexOf(s, '.');
    var whole := s[..k];
    var frac := if k < |s| then s[k + 1..] else [];
    if AllDigits(whole) && AllDigits(frac) && |whole| + |frac| > 0 then
      Some(DigitsValue(whole) as real + DigitsValue(frac) as real / Pow10(|frac|) as real)
    else None
  }

  /** Text holding a colon does not read as a number. */
  lemma ParseDecimalColon(s: string)
    requires ':' in s
    ensures ParseDecimal(s) == None
  {
    var k := IndexOf(s, '.');
    var i :| 0 <= i < |s| && s[i] == ':';
    if i < k {
      assert s[..k][i] == ':';
    } else {
      assert s[k + 1..][i - k - 1] == ':';
    }
  }

  /** A digit string reads back as the whole number it denotes. */
  lemma ParseDecimalDigits(s: string)
    requires s != [] && AllDigits(s)
    ensures ParseDecimal(s) == Some(DigitsValue(s) as real)
  {
    assert IndexOf(s, '.') == |s|;
    assert s[..|s|] == s;
  }

  /** Digits, a point and more digits read back as the decimal number they denote. */
  lemma {:induction false} ParseDecimalPoint(a: string, b: string)
    requires AllDigits(a) && AllDigits(b) && a != []
    ensures ParseDecimal(a + "." + b)
         == Some(DigitsValue(a) as real + DigitsValue(b) as real / Pow10(|b|) as real)
  {
    var s := a + "." + b;
    assert s[|a|] == '.';
    forall i | 0 <= i < |a| ensures s[i] != '.' {
      assert s[i] == a[i];
    }
    var k := IndexOf(s, '.');
    assert k == |a|;
    assert s[..k] == a;
    assert s[k + 1..] == b;
  }

  /** Digits, a point and more digits read back as any value equal to the one they denote. */
  lemma {:induction false} ParseDecimalPointValue(a: string, b: string, v: real)
    requires AllDigits(a) && AllDigits(b) && a != []
    requires v == DigitsValue(a) as real + DigitsValue(b) as real / Pow10(|b|) as real
    ensures ParseDecimal(a + "." + b) == Some(v)
  {
    ParseDecimalPoint(a, b);
  }

}
