/**
  The record helpers of `PtDatabase` that do not talk to MySQL: the numeric
  native ID of an activity, its Point coordinates, the fixed matching-rule
  values of Rehydration, and the quoting-character scrub applied before text
  goes into SQL.
 */
module DatabaseHelpers {
  import opened RubyString
  import opened Wrappers

  // ---------------------------------------------------------------------------
  // getNativeID

  /** Why `getNativeID` raises instead of returning a number. */
  datatype NativeIdError =
    | NoField                  // `split(":")` gave no field, so `[-1]` is nil (TypeError)
    | NotAnInteger(text: string) // `Integer()` rejects the last field (ArgumentError)

  datatype Result<T> = Ok(value: T) | Err(error: NativeIdError)

  /** The value of a digit character in bases up to 36; 36 for anything else. */
  function DigitValue(c: char): (v: nat)
    ensures v <= 36
    ensures IsDigit(c) ==> v == c as int - '0' as int
  {
    if '0' <= c <= '9' then c as int - '0' as int
    else if 'a' <= c <= 'z' then c as int - 'a' as int + 10
    else if 'A' <= c <= 'Z' then c as int - 'A' as int + 10
    else 36
  }

  /** The number a non-empty run of digits of this base spells, most significant first. */
  function ValueOf(s: string, base: nat): nat
    decreases |s|
  {
    if s == [] then 0 else ValueOf(s[..|s| - 1], base) * base + DigitValue(s[|s| - 1])
  }

  /** The run is non-empty and every character is a digit of the base. */
  predicate DigitsOf(s: string, base: nat) {
    s != [] && forall k :: 0 <= k < |s| ==> DigitValue(s[k]) < base
  }

  /** The value of the run in this base, or None when it is empty or holds a non-digit. */
  function ReadDigits(s: string, base: nat): Option<nat> {
    if DigitsOf(s, base) then Some(ValueOf(s, base)) else None
  }

  /**
    The base of the unsigned part `Integer()` accepts, and where its digits
    start: a 0x, 0b, 0o or 0d prefix (either case) selects the base; a leading
    0 followed by more characters means octal; otherwise decimal.
   */
  function Radix(s: string): (r: (nat, nat))
    ensures r.1 <= |s|
    ensures r.0 in {2, 8, 10, 16}
  {
    if |s| >= 2 && s[0] == '0' then
      if s[1] == 'x' || s[1] == 'X' then (16, 2)
      else if s[1] == 'b' || s[1] == 'B' then (2, 2)
      else if s[1] == 'o' || s[1] == 'O' then (8, 2)
      else if s[1] == 'd' || s[1] == 'D' then (10, 2)
      else (8, 1)
    else (10, 0)
  }

  function ParseUnsigned(s: string): Option<nat> {
    var (base, start) := Radix(s);
    ReadDigits(s[start..], base)
  }

  function TrimLeft(s: string): string {
    if s != [] && IsSpace(s[0]) then TrimLeft(s[1..]) else s
  }

  function TrimRight(s: string): string {
    if s != [] && IsSpace(s[|s| - 1]) then TrimRight(s[..|s| - 1]) else s
  }

  /** Leading whitespace is dropped and nothing else: the rest of the text, not starting with whitespace. */
  lemma {:induction false} TrimLeftSuffix(s: string)
    ensures |TrimLeft(s)| <= |s| && TrimLeft(s) == s[|s| - |TrimLeft(s)|..]
    ensures TrimLeft(s) != [] ==> !IsSpace(TrimLeft(s)[0])
    ensures forall k :: 0 <= k < |s| - |TrimLeft(s)| ==> IsSpace(s[k])
  {
    if s != [] && IsSpace(s[0]) {
      TrimLeftSuffix(s[1..]);
      assert forall k :: 1 <= k < |s| - |TrimLeft(s)| ==> s[k] == s[1..][k - 1];
    }
  }

  /** Trailing whitespace is dropped and nothing else: a prefix of the text, not ending in whitespace. */
  lemma {:induction false} TrimRightPrefix(s: string)
    ensures TrimRight(s) <= s
    ensures TrimRight(s) != [] ==> !IsSpace(TrimRight(s)[|TrimRight(s)| - 1])
    ensures forall k :: |TrimRight(s)| <= k < |s| ==> IsSpace(s[k])
  {
    if s != [] && IsSpace(s[|s| - 1]) {
      TrimRightPrefix(s[..|s| - 1]);
    }
  }

  /** Text that neither starts nor ends with whitespace is left alone by the trimming. */
  lemma TrimNothing(t: string)
    requires t != [] && !IsSpace(t[0]) && !IsSpace(t[|t| - 1])
    ensures TrimRight(TrimLeft(t)) == t
  {
  }

  /** The unsigned reading as an integer, negated when a minus sign came first. */
  function WithSign(negative: bool, o: Option<nat>): Option<int>
  {
    match o
    case Some(n) => Some(if negative then -(n as int) else n as int)
    case None => None
  }

  /** Trimmed text: an optional sign, then what `ParseUnsigned` accepts. */
  function ParseSigned(t: string): Option<int> {
    if t != [] && (t[0] == '-' || t[0] == '+') then WithSign(t[0] == '-', ParseUnsigned(t[1..]))
    else WithSign(false, ParseUnsigned(t))
  }

  /** `Integer(text)`: surrounding whitespace ignored, then an optional sign. */
  function ParseInteger(text: string): Option<int> {
    ParseSigned(TrimRight(TrimLeft(text)))
  }

  /** Trimmed text without a sign reads as what `ParseUnsigned` gives. */
  lemma ParseIntegerPlain(t: string, v: nat)
    requires TrimRight(TrimLeft(t)) == t && t != [] && t[0] != '-' && t[0] != '+'
    requires ParseUnsigned(t) == Some(v)
    ensures ParseInteger(t) == Some(v)
  {
    assert ParseSigned(t) == WithSign(false, ParseUnsigned(t));
  }

  /** Trimmed text with a minus sign reads as the negated number after the sign. */
  lemma ParseIntegerMinus(t: string, v: nat)
    requires TrimRight(TrimLeft(t)) == t && t != [] && t[0] == '-'
    requires ParseUnsigned(t[1..]) == Some(v)
    ensures ParseInteger(t) == Some(-(v as int))
  {
    assert ParseSigned(t) == WithSign(true, ParseUnsigned(t[1..]));
  }

  /** `getNativeID`: `Integer(id.split(":")[-1])`. */
  function GetNativeID(id: string): (r: Result<int>)
    ensures r == Err(NoField) <==> Split(id, Char(':')) == []
  {
    var fields := Split(id, Char(':'));
    if fields == [] then Err(NoField)
    else
      var last := fields[|fields| - 1];
      match ParseInteger(last)
      case Some(n) => Ok(n)
      case None => Err(NotAnInteger(last))
  }

  /** The decimal text of a number, without leading zeros. */
  function DecimalString(n: nat): (s: string)
    ensures s != [] && AllDigits(s)
    ensures |s| > 1 ==> s[0] != '0'
  {
    var last := ('0' as int + n % 10) as char;
    if n < 10 then [last] else DecimalString(n / 10) + [last]
  }

  lemma {:induction false} DecimalStringValue(n: nat)
    ensures ValueOf(DecimalString(n), 10) == n
    ensures DigitsOf(DecimalString(n), 10)
  {
    var s := DecimalString(n);
    if n >= 10 {
      DecimalStringValue(n / 10);
      assert s[..|s| - 1] == DecimalString(n / 10);
    }
  }

  lemma DecimalStringUnsigned(n: nat)
    ensures ParseUnsigned(DecimalString(n)) == Some(n)
  {
    var s := DecimalString(n);
    DecimalStringValue(n);
    assert Radix(s) == (10, 0) && s[0..] == s;
  }

  /** No whitespace, no sign, no prefix: the decimal text of n reads back as n. */
  lemma DecimalStringParses(n: nat)
    ensures ParseInteger(DecimalString(n)) == Some(n)
  {
    var s := DecimalString(n);
    assert IsDigit(s[0]) && IsDigit(s[|s| - 1]);
    TrimNothing(s);
    DecimalStringUnsigned(n);
    ParseIntegerPlain(s, n);
  }

  /**
    The documented ID form `tag:search.twitter.com,2005:<n>`: whatever comes
    before the last ':', the native ID is the number after it.
   */
  lemma NativeIdAfterLastColon(prefix: string, n: nat)
    ensures GetNativeID(prefix + ":" + DecimalString(n)) == Ok(n)
  {
    var d := DecimalString(n);
    assert NoSeparator(d, Char(':')) by {
      forall k | 0 <= k < |d| ensures d[k] != ':' {
        assert IsDigit(d[k]);
      }
    }
    SplitLast(prefix, ':', d);
    DecimalStringParses(n);
  }

  /** `split` drops trailing empty fields, so a trailing ':' does not hide the number before it. */
  lemma NativeIdIgnoresTrailingColon(prefix: string, n: nat)
    ensures GetNativeID(prefix + ":" + DecimalString(n) + ":") == Ok(n)
  {
    var d := DecimalString(n);
    var c := Char(':');
    assert NoSeparator(d, c) by {
      forall k | 0 <= k < |d| ensures d[k] != ':' {
        assert IsDigit(d[k]);
      }
    }
    assert prefix + ":" + d + ":" == prefix + [':'] + (d + [':']);
    FieldsAppend(d, ':', [], c);
    FieldsOfPlain(d, c);
    assert Fields([], c) == [[]];
    assert d + [':'] + [] == d + [':'];
    assert Fields(d + [':'], c) == [d, []];
    FieldsAppend(prefix, ':', d + [':'], c);
    var fs := Fields(prefix + ":" + d + ":", c);
    assert fs == Fields(prefix, c) + [d, []];
    assert DropTrailingEmpty(fs) == Fields(prefix, c) + [d];
    DecimalStringParses(n);
  }

  /** An ID with no field at all (empty, or nothing but ':') raises instead of giving a number. */
  lemma NativeIdNeedsAField(id: string)
    ensures GetNativeID(id).Err? && GetNativeID(id).error == NoField <==> forall k :: 0 <= k < |id| ==> id[k] == ':'
  {
    SplitEmpty(id, ':');
  }

  /** A minus sign before the decimal text of n reads as -n. */
  lemma ParseIntegerNegative(n: nat)
    ensures ParseInteger("-" + DecimalString(n)) == Some(-(n as int))
  {
    var d := DecimalString(n);
    var t := "-" + d;
    assert t[0] == '-' && t[1..] == d;
    assert t[|t| - 1] == d[|d| - 1] && IsDigit(d[|d| - 1]);
    TrimNothing(t);
    DecimalStringUnsigned(n);
    ParseIntegerMinus(t, n);
  }

  /** A 0x prefix reads the digits after it as hexadecimal. */
  lemma ParseIntegerHex(digits: string)
    requires DigitsOf(digits, 16)
    ensures ParseInteger("0x" + digits) == Some(ValueOf(digits, 16))
  {
    var t := "0x" + digits;
    assert t[0] == '0' && t[1] == 'x' && t[2..] == digits;
    assert t[|t| - 1] == digits[|digits| - 1];
    assert DigitValue(digits[|digits| - 1]) < 16;
    TrimNothing(t);
    assert Radix(t) == (16, 2);
    assert ParseUnsigned(t) == Some(ValueOf(digits, 16));
    ParseIntegerPlain(t, ValueOf(digits, 16));
  }

  /** A leading zero followed by more digits means octal, so a digit 8 or 9 after it is rejected. */
  lemma LeadingZeroIsOctal(t: string, s: string)
    requires s != [] && AllDigits(s)
    requires t != [] && t[0] == '0' && t[1..] == s
    ensures ParseInteger(t) == if forall k :: 0 <= k < |s| ==> s[k] < '8' then Some(ValueOf(s, 8)) else None
  {
    assert t[1] == s[0] && t[|t| - 1] == s[|s| - 1];
    assert IsDigit(s[0]) && IsDigit(s[|s| - 1]);
    TrimNothing(t);
    assert Radix(t) == (8, 1);
    assert ParseSigned(t) == WithSign(false, ParseUnsigned(t));
    if forall k :: 0 <= k < |s| ==> s[k] < '8' {
      assert DigitsOf(s, 8);
    } else {
      var k :| 0 <= k < |s| && s[k] >= '8';
      assert IsDigit(s[k]);
    }
  }

  // ---------------------------------------------------------------------------
  // getGeoCoordinates

  /** The root `geo` entry of an activity; the coordinate values themselves are opaque. */
  datatype Geo<T> = Geo(kind: string, coordinates: seq<T>)

  /** One returned coordinate: the default 0, a value of the payload, or nil past its end. */
  datatype Coordinate<T> = Zero | Value(v: T) | Nil

  function CoordinateAt<T>(coordinates: seq<T>, k: nat): Coordinate<T> {
    if k < |coordinates| then Value(coordinates[k]) else Nil
  }

  /**
    `getGeoCoordinates`: (latitude, longitude) from a root `geo` of type
    "Point", in that order, nil past the end of its coordinates; the
    default (0, 0) when there is no such entry.
   */
  function GetGeoCoordinates<T>(geo: Option<Geo<T>>): (latLong: (Coordinate<T>, Coordinate<T>))
    ensures latLong == (Zero, Zero) <==> !(geo.Some? && geo.value.kind == "Point")
    ensures geo.Some? && geo.value.kind == "Point" && |geo.value.coordinates| >= 2 ==>
      latLong == (Value(geo.value.coordinates[0]), Value(geo.value.coordinates[1]))
    ensures geo.Some? && geo.value.kind == "Point" && |geo.value.coordinates| < 2 ==> latLong.1 == Nil
    ensures geo.Some? && geo.value.kind == "Point" && |geo.value.coordinates| == 0 ==> latLong.0 == Nil
  {
    if geo.Some? && geo.value.kind == "Point" then
      (CoordinateAt(geo.value.coordinates, 0), CoordinateAt(geo.value.coordinates, 1))
    else (Zero, Zero)
  }

  // ---------------------------------------------------------------------------
  // getMatchingRules

  /** With Rehydration there are no rules: the rule value and tag are both "rehydration". */
  function GetMatchingRules<T>(matchingRules: T): (valueAndTag: (string, string))
    ensures valueAndTag.0 == "rehydration" && valueAndTag.1 == "rehydration"
  {
    ("rehydration", "rehydration")
  }

  // ---------------------------------------------------------------------------
  // handleSpecialCharacters

  /** The text after both `gsub!` calls: every quote and every backslash becomes '_'. */
  function Sanitized(s: string): string {
    Replaced(Replaced(s, '\'', '_'), '\\', '_')
  }

  /** Same length; each quote or backslash becomes '_', every other character stays. */
  lemma SanitizedAt(s: string, k: nat)
    requires k < |s|
    ensures |Sanitized(s)| == |s|
    ensures Sanitized(s)[k] == if s[k] == '\'' || s[k] == '\\' then '_' else s[k]
  {
    ReplacedAt(s, '\'', '_', k);
    ReplacedAt(Replaced(s, '\'', '_'), '\\', '_', k);
  }

  /** No quote and no backslash survives. */
  lemma SanitizedIsClean(s: string)
    ensures '\'' !in Sanitized(s) && '\\' !in Sanitized(s)
  {
    forall k | 0 <= k < |s| ensures Sanitized(s)[k] != '\'' && Sanitized(s)[k] != '\\' {
      SanitizedAt(s, k);
    }
  }

  /** Scrubbing twice is scrubbing once. */
  lemma SanitizedIdempotent(s: string)
    ensures Sanitized(Sanitized(s)) == Sanitized(s)
  {
    var t := Sanitized(s);
    forall k | 0 <= k < |t| ensures Sanitized(t)[k] == t[k] {
      SanitizedAt(s, k);
      SanitizedAt(t, k);
    }
  }

  /** Replacing a character that does not occur changes nothing. */
  lemma {:induction false} ReplacedAbsent(s: string, from: char, to: char)
    requires from !in s
    ensures Replaced(s, from, to) == s
  {
    if s != [] {
      assert from !in s[1..];
      ReplacedAbsent(s[1..], from, to);
    }
  }

  /** `text.gsub!(from, to)` on the characters of `text`, in place. */
  method ReplaceAll(text: array<char>, from: char, to: char)
    modifies text
    ensures text[..] == Replaced(old(text[..]), from, to)
  {
    ghost var was := text[..];
    for i := 0 to text.Length
      invariant forall k :: 0 <= k < i ==> text[k] == if was[k] == from then to else was[k]
      invariant forall k :: i <= k < text.Length ==> text[k] == was[k]
    {
      if text[i] == from {
        text[i] := to;
      }
    }
    forall k | 0 <= k < text.Length ensures text[..][k] == Replaced(was, from, to)[k] {
      ReplacedAt(was, from, to, k);
    }
  }

  /** `handleSpecialCharacters`: the text, changed in place, becomes its scrubbed form. */
  method HandleSpecialCharacters(text: array<char>)
    modifies text
    ensures text[..] == Sanitized(old(text[..]))
  {
    ghost var was := text[..];
    if '\'' in text[..] {
      ReplaceAll(text, '\'', '_');
    } else {
      ReplacedAbsent(was, '\'', '_');
    }
    ghost var mid := text[..];
    if '\\' in text[..] {
      ReplaceAll(text, '\\', '_');
    } else {
      ReplacedAbsent(mid, '\\', '_');
    }
  }
}
