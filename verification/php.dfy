/**
 * The few PHP runtime rules the plugin relies on: the values json_decode($s, true)
 * produces, truthiness, is_scalar, intval, the (string) cast and the loose `==`
 * between a value and a string that in_array uses.
 *
 * A PHP string is a sequence of bytes; the model writes it as a `string` with one
 * character per byte.
 */
module Php {

  /** A decoded JSON value. JSON objects and arrays both become PHP arrays, here a map
      from string keys (a list is the map from "0", "1", ... to its elements). */
  datatype Value = Null | Bool(b: bool) | Int(i: int) | Str(s: string) | Arr(entries: map<string, Value>)

  /** is_scalar: booleans, integers and strings; null and arrays are not scalar. */
  predicate IsScalar(v: Value) {
    v.Bool? || v.Int? || v.Str?
  }

  /** A string converts to false exactly when it is "" or "0". */
  predicate StrTruthy(s: string) {
    s != "" && s != "0"
  }

  /** PHP's conversion of a value to bool. */
  predicate Truthy(v: Value) {
    match v
    case Null => false
    case Bool(b) => b
    case Int(i) => i != 0
    case Str(s) => StrTruthy(s)
    case Arr(m) => |m| > 0
  }

  predicate IsDigit(c: char) {
    '0' <= c <= '9'
  }

  predicate AllDigits(s: string) {
    forall k :: 0 <= k < |s| ==> IsDigit(s[k])
  }

  /** The whitespace intval skips before the number: space, \t, \n, \r, \v and \f. */
  predicate IsSpace(c: char) {
    c == ' ' || c == '\t' || c == '\n' || c == '\r' || c == 11 as char || c == 12 as char
  }

  predicate AllSpace(s: string) {
    forall k :: 0 <= k < |s| ==> IsSpace(s[k])
  }

  function SkipSpace(s: string): (r: string)
    ensures |r| <= |s| && r == s[|s| - |r|..]
    ensures forall k :: 0 <= k < |s| - |r| ==> IsSpace(s[k])
    ensures r == [] || !IsSpace(r[0])
  {
    if s != [] && IsSpace(s[0]) then SkipSpace(s[1..]) else s
  }

  /** The longest prefix of s made of decimal digits. */
  function DigitPrefix(s: string): (r: string)
    ensures AllDigits(r) && |r| <= |s| && r == s[..|r|]
  {
    if s != [] && IsDigit(s[0]) then [s[0]] + DigitPrefix(s[1..]) else []
  }

  function DigitValue(c: char): nat
    requires IsDigit(c)
  {
    c as int - '0' as int
  }

  /** The number a string of decimal digits spells, read from the left. */
  function DecimalValue(d: string): nat
    requires AllDigits(d)
  {
    if d == [] then 0 else DecimalValue(d[..|d| - 1]) * 10 + DigitValue(d[|d| - 1])
  }

  /** intval($s, 10): leading whitespace, an optional sign, then the longest run of digits;
      a string without a leading number gives 0. */
  function StrIntval(s: string): int {
    var t := SkipSpace(s);
    if t != [] && t[0] == '-' then -(DecimalValue(DigitPrefix(t[1..])) as int)
    else if t != [] && t[0] == '+' then DecimalValue(DigitPrefix(t[1..]))
    else DecimalValue(DigitPrefix(t))
  }

  /** intval($v, 10) for every value json_decode can produce. */
  function Intval(v: Value): int {
    match v
    case Null => 0
    case Bool(b) => if b then 1 else 0
    case Int(i) => i
    case Str(s) => StrIntval(s)
    case Arr(m) => if |m| == 0 then 0 else 1
  }

  function DigitChar(d: nat): (c: char)
    requires d < 10
    ensures IsDigit(c) && DigitValue(c) == d
  {
    ('0' as int + d) as char
  }

  /** The decimal spelling of a natural number, without leading zeros. */
  function NatToString(n: nat): (r: string)
    ensures r != [] && AllDigits(r)
  {
    if n < 10 then [DigitChar(n)] else NatToString(n / 10) + [DigitChar(n % 10)]
  }

  /** The decimal spelling of an integer, as string interpolation and (string) write it. */
  function IntToString(i: int): (r: string)
    ensures r != []
  {
    if i < 0 then "-" + NatToString(-i) else NatToString(i)
  }

  lemma {:induction false} DecimalValueOfNatToString(n: nat)
    ensures DecimalValue(NatToString(n)) == n
  {
    if n >= 10 {
      var d := NatToString(n);
      assert d[..|d| - 1] == NatToString(n / 10);
      DecimalValueOfNatToString(n / 10);
    }
  }

  lemma {:induction false} DigitPrefixOfDigits(s: string)
    requires AllDigits(s)
    ensures DigitPrefix(s) == s
  {
    if s != [] {
      DigitPrefixOfDigits(s[1..]);
    }
  }

  /** intval of a non-empty run of digits is the number it spells. */
  lemma StrIntvalOfDigits(d: string)
    requires d != [] && AllDigits(d)
    ensures StrIntval(d) == DecimalValue(d)
  {
    assert IsDigit(d[0]);
    assert SkipSpace(d) == d;
    DigitPrefixOfDigits(d);
  }

  /** ... and of "-" followed by such a run, its negation. */
  lemma StrIntvalOfNegativeDigits(d: string)
    requires d != [] && AllDigits(d)
    ensures StrIntval("-" + d) == -(DecimalValue(d) as int)
  {
    var t := "-" + d;
    assert SkipSpace(t) == t;
    assert t[1..] == d;
    DigitPrefixOfDigits(d);
  }

  /** intval reads back every integer from its decimal spelling. */
  lemma IntvalOfIntToString(i: int)
    ensures Intval(Str(IntToString(i))) == i
  {
    var n: nat := if i < 0 then -i else i;
    DecimalValueOfNatToString(n);
    if i < 0 {
      StrIntvalOfNegativeDigits(NatToString(n));
    } else {
      StrIntvalOfDigits(NatToString(n));
    }
  }

  /** Distinct integers have distinct decimal spellings. */
  lemma IntToStringInjective(a: int, b: int)
    ensures IntToString(a) == IntToString(b) ==> a == b
  {
    IntvalOfIntToString(a);
    IntvalOfIntToString(b);
  }

  /** The (string) cast, which string interpolation and SQL parameter binding apply. */
  function AsString(v: Value): string {
    match v
    case Null => ""
    case Bool(b) => if b then "1" else ""
    case Int(i) => IntToString(i)
    case Str(s) => s
    case Arr(_) => "Array"
  }

  /** The sign a numeric string may carry after its leading whitespace. */
  function WithoutSign(t: string): (u: string)
    ensures u == t || (t != [] && (t[0] == '+' || t[0] == '-') && u == t[1..])
  {
    if t != [] && (t[0] == '+' || t[0] == '-') then t[1..] else t
  }

  /** A numeric string of integer form, as PHP 8 reads it: leading whitespace, an optional
      sign, at least one digit, then nothing but trailing whitespace. Its value is intval's. */
  predicate IsIntegerNumeric(s: string) {
    var u := WithoutSign(SkipSpace(s));
    var d := DigitPrefix(u);
    d != [] && AllSpace(u[|d|..])
  }

  /** An integer-form numeric string is made of whitespace, signs and digits only. */
  lemma IntegerNumericCharacters(s: string)
    requires IsIntegerNumeric(s)
    ensures forall k :: 0 <= k < |s| ==> IsSpace(s[k]) || IsDigit(s[k]) || s[k] == '+' || s[k] == '-'
  {
    var t := SkipSpace(s);
    var u := WithoutSign(t);
    var d := DigitPrefix(u);
    forall k | 0 <= k < |s| ensures IsSpace(s[k]) || IsDigit(s[k]) || s[k] == '+' || s[k] == '-' {
      var p, q := |s| - |t|, |s| - |u|;
      if k < p {
      } else if k < q {
        assert s[k] == t[0];
      } else if k < q + |d| {
        assert s[k] == u[k - q] == d[k - q];
      } else {
        assert s[k] == u[|d|..][k - q - |d|];
      }
    }
  }

  /** A string that starts with a digit and is read whole as digits is numeric. */
  lemma UnsignedDigitsAreNumeric(d: string)
    requires d != [] && AllDigits(d)
    ensures IsIntegerNumeric(d)
  {
    assert !IsSpace(d[0]) by { assert IsDigit(d[0]); }
    assert SkipSpace(d) == d;
    assert WithoutSign(d) == d;
    DigitPrefixOfDigits(d);
    assert d[|d|..] == [];
  }

  lemma SignedDigitsAreNumeric(d: string)
    requires d != [] && AllDigits(d)
    ensures IsIntegerNumeric("-" + d)
  {
    var t := "-" + d;
    assert t[0] == '-';
    assert SkipSpace(t) == t;
    assert t[1..] == d;
    assert WithoutSign(t) == d;
    DigitPrefixOfDigits(d);
    assert d[|d|..] == [];
  }

  /** The decimal spelling of every integer is an integer-form numeric string. */
  lemma IntToStringIsNumeric(i: int)
    ensures IsIntegerNumeric(IntToString(i))
  {
    var n: nat := if i < 0 then -i else i;
    if i < 0 {
      SignedDigitsAreNumeric(NatToString(n));
    } else {
      UnsignedDigitsAreNumeric(NatToString(n));
    }
  }

  /** The loose comparison `$v == $s` of a value with a string, as in_array makes it under
      PHP 8: null equals only "", a boolean equals the strings of the same truthiness, an
      integer equals the numeric strings of its value, two numeric strings are compared
      by value and any other two strings must be equal. */
  function LooseEqualsString(v: Value, s: string): (r: bool)
    ensures v == Str(s) ==> r
    ensures v.Int? && r ==> IsIntegerNumeric(s) && StrIntval(s) == v.i
    ensures v.Str? && !(IsIntegerNumeric(v.s) && IsIntegerNumeric(s)) ==> (r <==> v.s == s)
    ensures v.Null? ==> (r <==> s == "")
    ensures v.Arr? ==> !r
  {
    match v
    case Null => s == ""
    case Bool(b) => b == StrTruthy(s)
    case Int(i) => IsIntegerNumeric(s) && StrIntval(s) == i
    case Str(t) => if IsIntegerNumeric(t) && IsIntegerNumeric(s) then StrIntval(t) == StrIntval(s) else t == s
    case Arr(_) => false
  }

  /** An integer equals its own decimal spelling, and every string equals itself. */
  lemma LooseEqualsOwnSpelling(i: int, s: string)
    ensures LooseEqualsString(Int(i), IntToString(i))
    ensures LooseEqualsString(Str(s), s)
  {
    IntToStringIsNumeric(i);
    IntvalOfIntToString(i);
  }

  /** Two runs of digits are loosely equal exactly when they spell the same number, so
      leading zeros make no difference. */
  lemma DigitStringsCompareByValue(a: string, b: string)
    requires a != [] && AllDigits(a) && b != [] && AllDigits(b)
    ensures LooseEqualsString(Str(a), b) <==> DecimalValue(a) == DecimalValue(b)
  {
    UnsignedDigitsAreNumeric(a);
    UnsignedDigitsAreNumeric(b);
    StrIntvalOfDigits(a);
    StrIntvalOfDigits(b);
  }

  lemma LeadingZerosCompareEqual()
    ensures LooseEqualsString(Str("007"), "7")
  {
    assert AllDigits("007") && AllDigits("7");
    assert DecimalValue("007") == 7 by {
      assert "007"[..2] == "00" && "00"[..1] == "0" && "0"[..0] == "";
    }
    assert DecimalValue("7") == 7 by {
      assert "7"[..0] == "";
    }
    DigitStringsCompareByValue("007", "7");
  }

  /** Leading whitespace makes no difference either. */
  lemma LeadingSpaceIgnored(s: string)
    ensures IsIntegerNumeric(" " + s) == IsIntegerNumeric(s)
    ensures StrIntval(" " + s) == StrIntval(s)
  {
    assert (" " + s)[1..] == s;
    assert SkipSpace(" " + s) == SkipSpace(s);
  }

  /** An integer equals a run of digits behind a space exactly when the digits spell it. */
  lemma SpacedDigitsCompareByValue(i: int, d: string)
    requires d != [] && AllDigits(d)
    ensures LooseEqualsString(Int(i), " " + d) <==> DecimalValue(d) == i
  {
    UnsignedDigitsAreNumeric(d);
    StrIntvalOfDigits(d);
    LeadingSpaceIgnored(d);
  }

  /** A string with a trailing non-digit is not numeric and compares as a string. */
  lemma TrailingLetterComparesAsString()
    ensures !LooseEqualsString(Str("7a"), "7")
  {
    assert SkipSpace("7a") == "7a" && WithoutSign("7a") == "7a";
    assert DigitPrefix("a") == "";
    assert DigitPrefix("7a") == "7";
    assert "7a"[1..] == "a";
    assert !IsIntegerNumeric("7a");
    assert "7a" != "7";
  }
}
