/**
 * rawurlencode: percent-encoding as section 2.1 of RFC 3986 defines it, applied to every
 * byte outside the unreserved set of section 2.3, with upper-case hexadecimal digits.
 * The decoder is its inverse and is what the auth service applies to the return address.
 */
module UrlEncoding {

  /** Every character is a byte, as in a PHP string. */
  predicate IsByteString(s: string) {
    forall k :: 0 <= k < |s| ==> s[k] as int < 256
  }

  /** The unreserved characters of section 2.3: letters, digits, "-", ".", "_" and "~". */
  predicate IsUnreserved(c: char) {
    ('A' <= c <= 'Z') || ('a' <= c <= 'z') || ('0' <= c <= '9') || c == '-' || c == '.' || c == '_' || c == '~'
  }

  predicate IsUpperHex(c: char) {
    ('0' <= c <= '9') || ('A' <= c <= 'F')
  }

  function HexDigit(n: nat): (c: char)
    requires n < 16
    ensures IsUpperHex(c)
  {
    if n < 10 then ('0' as int + n) as char else ('A' as int + n - 10) as char
  }

  function HexValue(c: char): (n: nat)
    requires IsUpperHex(c)
    ensures n < 16
  {
    if c <= '9' then c as int - '0' as int else c as int - 'A' as int + 10
  }

  lemma HexValueOfDigit(n: nat)
    requires n < 16
    ensures HexValue(HexDigit(n)) == n
  {
  }

  /** One byte: itself when unreserved, else "%" and its two hexadecimal digits. */
  function EncodeByte(c: char): (r: string)
    requires c as int < 256
    ensures IsUnreserved(c) ==> r == [c]
    ensures !IsUnreserved(c) ==> |r| == 3 && r[0] == '%' && IsUpperHex(r[1]) && IsUpperHex(r[2])
                                 && HexValue(r[1]) * 16 + HexValue(r[2]) == c as int
  {
    if IsUnreserved(c) then [c]
    else
      HexValueOfDigit(c as int / 16);
      HexValueOfDigit(c as int % 16);
      ['%', HexDigit(c as int / 16), HexDigit(c as int % 16)]
  }

  function RawUrlEncode(s: string): (r: string)
    requires IsByteString(s)
    ensures forall k :: 0 <= k < |r| ==> IsUnreserved(r[k]) || r[k] == '%' || IsUpperHex(r[k])
  {
    if s == [] then [] else EncodeByte(s[0]) + RawUrlEncode(s[1..])
  }

  /** Percent-decoding: "%" and two hexadecimal digits stand for that byte. */
  function RawUrlDecode(s: string): string {
    if s == [] then []
    else if |s| >= 3 && s[0] == '%' && IsUpperHex(s[1]) && IsUpperHex(s[2]) then
      [(HexValue(s[1]) * 16 + HexValue(s[2])) as char] + RawUrlDecode(s[3..])
    else [s[0]] + RawUrlDecode(s[1..])
  }

  /** Decoding undoes encoding, so the encoding loses nothing. */
  lemma {:induction false} DecodeEncode(s: string)
    requires IsByteString(s)
    ensures RawUrlDecode(RawUrlEncode(s)) == s
  {
    if s != [] {
      var e, rest := EncodeByte(s[0]), RawUrlEncode(s[1..]);
      DecodeEncode(s[1..]);
      var whole := e + rest;
      if IsUnreserved(s[0]) {
        assert whole[0] == s[0] && whole[1..] == rest;
      } else {
        assert whole[..3] == e && whole[3..] == rest;
      }
    }
  }

  /** The encoding of a string holds none of the characters that end or split a query value. */
  lemma EncodedHasNoDelimiters(s: string)
    requires IsByteString(s)
    ensures forall k :: 0 <= k < |RawUrlEncode(s)| ==> RawUrlEncode(s)[k] !in "&=#?+/ "
  {
  }
}
