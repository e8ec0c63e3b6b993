/**
 * The `encodeURIComponent` function of ECMA-262 (section 19.2.6.4, with the
 * Encode operation of section 19.2.6.5), applied by the query-string builder
 * of src/App.tsx to every key and every value, and a decoder that undoes it.
 *
 * Strings are sequences of Unicode scalar values, so the lone surrogates on
 * which `encodeURIComponent` throws a URIError cannot occur.
 */
module UriComponent {
  import opened Wrappers

  type Byte = x: int | 0 <= x < 256

  /**
   * The characters left as they are: ASCII letters, decimal digits and the
   * marks - _ . ! ~ * ' ( ) (the unreserved set of section 2.3 of RFC 2396).
   */
  predicate IsUnreserved(c: char) {
    || 'A' <= c <= 'Z'
    || 'a' <= c <= 'z'
    || '0' <= c <= '9'
    || c == '-' || c == '_' || c == '.' || c == '!' || c == '~'
    || c == '*' || c == '\'' || c == '(' || c == ')'
  }

  predicate IsUpperHexDigit(c: char) {
    '0' <= c <= '9' || 'A' <= c <= 'F'
  }

  predicate IsHexDigit(c: char) {
    IsUpperHexDigit(c) || 'a' <= c <= 'f'
  }

  /** The upper-case hexadecimal digit for d, as the escapes `%HH` use it. */
  function HexDigit(d: int): (c: char)
    requires 0 <= d < 16
    ensures IsUpperHexDigit(c) && HexValue(c) == d
  {
    if d < 10 then ('0' as int + d) as char else ('A' as int + d - 10) as char
  }

  /** The value of a hexadecimal digit of either case. */
  function HexValue(c: char): (v: int)
    requires IsHexDigit(c)
    ensures 0 <= v < 16
  {
    if '0' <= c <= '9' then c as int - '0' as int
    else if 'A' <= c <= 'F' then c as int - 'A' as int + 10
    else c as int - 'a' as int + 10
  }

  /** The UTF-8 encoding of one Unicode scalar value (section 3 of RFC 3629). */
  function Utf8(c: char): (bs: seq<Byte>)
    ensures 1 <= |bs| <= 4
    ensures |bs| == 1 <==> c as int < 0x80
  {
    var n := c as int;
    if n < 0x80 then [n]
    else if n < 0x800 then [0xC0 + n / 64, 0x80 + n % 64]
    else if n < 0x10000 then [0xE0 + n / 4096, 0x80 + (n / 64) % 64, 0x80 + n % 64]
    else [0xF0 + n / 0x40000, 0x80 + (n / 4096) % 64, 0x80 + (n / 64) % 64, 0x80 + n % 64]
  }

  /** Each byte written as `%` and two upper-case hexadecimal digits (section 2.1 of RFC 3986). */
  function Escape(bs: seq<Byte>): (t: string)
    ensures |t| == 3 * |bs|
  {
    if bs == [] then [] else ['%', HexDigit(bs[0] / 16), HexDigit(bs[0] % 16)] + Escape(bs[1..])
  }

  function EncodeChar(c: char): string {
    if IsUnreserved(c) then [c] else Escape(Utf8(c))
  }

  /** `encodeURIComponent(s)`. */
  function Encode(s: string): string {
    if s == [] then [] else EncodeChar(s[0]) + Encode(s[1..])
  }

  /** t is a run of unreserved characters and `%HH` escapes, with upper-case digits. */
  predicate Escaped(t: string) {
    if t == [] then true
    else if IsUnreserved(t[0]) then Escaped(t[1..])
    else |t| >= 3 && t[0] == '%' && IsUpperHexDigit(t[1]) && IsUpperHexDigit(t[2]) && Escaped(t[3..])
  }

  // ---------------------------------------------------------------------
  // Decoding: the inverse of Encode, in the manner of `decodeURIComponent`
  // (the Decode operation of section 19.2.6.6 of ECMA-262 with an empty
  // reserved set). Malformed escapes and invalid UTF-8 give None where
  // JavaScript throws a URIError.
  // ---------------------------------------------------------------------

  /** The byte escaped as `%HH` at position i of t, if there is one. */
  function ReadByte(t: string, i: nat): Option<Byte> {
    if i + 3 <= |t| && t[i] == '%' && IsHexDigit(t[i + 1]) && IsHexDigit(t[i + 2])
    then Some(HexValue(t[i + 1]) * 16 + HexValue(t[i + 2]))
    else None
  }

  /** The payload (6 bits) of the UTF-8 continuation byte escaped at position i of t. */
  function ReadContinuation(t: string, i: nat): Option<int> {
    match ReadByte(t, i)
    case Some(b) => if 0x80 <= b < 0xC0 then Some(b - 0x80) else None
    case None => None
  }

  /**
   * The character whose escaped UTF-8 encoding starts t, with the number of
   * characters of t it spans. Overlong forms, surrogates and values past
   * U+10FFFF are refused.
   */
  function ReadEscapedChar(t: string): (r: Option<(char, nat)>)
    ensures r.Some? ==> r.value.1 <= |t| && r.value.1 in {3, 6, 9, 12}
    ensures r.Some? ==> r.value.1 == 3 * |Utf8(r.value.0)|
  {
    match ReadByte(t, 0)
    case None => None
    case Some(b0) =>
      if b0 < 0x80 then Some((b0 as char, 3))
      else if 0xC2 <= b0 < 0xE0 then
        match ReadContinuation(t, 3)
        case None => None
        case Some(x1) => Some((((b0 - 0xC0) * 64 + x1) as char, 6))
      else if 0xE0 <= b0 < 0xF0 then
        match (ReadContinuation(t, 3), ReadContinuation(t, 6))
        case (Some(x1), Some(x2)) =>
          var n := (b0 - 0xE0) * 4096 + x1 * 64 + x2;
          if n < 0x800 || 0xD800 <= n < 0xE000 then None else Some((n as char, 9))
        case _ => None
      else if 0xF0 <= b0 < 0xF5 then
        match (ReadContinuation(t, 3), ReadContinuation(t, 6), ReadContinuation(t, 9))
        case (Some(x1), Some(x2), Some(x3)) =>
          var n := (b0 - 0xF0) * 0x40000 + x1 * 4096 + x2 * 64 + x3;
          if n < 0x10000 || 0x10FFFF < n then None else Some((n as char, 12))
        case _ => None
      else None
  }

  /** `decodeURIComponent(t)`, with None for the inputs on which it throws. */
  function Decode(t: string): Option<string>
    decreases |t|
  {
    if t == [] then Some([])
    else if t[0] != '%' then
      match Decode(t[1..])
      case None => None
      case Some(s) => Some([t[0]] + s)
    else
      match ReadEscapedChar(t)
      case None => None
      case Some((c, n)) =>
        match Decode(t[n..])
        case None => None
        case Some(s) => Some([c] + s)
  }

  // ---------------------------------------------------------------------
  // What Encode promises.
  // ---------------------------------------------------------------------

  predicate AllUnreserved(s: string) {
    forall i :: 0 <= i < |s| ==> IsUnreserved(s[i])
  }

  /** Encoding never shortens, and keeps the length exactly when nothing needs escaping. */
  lemma {:induction false} EncodeLength(s: string)
    ensures |Encode(s)| >= |s|
    ensures |Encode(s)| == |s| <==> AllUnreserved(s)
  {
    if s != [] {
      EncodeLength(s[1..]);
      assert AllUnreserved(s) <==> IsUnreserved(s[0]) && AllUnreserved(s[1..]);
    }
  }

  /** Unreserved characters pass through unchanged, and only they do. */
  lemma {:induction false} EncodeIdentity(s: string)
    ensures Encode(s) == s <==> AllUnreserved(s)
  {
    EncodeLength(s);
    if AllUnreserved(s) && s != [] {
      assert AllUnreserved(s[1..]);
      EncodeIdentity(s[1..]);
      assert Encode(s) == [s[0]] + s[1..];
    }
  }

  lemma {:induction false} EscapePrefix(bs: seq<Byte>, tail: string)
    requires Escaped(tail)
    ensures Escaped(Escape(bs) + tail)
  {
    if bs == [] {
      assert Escape(bs) + tail == tail;
    } else {
      EscapePrefix(bs[1..], tail);
      var t := Escape(bs) + tail;
      assert t[3..] == Escape(bs[1..]) + tail;
      assert !IsUnreserved(t[0]) && t[0] == '%' && IsUpperHexDigit(t[1]) && IsUpperHexDigit(t[2]);
    }
  }

  /** Every encoded string is a run of unreserved characters and `%HH` escapes. */
  lemma {:induction false} EncodeEscaped(s: string)
    ensures Escaped(Encode(s))
  {
    if s != [] {
      EncodeEscaped(s[1..]);
      var t := Encode(s);
      if IsUnreserved(s[0]) {
        assert t[0] == s[0] && t[1..] == Encode(s[1..]);
      } else {
        EscapePrefix(Utf8(s[0]), Encode(s[1..]));
      }
    }
  }

  /** An escaped string holds nothing but unreserved characters and `%`. */
  lemma {:induction false} EscapedChars(t: string)
    requires Escaped(t)
    ensures forall i :: 0 <= i < |t| ==> IsUnreserved(t[i]) || t[i] == '%'
  {
    if t != [] {
      if IsUnreserved(t[0]) {
        EscapedChars(t[1..]);
        forall i | 1 <= i < |t| ensures IsUnreserved(t[i]) || t[i] == '%' {
          assert t[i] == t[1..][i - 1];
        }
      } else {
        EscapedChars(t[3..]);
        forall i | 3 <= i < |t| ensures IsUnreserved(t[i]) || t[i] == '%' {
          assert t[i] == t[3..][i - 3];
        }
      }
    }
  }

  /** The separators of a query string and the space never appear raw in an encoded string. */
  lemma EncodeHasNoSeparators(s: string)
    ensures '&' !in Encode(s) && '=' !in Encode(s) && ' ' !in Encode(s)
  {
    EncodeEscaped(s);
    EscapedChars(Encode(s));
  }

  // ---------------------------------------------------------------------
  // Decode undoes Encode.
  // ---------------------------------------------------------------------

  lemma HexRoundTrip(b: Byte)
    ensures HexValue(HexDigit(b / 16)) * 16 + HexValue(HexDigit(b % 16)) == b
  {
  }

  lemma {:induction false} EscapeAt(bs: seq<Byte>, rest: string, i: nat)
    requires i < |bs|
    ensures ReadByte(Escape(bs) + rest, 3 * i) == Some(bs[i])
  {
    var t := Escape(bs) + rest;
    if i == 0 {
      var b := bs[0];
      assert t[0] == '%' && t[1] == HexDigit(b / 16) && t[2] == HexDigit(b % 16);
      HexRoundTrip(b);
    } else {
      EscapeAt(bs[1..], rest, i - 1);
      var t' := Escape(bs[1..]) + rest;
      assert t' == t[3..];
      var j := 3 * (i - 1);
      assert t[3 * i] == t'[j] && t[3 * i + 1] == t'[j + 1] && t[3 * i + 2] == t'[j + 2];
    }
  }

  lemma Utf8Two(n: int)
    requires 0x80 <= n < 0x800
    ensures (0xC0 + n / 64 - 0xC0) * 64 + (0x80 + n % 64 - 0x80) == n
    ensures 0xC2 <= 0xC0 + n / 64 < 0xE0
  {
  }

  lemma Utf8Three(n: int)
    requires 0x800 <= n < 0x10000
    ensures (0xE0 + n / 4096 - 0xE0) * 4096 + ((n / 64) % 64) * 64 + n % 64 == n
    ensures 0xE0 <= 0xE0 + n / 4096 < 0xF0
  {
  }

  lemma Utf8Four(n: int)
    requires 0x10000 <= n < 0x110000
    ensures (0xF0 + n / 0x40000 - 0xF0) * 0x40000 + ((n / 4096) % 64) * 4096 + ((n / 64) % 64) * 64 + n % 64 == n
    ensures 0xF0 <= 0xF0 + n / 0x40000 < 0xF5
  {
  }

  lemma ReadEscapedTwo(c: char, rest: string)
    requires 0x80 <= c as int < 0x800
    ensures ReadEscapedChar(Escape(Utf8(c)) + rest) == Some((c, 6))
  {
  }

  lemma ReadEscapedThree(c: char, rest: string)
    requires 0x800 <= c as int < 0x10000
    ensures ReadEscapedChar(Escape(Utf8(c)) + rest) == Some((c, 9))
  {
    var n := c as int;
    var bs := Utf8(c);
    var t := Escape(bs) + rest;
    EscapeAt(bs, rest, 0);
    EscapeAt(bs, rest, 1);
    EscapeAt(bs, rest, 2);
    Utf8Three(n);
    assert ReadContinuation(t, 3) == Some((n / 64) % 64);
    assert ReadContinuation(t, 6) == Some(n % 64);
  }

  lemma ReadEscapedFour(c: char, rest: string)
    requires 0x10000 <= c as int
    ensures ReadEscapedChar(Escape(Utf8(c)) + rest) == Some((c, 12))
  {
    var n := c as int;
    var bs := Utf8(c);
    var t := Escape(bs) + rest;
    EscapeAt(bs, rest, 0);
    EscapeAt(bs, rest, 1);
    EscapeAt(bs, rest, 2);
    EscapeAt(bs, rest, 3);
    Utf8Four(n);
    assert ReadContinuation(t, 3) == Some((n / 4096) % 64);
    assert ReadContinuation(t, 6) == Some((n / 64) % 64);
    assert ReadContinuation(t, 9) == Some(n % 64);
  }

  /** The escaped UTF-8 encoding of a character reads back as that character. */
  lemma ReadEscapedUtf8(c: char, rest: string)
    ensures ReadEscapedChar(Escape(Utf8(c)) + rest) == Some((c, 3 * |Utf8(c)|))
  {
    var n := c as int;
    if n < 0x80 {
      EscapeAt(Utf8(c), rest, 0);
    } else if n < 0x800 {
      ReadEscapedTwo(c, rest);
    } else if n < 0x10000 {
      ReadEscapedThree(c, rest);
    } else {
      ReadEscapedFour(c, rest);
    }
  }

  /** Decoding an encoded string gives the string back. */
  lemma {:induction false} DecodeEncode(s: string)
    ensures Decode(Encode(s)) == Some(s)
  {
    if s != [] {
      DecodeEncode(s[1..]);
      var c := s[0];
      var t := Encode(s);
      if IsUnreserved(c) {
        assert t[0] == c && c != '%';
        assert t[1..] == Encode(s[1..]);
        assert [c] + s[1..] == s;
      } else {
        ReadEscapedUtf8(c, Encode(s[1..]));
        var n := 3 * |Utf8(c)|;
        assert t[0] == '%';
        assert t[n..] == Encode(s[1..]);
        assert [c] + s[1..] == s;
      }
    }
  }
}
