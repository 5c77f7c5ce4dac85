/**
 * ECMAScript's `encodeURIComponent` and its inverse `decodeURIComponent`
 * (ECMA-262, section "URI Handling Functions").  A character in the
 * unreserved set of section 2.3 of RFC 3986 or in `! * ' ( )` is copied;
 * every other character is written as its UTF-8 octets, each as a
 * percent-encoded triple `%XX` with upper-case hexadecimal digits
 * (section 2.1 of RFC 3986).
 */
module UriComponent {
  import opened Wrappers
  import Utf8

  type byte = Utf8.byte

  /** Characters `encodeURIComponent` leaves as they are. */
  predicate IsUnreserved(c: char) {
    ('A' <= c <= 'Z') || ('a' <= c <= 'z') || ('0' <= c <= '9')
    || c == '-' || c == '_' || c == '.' || c == '!' || c == '~'
    || c == '*' || c == '\'' || c == '(' || c == ')'
  }

  predicate IsUpperHex(c: char) {
    ('0' <= c <= '9') || ('A' <= c <= 'F')
  }

  function HexDigit(n: int): (c: char)
    requires 0 <= n < 16
    ensures IsUpperHex(c)
  {
    if n < 10 then (48 + n) as char else (65 + n - 10) as char
  }

  /** Value of a hexadecimal digit of either case, as `decodeURIComponent` reads it. */
  function HexValue(c: char): (r: Option<int>)
    ensures r.Some? ==> 0 <= r.value < 16
  {
    if '0' <= c <= '9' then Some(c as int - 48)
    else if 'A' <= c <= 'F' then Some(c as int - 65 + 10)
    else if 'a' <= c <= 'f' then Some(c as int - 97 + 10)
    else None
  }

  /** Percent-encoded triples for a sequence of octets. */
  function EscapeOctets(bs: seq<byte>): (r: string)
    ensures |r| == 3 * |bs|
    ensures forall k :: 0 <= k < |r| ==> r[k] == '%' || IsUpperHex(r[k])
    decreases |bs|
  {
    if bs == [] then []
    else ['%', HexDigit(bs[0] / 16), HexDigit(bs[0] % 16)] + EscapeOctets(bs[1..])
  }

  function EncodeChar(c: char): string
  {
    if IsUnreserved(c) then [c] else EscapeOctets(Utf8.EncodeScalar(c))
  }

  /** `encodeURIComponent(s)`. */
  function Encode(s: string): (r: string)
    ensures forall k :: 0 <= k < |r| ==> IsUnreserved(r[k]) || r[k] == '%' || IsUpperHex(r[k])
    decreases |s|
  {
    if s == [] then [] else EncodeChar(s[0]) + Encode(s[1..])
  }

  /** The octet written as `%XX` at the start of `s`, if there is one. */
  function OctetAt(s: string): (r: Option<byte>)
    ensures r.Some? ==> |s| >= 3 && s[0] == '%'
  {
    if |s| >= 3 && s[0] == '%' then
      match (HexValue(s[1]), HexValue(s[2]))
      case (Some(hi), Some(lo)) => Some(hi * 16 + lo)
      case _ => None
    else None
  }

  /** Reads a run of `%XX` triples that makes up all of `s`. */
  function UnescapeOctets(s: string): Option<seq<byte>>
    decreases |s|
  {
    if s == [] then Some([])
    else match OctetAt(s)
      case None => None
      case Some(b) =>
        match UnescapeOctets(s[3..])
        case None => None
        case Some(rest) => Some([b] + rest)
  }

  /**
   * The number of leading one bits of an octet that starts an escaped
   * non-ASCII character; `decodeURIComponent` rejects 1 and anything above 4.
   */
  function LeadingOnes(b: byte): nat
  {
    if b < 0x80 then 0
    else if b < 0xC0 then 1
    else if b < 0xE0 then 2
    else if b < 0xF0 then 3
    else if b < 0xF8 then 4
    else 5
  }

  function Prepend(c: char, r: Option<string>): Option<string>
  {
    match r
    case None => None
    case Some(t) => Some([c] + t)
  }

  /**
   * `decodeURIComponent(s)`, with `None` for the cases where it throws
   * `URIError`: a `%` not followed by two hexadecimal digits, a lead octet
   * announcing a sequence that is too short or not made of triples, or
   * octets that are not the UTF-8 encoding of one scalar value.
   */
  function Decode(s: string): Option<string>
    decreases |s|
  {
    if s == [] then Some([])
    else if s[0] != '%' then Prepend(s[0], Decode(s[1..]))
    else match OctetAt(s)
      case None => None
      case Some(b) =>
        if b < 0x80 then Prepend(b as char, Decode(s[3..]))
        else
          var n := LeadingOnes(b);
          if n < 2 || n > 4 || |s| < 3 * n then None
          else match UnescapeOctets(s[..3 * n])
            case None => None
            case Some(bs) =>
              match Utf8.DecodeScalar(bs)
              case None => None
              case Some(c) => Prepend(c, Decode(s[3 * n..]))
  }

  /**
   * The shape of an encoded component: nothing but unreserved characters
   * and `%XX` triples with upper-case digits.
   */
  predicate IsEscaped(r: string)
    decreases |r|
  {
    || r == []
    || (IsUnreserved(r[0]) && IsEscaped(r[1..]))
    || (|r| >= 3 && r[0] == '%' && IsUpperHex(r[1]) && IsUpperHex(r[2]) && IsEscaped(r[3..]))
  }

  lemma HexRoundTrip(n: int)
    requires 0 <= n < 16
    ensures HexValue(HexDigit(n)) == Some(n)
  {
  }

  lemma OctetAtEscape(b: byte, t: string)
    ensures OctetAt(['%', HexDigit(b / 16), HexDigit(b % 16)] + t) == Some(b)
  {
    HexRoundTrip(b / 16);
    HexRoundTrip(b % 16);
  }

  lemma {:induction false} UnescapeEscape(bs: seq<byte>)
    ensures UnescapeOctets(EscapeOctets(bs)) == Some(bs)
    decreases |bs|
  {
    if bs != [] {
      var tail := EscapeOctets(bs[1..]);
      var e := EscapeOctets(bs);
      assert e == ['%', HexDigit(bs[0] / 16), HexDigit(bs[0] % 16)] + tail;
      OctetAtEscape(bs[0], tail);
      assert e[3..] == tail;
      UnescapeEscape(bs[1..]);
      assert bs == [bs[0]] + bs[1..];
    }
  }

  lemma LeadingOnesOfLead(b: byte)
    requires Utf8.LeadWidth(b) >= 2
    ensures LeadingOnes(b) == Utf8.LeadWidth(b)
  {
  }

  lemma DecodeEncodeMultiOctet(c: char, t: string)
    requires !IsUnreserved(c) && c as int >= 0x80
    ensures Decode(EncodeChar(c) + t) == Prepend(c, Decode(t))
  {
    var bs := Utf8.EncodeScalar(c);
    var e := EscapeOctets(bs);
    var n := |bs|;
    var s := e + t;
    assert e == ['%', HexDigit(bs[0] / 16), HexDigit(bs[0] % 16)] + EscapeOctets(bs[1..]);
    assert s == ['%', HexDigit(bs[0] / 16), HexDigit(bs[0] % 16)] + (EscapeOctets(bs[1..]) + t);
    OctetAtEscape(bs[0], EscapeOctets(bs[1..]) + t);
    LeadingOnesOfLead(bs[0]);
    assert s[..3 * n] == e;
    assert s[3 * n..] == t;
    UnescapeEscape(bs);
    Utf8.DecodeEncodeScalar(c);
  }

  /** Decoding an encoded character consumes exactly its encoding. */
  lemma DecodeEncodeChar(c: char, t: string)
    ensures Decode(EncodeChar(c) + t) == Prepend(c, Decode(t))
  {
    var s := EncodeChar(c) + t;
    if IsUnreserved(c) {
      assert s[0] == c && s[1..] == t;
    } else if c as int < 0x80 {
      var b := c as int;
      assert Utf8.EncodeScalar(c) == [b];
      assert EscapeOctets([b]) == ['%', HexDigit(b / 16), HexDigit(b % 16)];
      OctetAtEscape(b, t);
      assert s[3..] == t;
    } else {
      DecodeEncodeMultiOctet(c, t);
    }
  }

  lemma {:induction false} DecodeEncode(s: string)
    ensures Decode(Encode(s)) == Some(s)
    decreases |s|
  {
    if s != [] {
      DecodeEncodeChar(s[0], Encode(s[1..]));
      DecodeEncode(s[1..]);
      assert [s[0]] + s[1..] == s;
    }
  }

  lemma {:induction false} EscapedAppend(a: string, b: string)
    requires IsEscaped(a) && IsEscaped(b)
    ensures IsEscaped(a + b)
    decreases |a|
  {
    if a != [] {
      if IsUnreserved(a[0]) && IsEscaped(a[1..]) {
        EscapedAppend(a[1..], b);
        assert (a + b)[0] == a[0];
        assert (a + b)[1..] == a[1..] + b;
      } else {
        assert |a| >= 3 && a[0] == '%' && IsUpperHex(a[1]) && IsUpperHex(a[2]) && IsEscaped(a[3..]);
        EscapedAppend(a[3..], b);
        assert (a + b)[3..] == a[3..] + b;
        assert (a + b)[0] == '%' && (a + b)[1] == a[1] && (a + b)[2] == a[2];
      }
    } else {
      assert a + b == b;
    }
  }

  lemma {:induction false} EscapeOctetsEscaped(bs: seq<byte>)
    ensures IsEscaped(EscapeOctets(bs))
    decreases |bs|
  {
    if bs != [] {
      EscapeOctetsEscaped(bs[1..]);
      var e := EscapeOctets(bs);
      assert e[3..] == EscapeOctets(bs[1..]);
    }
  }

  /** Every encoded component is made only of unreserved characters and `%XX` triples. */
  lemma {:induction false} EncodeEscaped(s: string)
    ensures IsEscaped(Encode(s))
    decreases |s|
  {
    if s != [] {
      EncodeEscaped(s[1..]);
      if IsUnreserved(s[0]) {
        assert IsEscaped([s[0]]) by { assert [s[0]][1..] == []; }
      } else {
        EscapeOctetsEscaped(Utf8.EncodeScalar(s[0]));
      }
      EscapedAppend(EncodeChar(s[0]), Encode(s[1..]));
    }
  }

  /** So no component separator, no space and no non-ASCII character survives encoding. */
  lemma EncodeHasNoDelimiters(s: string)
    ensures '&' !in Encode(s) && '=' !in Encode(s) && '?' !in Encode(s)
    ensures ':' !in Encode(s) && ' ' !in Encode(s)
    ensures forall k :: 0 <= k < |Encode(s)| ==> Encode(s)[k] as int < 0x80
  {
  }

  predicate AllUnreserved(s: string) {
    forall k :: 0 <= k < |s| ==> IsUnreserved(s[k])
  }

  /** Strings made only of unreserved characters are their own encoding. */
  lemma {:induction false} EncodeUnreserved(s: string)
    requires AllUnreserved(s)
    ensures Encode(s) == s
    decreases |s|
  {
    if s != [] {
      EncodeUnreserved(s[1..]);
      assert [s[0]] + s[1..] == s;
    }
  }

  /** Encoding works character by character. */
  lemma {:induction false} EncodeAppend(a: string, b: string)
    ensures Encode(a + b) == Encode(a) + Encode(b)
    decreases |a|
  {
    if a != [] {
      assert (a + b)[0] == a[0];
      assert (a + b)[1..] == a[1..] + b;
      EncodeAppend(a[1..], b);
    } else {
      assert a + b == b;
    }
  }
}
