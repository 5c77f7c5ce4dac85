/**
 * The base 64 encoding of section 4 of RFC 4648: every three octets become
 * four characters of the 64-character alphabet of its Table 1, and a final
 * group of one or two octets is completed with `=` padding.  The decoder
 * is the canonical one: it accepts exactly the strings the encoder writes.
 */
module Base64 {
  import opened Wrappers
  import Utf8

  type byte = Utf8.byte

  /** Table 1 of RFC 4648: the character for the six-bit value `i`. */
  function Char(i: int): (c: char)
    requires 0 <= i < 64
  {
    if i < 26 then (65 + i) as char
    else if i < 52 then (97 + i - 26) as char
    else if i < 62 then (48 + i - 52) as char
    else if i == 62 then '+'
    else '/'
  }

  /** The six-bit value of an alphabet character; `None` for `=` and every other character. */
  function Value(c: char): (r: Option<int>)
    ensures r.Some? ==> 0 <= r.value < 64
  {
    if 'A' <= c <= 'Z' then Some(c as int - 65)
    else if 'a' <= c <= 'z' then Some(c as int - 97 + 26)
    else if '0' <= c <= '9' then Some(c as int - 48 + 52)
    else if c == '+' then Some(62)
    else if c == '/' then Some(63)
    else None
  }

  predicate IsAlphabet(c: char) {
    Value(c).Some?
  }

  /** `Value` reads back every character of the alphabet... */
  lemma ValueChar(i: int)
    requires 0 <= i < 64
    ensures Value(Char(i)) == Some(i)
  {
  }

  /** ...and the alphabet has one character per value. */
  lemma CharValue(c: char)
    requires Value(c).Some?
    ensures Char(Value(c).value) == c
  {
  }

  /** Four characters for three octets (the first case of section 4 of RFC 4648). */
  function Quantum(b0: byte, b1: byte, b2: byte): string
  {
    [Char(b0 / 4), Char((b0 % 4) * 16 + b1 / 16), Char((b1 % 16) * 4 + b2 / 64), Char(b2 % 64)]
  }

  /** `base64.encode`: the padded encoding of `bs`. */
  function Encode(bs: seq<byte>): (r: string)
    ensures |r| == 4 * ((|bs| + 2) / 3)
    ensures forall k :: 0 <= k < |r| ==> IsAlphabet(r[k]) || r[k] == '='
    decreases |bs|
  {
    if |bs| == 0 then []
    else if |bs| == 1 then
      [Char(bs[0] / 4), Char((bs[0] % 4) * 16), '=', '=']
    else if |bs| == 2 then
      [Char(bs[0] / 4), Char((bs[0] % 4) * 16 + bs[1] / 16), Char((bs[1] % 16) * 4), '=']
    else
      Quantum(bs[0], bs[1], bs[2]) + Encode(bs[3..])
  }

  /** Three octets from four alphabet characters, or `None`. */
  function DecodeQuantum(q: string): Option<seq<byte>>
    requires |q| == 4
  {
    match (Value(q[0]), Value(q[1]), Value(q[2]), Value(q[3]))
    case (Some(c0), Some(c1), Some(c2), Some(c3)) =>
      Some([c0 * 4 + c1 / 16, (c1 % 16) * 16 + c2 / 4, (c2 % 4) * 64 + c3])
    case _ => None
  }

  /**
   * The last four characters: a full quantum, or one or two octets followed
   * by padding, whose unused bits must be zero.
   */
  function DecodeFinal(q: string): Option<seq<byte>>
    requires |q| == 4
  {
    if q[2] == '=' && q[3] == '=' then
      match (Value(q[0]), Value(q[1]))
      case (Some(c0), Some(c1)) =>
        if c1 % 16 == 0 then Some([c0 * 4 + c1 / 16]) else None
      case _ => None
    else if q[3] == '=' then
      match (Value(q[0]), Value(q[1]), Value(q[2]))
      case (Some(c0), Some(c1), Some(c2)) =>
        if c2 % 4 == 0 then Some([c0 * 4 + c1 / 16, (c1 % 16) * 16 + c2 / 4]) else None
      case _ => None
    else
      DecodeQuantum(q)
  }

  /** Decodes a padded base 64 string, or fails. */
  function Decode(s: string): (r: Option<seq<byte>>)
    ensures r.Some? && s != [] ==> |r.value| >= 1
    decreases |s|
  {
    if |s| == 0 then Some([])
    else if |s| < 4 then None
    else if |s| == 4 then DecodeFinal(s)
    else
      match DecodeQuantum(s[..4])
      case None => None
      case Some(head) =>
        match Decode(s[4..])
        case None => None
        case Some(tail) => Some(head + tail)
  }

  /** Octets to six-bit values and back. */
  lemma OctetsSextets(b0: byte, b1: byte, b2: byte)
    ensures var c0, c1, c2, c3 := b0 / 4, (b0 % 4) * 16 + b1 / 16, (b1 % 16) * 4 + b2 / 64, b2 % 64;
      && c0 * 4 + c1 / 16 == b0
      && (c1 % 16) * 16 + c2 / 4 == b1
      && (c2 % 4) * 64 + c3 == b2
  {
    var c1 := (b0 % 4) * 16 + b1 / 16;
    var c2 := (b1 % 16) * 4 + b2 / 64;
    assert c1 / 16 == b0 % 4 && c1 % 16 == b1 / 16;
    assert c2 / 4 == b1 % 16 && c2 % 4 == b2 / 64;
  }

  /** Six-bit values to octets and back. */
  lemma SextetsOctets(c0: int, c1: int, c2: int, c3: int)
    requires 0 <= c0 < 64 && 0 <= c1 < 64 && 0 <= c2 < 64 && 0 <= c3 < 64
    ensures var b0, b1, b2 := c0 * 4 + c1 / 16, (c1 % 16) * 16 + c2 / 4, (c2 % 4) * 64 + c3;
      && b0 / 4 == c0
      && (b0 % 4) * 16 + b1 / 16 == c1
      && (b1 % 16) * 4 + b2 / 64 == c2
      && b2 % 64 == c3
  {
    var b0 := c0 * 4 + c1 / 16;
    var b1 := (c1 % 16) * 16 + c2 / 4;
    var b2 := (c2 % 4) * 64 + c3;
    assert b0 / 4 == c0 && b0 % 4 == c1 / 16;
    assert b1 / 16 == c1 % 16 && b1 % 16 == c2 / 4;
    assert b2 / 64 == c2 % 4 && b2 % 64 == c3;
  }

  lemma DecodeQuantumOfQuantum(b0: byte, b1: byte, b2: byte)
    ensures DecodeQuantum(Quantum(b0, b1, b2)) == Some([b0, b1, b2])
  {
    ValueChar(b0 / 4);
    ValueChar((b0 % 4) * 16 + b1 / 16);
    ValueChar((b1 % 16) * 4 + b2 / 64);
    ValueChar(b2 % 64);
    OctetsSextets(b0, b1, b2);
  }

  lemma DecodeFinalOne(b0: byte)
    ensures DecodeFinal(Encode([b0])) == Some([b0])
  {
    ValueChar(b0 / 4);
    ValueChar((b0 % 4) * 16);
  }

  lemma DecodeFinalTwo(b0: byte, b1: byte)
    ensures DecodeFinal(Encode([b0, b1])) == Some([b0, b1])
  {
    ValueChar(b0 / 4);
    ValueChar((b0 % 4) * 16 + b1 / 16);
    ValueChar((b1 % 16) * 4);
    OctetsSextets(b0, b1, 0);
  }

  lemma {:induction false} DecodeEncode(bs: seq<byte>)
    ensures Decode(Encode(bs)) == Some(bs)
    decreases |bs|
  {
    if |bs| == 1 {
      DecodeFinalOne(bs[0]);
      assert bs == [bs[0]];
    } else if |bs| == 2 {
      DecodeFinalTwo(bs[0], bs[1]);
      assert bs == [bs[0], bs[1]];
    } else if |bs| >= 3 {
      var q := Quantum(bs[0], bs[1], bs[2]);
      var s := Encode(bs);
      assert s == q + Encode(bs[3..]);
      assert s[..4] == q;
      assert s[4..] == Encode(bs[3..]);
      DecodeQuantumOfQuantum(bs[0], bs[1], bs[2]);
      assert bs[..3] == [bs[0], bs[1], bs[2]];
      if |bs| == 3 {
        assert bs == bs[..3];
        assert Encode(bs[3..]) == [];
      } else {
        DecodeEncode(bs[3..]);
        assert bs == bs[..3] + bs[3..];
      }
    }
  }

  lemma QuantumOfDecode(q: string, bs: seq<byte>)
    requires |q| == 4 && DecodeQuantum(q) == Some(bs)
    ensures |bs| == 3 && Quantum(bs[0], bs[1], bs[2]) == q
  {
    var c0, c1, c2, c3 := Value(q[0]).value, Value(q[1]).value, Value(q[2]).value, Value(q[3]).value;
    SextetsOctets(c0, c1, c2, c3);
    CharValue(q[0]);
    CharValue(q[1]);
    CharValue(q[2]);
    CharValue(q[3]);
  }

  lemma EncodeDecodeOneOctet(q: string, bs: seq<byte>)
    requires |q| == 4 && q[2] == '=' && q[3] == '=' && DecodeFinal(q) == Some(bs)
    ensures Encode(bs) == q
  {
    var c0, c1 := Value(q[0]).value, Value(q[1]).value;
    assert bs == [c0 * 4 + c1 / 16];
    SextetsOctets(c0, c1, 0, 0);
    CharValue(q[0]);
    CharValue(q[1]);
    assert Encode(bs) == [Char(c0), Char(c1), '=', '='];
  }

  lemma EncodeDecodeTwoOctets(q: string, bs: seq<byte>)
    requires |q| == 4 && q[2] != '=' && q[3] == '=' && DecodeFinal(q) == Some(bs)
    ensures Encode(bs) == q
  {
    var c0, c1, c2 := Value(q[0]).value, Value(q[1]).value, Value(q[2]).value;
    assert bs == [c0 * 4 + c1 / 16, (c1 % 16) * 16 + c2 / 4];
    SextetsOctets(c0, c1, c2, 0);
    CharValue(q[0]);
    CharValue(q[1]);
    CharValue(q[2]);
    assert Encode(bs) == [Char(c0), Char(c1), Char(c2), '='];
  }

  lemma EncodeDecodeFinal(q: string, bs: seq<byte>)
    requires |q| == 4 && DecodeFinal(q) == Some(bs)
    ensures Encode(bs) == q
  {
    if q[2] == '=' && q[3] == '=' {
      EncodeDecodeOneOctet(q, bs);
    } else if q[3] == '=' {
      EncodeDecodeTwoOctets(q, bs);
    } else {
      QuantumOfDecode(q, bs);
      assert bs[3..] == [];
    }
  }

  lemma {:induction false} EncodeDecode(s: string, bs: seq<byte>)
    requires Decode(s) == Some(bs)
    ensures Encode(bs) == s
    decreases |s|
  {
    if |s| == 4 {
      EncodeDecodeFinal(s, bs);
    } else if |s| > 4 {
      var head := DecodeQuantum(s[..4]).value;
      var tail := Decode(s[4..]).value;
      QuantumOfDecode(s[..4], head);
      EncodeDecode(s[4..], tail);
      assert bs == head + tail;
      assert bs[..3] == head && bs[3..] == tail;
      assert s == s[..4] + s[4..];
    }
  }

  /** `Decode(s) == Some(bs)` exactly when `s` is the encoding of `bs`. */
  lemma RoundTrip(s: string, bs: seq<byte>)
    ensures Decode(s) == Some(bs) <==> Encode(bs) == s
  {
    if Decode(s) == Some(bs) {
      EncodeDecode(s, bs);
    }
    if Encode(bs) == s {
      DecodeEncode(bs);
    }
  }
}
