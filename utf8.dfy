/**
 * UTF-8 as defined by RFC 3629: the transformation of Unicode scalar values
 * (Dafny's `char`) into one to four octets, and the decoder that accepts
 * exactly the octet sequences the encoder produces (no overlong forms, no
 * surrogates, nothing above U+10FFFF).
 */
module Utf8 {
  import opened Wrappers

  type byte = b: int | 0 <= b < 0x100

  /** A continuation octet, bit pattern 10xxxxxx. */
  predicate IsContinuation(b: byte) {
    0x80 <= b < 0xC0
  }

  /** Number of octets RFC 3629 uses for the scalar value `c`. */
  function Width(c: char): (n: nat)
    ensures 1 <= n <= 4
  {
    var v := c as int;
    if v < 0x80 then 1 else if v < 0x800 then 2 else if v < 0x10000 then 3 else 4
  }

  /**
   * Number of octets announced by a lead octet (section 4 of RFC 3629,
   * UTF8-1 to UTF8-4), or 0 for an octet that cannot start a character.
   */
  function LeadWidth(b: byte): (n: nat)
    ensures n <= 4
  {
    if b < 0x80 then 1
    else if 0xC2 <= b <= 0xDF then 2
    else if 0xE0 <= b <= 0xEF then 3
    else if 0xF0 <= b <= 0xF4 then 4
    else 0
  }

  /** The octets of one scalar value, most significant bits first. */
  function EncodeScalar(c: char): (r: seq<byte>)
    ensures |r| == Width(c)
    ensures LeadWidth(r[0]) == |r|
    ensures forall k :: 1 <= k < |r| ==> IsContinuation(r[k])
  {
    var v := c as int;
    if v < 0x80 then [v]
    else if v < 0x800 then [0xC0 + v / 64, 0x80 + v % 64]
    else if v < 0x10000 then [0xE0 + v / 4096, 0x80 + (v / 64) % 64, 0x80 + v % 64]
    else [0xF0 + v / 262144, 0x80 + (v / 4096) % 64, 0x80 + (v / 64) % 64, 0x80 + v % 64]
  }

  /** Is `v` a Unicode scalar value (a code point that is not a surrogate)? */
  predicate IsScalar(v: int) {
    (0 <= v < 0xD800) || (0xE000 <= v <= 0x10FFFF)
  }

  /**
   * Decodes exactly one character from `bs`, which must be all of its
   * octets; fails on every ill-formed sequence RFC 3629 rules out.
   */
  function DecodeScalar(bs: seq<byte>): Option<char>
  {
    if |bs| == 1 then
      if bs[0] < 0x80 then Some(bs[0] as char) else None
    else if |bs| == 2 then
      var b0, b1 := bs[0] as int, bs[1] as int;
      if 0xC2 <= b0 <= 0xDF && IsContinuation(bs[1]) then
        Some(((b0 - 0xC0) * 64 + (b1 - 0x80)) as char)
      else None
    else if |bs| == 3 then
      var b0, b1, b2 := bs[0] as int, bs[1] as int, bs[2] as int;
      if 0xE0 <= b0 <= 0xEF && IsContinuation(bs[1]) && IsContinuation(bs[2]) then
        var v := (b0 - 0xE0) * 4096 + (b1 - 0x80) * 64 + (b2 - 0x80);
        if 0x800 <= v && IsScalar(v) then Some(v as char) else None
      else None
    else if |bs| == 4 then
      var b0, b1, b2, b3 := bs[0] as int, bs[1] as int, bs[2] as int, bs[3] as int;
      if 0xF0 <= b0 <= 0xF4 && IsContinuation(bs[1]) && IsContinuation(bs[2]) && IsContinuation(bs[3]) then
        var v := (b0 - 0xF0) * 262144 + (b1 - 0x80) * 4096 + (b2 - 0x80) * 64 + (b3 - 0x80);
        if 0x10000 <= v <= 0x10FFFF then Some(v as char) else None
      else None
    else None
  }

  /** `utf8.encode`: the octets of every character, in order. */
  function Encode(s: string): (r: seq<byte>)
    ensures |s| <= |r| <= 4 * |s|
    decreases |s|
  {
    if s == [] then [] else EncodeScalar(s[0]) + Encode(s[1..])
  }

  /** Decodes a whole octet sequence, or fails if any part is ill-formed. */
  function Decode(bs: seq<byte>): Option<string>
    decreases |bs|
  {
    if bs == [] then Some([])
    else
      var n := LeadWidth(bs[0]);
      if n == 0 || n > |bs| then None
      else match DecodeScalar(bs[..n])
        case None => None
        case Some(c) =>
          match Decode(bs[n..])
          case None => None
          case Some(rest) => Some([c] + rest)
  }

  /** ASCII characters are their own single octet. */
  lemma EncodeAscii(s: string)
    requires forall k :: 0 <= k < |s| ==> s[k] as int < 0x80
    ensures |Encode(s)| == |s|
    ensures forall k :: 0 <= k < |s| ==> Encode(s)[k] == s[k] as int
  {
    if s != [] {
      EncodeAscii(s[1..]);
    }
  }

  /** The encoding has one octet per character exactly when every character is ASCII. */
  lemma {:induction false} EncodeLength(s: string)
    ensures |Encode(s)| == |s| <==> forall k :: 0 <= k < |s| ==> s[k] as int < 0x80
    decreases |s|
  {
    if s != [] {
      EncodeLength(s[1..]);
      assert forall k :: 1 <= k < |s| ==> s[k] == s[1..][k - 1];
    }
  }

  /** Splitting `q * 64 + r` back into its six-bit digit and the rest. */
  lemma Digit64(q: int, r: int)
    requires 0 <= r < 64
    ensures (q * 64 + r) / 64 == q && (q * 64 + r) % 64 == r
  {
  }

  lemma Split4096(q: int, r: int)
    requires 0 <= r < 4096
    ensures (q * 4096 + r) / 4096 == q
  {
  }

  lemma Split262144(q: int, r: int)
    requires 0 <= r < 262144
    ensures (q * 262144 + r) / 262144 == q
  {
  }

  /** The decoder reads back every character the encoder writes. */
  lemma DecodeEncodeScalar(c: char)
    ensures DecodeScalar(EncodeScalar(c)) == Some(c)
  {
    var v := c as int;
    if v < 0x80 {
    } else if v < 0x800 {
      assert (v / 64) * 64 + v % 64 == v;
    } else if v < 0x10000 {
      assert v == (v / 64) * 64 + v % 64;
      assert v / 64 == (v / 4096) * 64 + (v / 64) % 64;
      assert v == (v / 4096) * 4096 + ((v / 64) % 64) * 64 + v % 64;
    } else {
      assert v == (v / 64) * 64 + v % 64;
      assert v / 64 == (v / 4096) * 64 + (v / 64) % 64;
      assert v / 4096 == (v / 262144) * 64 + (v / 4096) % 64;
      assert v == (v / 262144) * 262144 + ((v / 4096) % 64) * 4096 + ((v / 64) % 64) * 64 + v % 64;
    }
  }

  lemma EncodeDecodeTwo(bs: seq<byte>, c: char)
    requires |bs| == 2 && DecodeScalar(bs) == Some(c)
    ensures EncodeScalar(c) == bs
  {
    var a, b := bs[0] as int - 0xC0, bs[1] as int - 0x80;
    Digit64(a, b);
    var r := EncodeScalar(c);
    assert r[0] == bs[0] && r[1] == bs[1];
  }

  lemma EncodeDecodeThree(bs: seq<byte>, c: char)
    requires |bs| == 3 && DecodeScalar(bs) == Some(c)
    ensures EncodeScalar(c) == bs
  {
    var a, b, d := bs[0] as int - 0xE0, bs[1] as int - 0x80, bs[2] as int - 0x80;
    var v := c as int;
    assert v == (a * 64 + b) * 64 + d;
    Digit64(a * 64 + b, d);
    Digit64(a, b);
    Split4096(a, b * 64 + d);
    var r := EncodeScalar(c);
    assert r[0] == bs[0] && r[1] == bs[1] && r[2] == bs[2];
  }

  lemma EncodeDecodeFour(bs: seq<byte>, c: char)
    requires |bs| == 4 && DecodeScalar(bs) == Some(c)
    ensures EncodeScalar(c) == bs
  {
    var a, b, d, e := bs[0] as int - 0xF0, bs[1] as int - 0x80, bs[2] as int - 0x80, bs[3] as int - 0x80;
    var v := c as int;
    assert v == ((a * 64 + b) * 64 + d) * 64 + e;
    Digit64((a * 64 + b) * 64 + d, e);
    Digit64(a * 64 + b, d);
    Digit64(a, b);
    Split4096(a * 64 + b, d * 64 + e);
    Split262144(a, (b * 64 + d) * 64 + e);
    var r := EncodeScalar(c);
    assert r[0] == bs[0] && r[1] == bs[1] && r[2] == bs[2] && r[3] == bs[3];
  }

  /** The decoder accepts only what the encoder writes: no second spelling of a character. */
  lemma EncodeDecodeScalar(bs: seq<byte>, c: char)
    requires DecodeScalar(bs) == Some(c)
    ensures EncodeScalar(c) == bs
  {
    if |bs| == 2 {
      EncodeDecodeTwo(bs, c);
    } else if |bs| == 3 {
      EncodeDecodeThree(bs, c);
    } else if |bs| == 4 {
      EncodeDecodeFour(bs, c);
    }
  }

  lemma {:induction false} DecodeEncode(s: string)
    ensures Decode(Encode(s)) == Some(s)
    decreases |s|
  {
    if s != [] {
      var head := EncodeScalar(s[0]);
      var bs := Encode(s);
      assert bs == head + Encode(s[1..]);
      assert bs[0] == head[0];
      assert bs[..|head|] == head;
      assert bs[|head|..] == Encode(s[1..]);
      DecodeEncodeScalar(s[0]);
      DecodeEncode(s[1..]);
      assert [s[0]] + s[1..] == s;
    }
  }

  /** The first step of a successful `Decode`: one scalar, then the rest. */
  lemma DecodeStep(bs: seq<byte>, s: string)
    requires bs != [] && Decode(bs) == Some(s)
    ensures var n := LeadWidth(bs[0]);
      && 1 <= n <= |bs| && s != []
      && DecodeScalar(bs[..n]) == Some(s[0])
      && Decode(bs[n..]) == Some(s[1..])
  {
  }

  /** Joining the octets of the first character with those of the rest gives the whole encoding. */
  lemma EncodeJoin(bs: seq<byte>, s: string, n: nat)
    requires s != [] && n <= |bs|
    requires EncodeScalar(s[0]) == bs[..n] && Encode(s[1..]) == bs[n..]
    ensures Encode(s) == bs
  {
    assert bs == bs[..n] + bs[n..];
  }

  lemma {:induction false} EncodeDecode(bs: seq<byte>, s: string)
    requires Decode(bs) == Some(s)
    ensures Encode(s) == bs
    decreases |bs|
  {
    if bs != [] {
      DecodeStep(bs, s);
      var n := LeadWidth(bs[0]);
      EncodeDecodeScalar(bs[..n], s[0]);
      EncodeDecode(bs[n..], s[1..]);
      EncodeJoin(bs, s, n);
    }
  }

  lemma RoundTrip(bs: seq<byte>, s: string)
    ensures Decode(bs) == Some(s) <==> Encode(s) == bs
  {
    if Decode(bs) == Some(s) {
      EncodeDecode(bs, s);
    }
    if Encode(s) == bs {
      DecodeEncode(s);
    }
  }
}
