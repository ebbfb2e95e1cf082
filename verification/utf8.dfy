/** UTF-8 (RFC 3629) as Node's `Buffer` uses it: `Buffer.from(text)`
    encodes a text, and `buf.toString('utf8')` decodes bytes. The decoder
    replaces a byte that does not start a well-formed sequence with U+FFFD
    and goes on with the next byte. */
module Utf8 {
  import Base64

  type Byte = Base64.Byte

  /** A continuation byte `10xxxxxx`. */
  predicate Cont(b: Byte) { 0x80 <= b < 0xC0 }

  /** The bytes of one character (Table 3-6 of the Unicode standard). */
  function EncodeChar(c: char): (r: seq<Byte>)
    ensures 1 <= |r| <= 4
  {
    var v := c as int;
    if v < 0x80 then [v]
    else if v < 0x800 then [0xC0 + v / 64, 0x80 + v % 64]
    else if v < 0x10000 then [0xE0 + v / 4096, 0x80 + (v / 64) % 64, 0x80 + v % 64]
    else [0xF0 + v / 262144, 0x80 + (v / 4096) % 64, 0x80 + (v / 64) % 64, 0x80 + v % 64]
  }

  /** `Buffer.from(text)`. */
  function Encode(s: string): (r: seq<Byte>)
    ensures |r| >= |s|
  {
    if |s| == 0 then [] else EncodeChar(s[0]) + Encode(s[1..])
  }

  /** The length of the well-formed sequence `b` starts with (Table 3-7 of
      the Unicode standard), or 0 when it starts with none. */
  function SeqLen(b: seq<Byte>): (n: nat)
    requires |b| > 0
    ensures n <= |b| && n <= 4
  {
    var b0 := b[0];
    if b0 < 0x80 then 1
    else if 0xC2 <= b0 <= 0xDF && |b| >= 2 && Cont(b[1]) then 2
    else if 0xE0 <= b0 <= 0xEF && |b| >= 3 && Cont(b[1]) && Cont(b[2])
      && (b0 == 0xE0 ==> b[1] >= 0xA0) && (b0 == 0xED ==> b[1] < 0xA0) then 3
    else if 0xF0 <= b0 <= 0xF4 && |b| >= 4 && Cont(b[1]) && Cont(b[2]) && Cont(b[3])
      && (b0 == 0xF0 ==> b[1] >= 0x90) && (b0 == 0xF4 ==> b[1] < 0x90) then 4
    else 0
  }

  /** The code point a well-formed sequence of `n` bytes spells. */
  function SeqValue(b: seq<Byte>, n: nat): int
    requires 1 <= n <= |b| && n <= 4
  {
    var x0, x1, x2, x3 := b[0] as int, if n > 1 then b[1] as int else 0x80,
      if n > 2 then b[2] as int else 0x80, if n > 3 then b[3] as int else 0x80;
    if n == 1 then x0
    else if n == 2 then (x0 - 0xC0) * 64 + (x1 - 0x80)
    else if n == 3 then (x0 - 0xE0) * 4096 + (x1 - 0x80) * 64 + (x2 - 0x80)
    else (x0 - 0xF0) * 262144 + (x1 - 0x80) * 4096 + (x2 - 0x80) * 64 + (x3 - 0x80)
  }

  /** The character a well-formed sequence spells. */
  function SeqChar(b: seq<Byte>): char
    requires |b| > 0 && SeqLen(b) > 0
  {
    var v := SeqValue(b, SeqLen(b));
    if 0 <= v < 0xD800 || 0xE000 <= v < 0x11_0000 then v as char
    else assert false; '\U{FFFD}'
  }

  /** Decoding goes sequence by sequence. */
  function Decode(b: seq<Byte>): (r: string)
    ensures |r| <= |b|
    decreases |b|
  {
    if |b| == 0 then ""
    else
      var n := SeqLen(b);
      if n == 0 then ['\U{FFFD}'] + Decode(b[1..])
      else [SeqChar(b)] + Decode(b[n..])
  }

  /** The bytes of one character are a well-formed sequence that spells
      it. */
  lemma CharRoundTrip(c: char, rest: seq<Byte>)
    ensures var e := EncodeChar(c) + rest; SeqLen(e) == |EncodeChar(c)| && SeqChar(e) == c
  {
    var v := c as int;
    var e := EncodeChar(c) + rest;
    if v < 0x80 {
    } else if v < 0x800 {
      Two(v, e);
    } else if v < 0x10000 {
      Three(v, e);
    } else {
      Four(v, e);
    }
  }

  lemma Two(v: int, e: seq<Byte>)
    requires 0x80 <= v < 0x800 && |e| >= 2 && e[0] == 0xC0 + v / 64 && e[1] == 0x80 + v % 64
    ensures SeqLen(e) == 2 && SeqValue(e, 2) == v
  {
  }

  lemma Three(v: int, e: seq<Byte>)
    requires 0x800 <= v < 0x10000 && !(0xD800 <= v < 0xE000) && |e| >= 3
    requires e[0] == 0xE0 + v / 4096 && e[1] == 0x80 + (v / 64) % 64 && e[2] == 0x80 + v % 64
    ensures SeqLen(e) == 3 && SeqValue(e, 3) == v
  {
    assert v == (v / 4096) * 4096 + ((v / 64) % 64) * 64 + v % 64;
  }

  lemma Four(v: int, e: seq<Byte>)
    requires 0x10000 <= v < 0x11_0000 && |e| >= 4
    requires e[0] == 0xF0 + v / 262144 && e[1] == 0x80 + (v / 4096) % 64
    requires e[2] == 0x80 + (v / 64) % 64 && e[3] == 0x80 + v % 64
    ensures SeqLen(e) == 4 && SeqValue(e, 4) == v
  {
    assert v == (v / 262144) * 262144 + ((v / 4096) % 64) * 4096 + ((v / 64) % 64) * 64 + v % 64;
  }

  /** Decoding the encoding of a text gives the text back. */
  lemma {:induction false} DecodeEncode(s: string)
    ensures Decode(Encode(s)) == s
  {
    if |s| > 0 {
      var e := EncodeChar(s[0]);
      CharRoundTrip(s[0], Encode(s[1..]));
      assert (e + Encode(s[1..]))[|e|..] == Encode(s[1..]);
      DecodeEncode(s[1..]);
    }
  }

  /** Decoding goes sequence by sequence: text decoded after a well-formed
      sequence follows that sequence's character. */
  lemma DecodeAppend(c: char, rest: seq<Byte>)
    ensures Decode(EncodeChar(c) + rest) == [c] + Decode(rest)
  {
    var e := EncodeChar(c) + rest;
    CharRoundTrip(c, rest);
    assert e[|EncodeChar(c)|..] == rest;
  }

  /** ASCII text encodes byte for byte. */
  lemma {:induction false} EncodeAscii(s: string)
    requires forall i :: 0 <= i < |s| ==> s[i] as int < 0x80
    ensures |Encode(s)| == |s|
    ensures forall i :: 0 <= i < |s| ==> Encode(s)[i] == s[i] as int
  {
    if |s| > 0 {
      EncodeAscii(s[1..]);
      assert Encode(s) == [s[0] as int] + Encode(s[1..]);
    }
  }
}
