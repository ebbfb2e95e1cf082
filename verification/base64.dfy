/** Base 64 as in section 4 of RFC 4648: `Buffer.from(text).toString('base64')`
    for encoding, and Node's lenient `Buffer.from(s, 'base64')` for
    decoding (characters outside the alphabet are skipped, decoding stops at
    the first `=`, a missing pad is accepted, and the URL-safe `-`/`_` are
    read as `+`/`/`). */
module Base64 {
  import opened Wrappers

  type Byte = b: int | 0 <= b < 256
  type Sextet = v: int | 0 <= v < 64

  /** Table 1 of RFC 4648. */
  function Alphabet(v: Sextet): char
  {
    if v < 26 then ('A' as int + v) as char
    else if v < 52 then ('a' as int + (v - 26)) as char
    else if v < 62 then ('0' as int + (v - 52)) as char
    else if v == 62 then '+'
    else '/'
  }

  /** Inverse of the table, also accepting the URL-safe alphabet. */
  function SextetOf(c: char): Option<Sextet>
  {
    if 'A' <= c <= 'Z' then Some(c as int - 'A' as int)
    else if 'a' <= c <= 'z' then Some(c as int - 'a' as int + 26)
    else if '0' <= c <= '9' then Some(c as int - '0' as int + 52)
    else if c == '+' || c == '-' then Some(62)
    else if c == '/' || c == '_' then Some(63)
    else None
  }

  lemma SextetOfAlphabet(v: Sextet)
    ensures SextetOf(Alphabet(v)) == Some(v)
    ensures Alphabet(v) != '='
  {
  }

  function Quad(b0: Byte, b1: Byte, b2: Byte): string
  {
    [Alphabet(b0 / 4), Alphabet((b0 % 4) * 16 + b1 / 16),
     Alphabet((b1 % 16) * 4 + b2 / 64), Alphabet(b2 % 64)]
  }

  function Encode(b: seq<Byte>): (r: string)
    ensures |r| % 4 == 0
  {
    if |b| >= 3 then Quad(b[0], b[1], b[2]) + Encode(b[3..])
    else if |b| == 2 then
      [Alphabet(b[0] / 4), Alphabet((b[0] % 4) * 16 + b[1] / 16), Alphabet((b[1] % 16) * 4), '=']
    else if |b| == 1 then
      [Alphabet(b[0] / 4), Alphabet((b[0] % 4) * 16), '=', '=']
    else ""
  }

  /** The sextets a decoder reads: alphabet characters up to the first pad. */
  function Sextets(s: string): seq<Sextet>
  {
    if |s| == 0 || s[0] == '=' then []
    else match SextetOf(s[0])
      case None => Sextets(s[1..])
      case Some(v) => [v] + Sextets(s[1..])
  }

  /** Three bytes from four sextets. */
  function Group(a: int, b: int, c: int, d: int): seq<Byte>
    requires 0 <= a < 64 && 0 <= b < 64 && 0 <= c < 64 && 0 <= d < 64
  {
    [a * 4 + b / 16, (b % 16) * 16 + c / 4, (c % 4) * 64 + d]
  }

  function DecodeSextets(q: seq<Sextet>): seq<Byte>
  {
    if |q| >= 4 then Group(q[0], q[1], q[2], q[3]) + DecodeSextets(q[4..])
    else if |q| == 3 then Group(q[0], q[1], q[2], 0)[..2]
    else if |q| == 2 then Group(q[0], q[1], 0, 0)[..1]
    else []
  }

  function Decode(s: string): seq<Byte>
  {
    DecodeSextets(Sextets(s))
  }

  lemma {:induction false} SextetsAppend(x: string, y: string)
    requires '=' !in x
    ensures Sextets(x + y) == Sextets(x) + Sextets(y)
  {
    if |x| > 0 {
      assert (x + y)[1..] == x[1..] + y;
      SextetsAppend(x[1..], y);
    } else {
      assert x + y == y;
    }
  }

  lemma SextetsCons(v: Sextet, s: string)
    ensures Sextets([Alphabet(v)] + s) == [v] + Sextets(s)
  {
    SextetOfAlphabet(v);
    assert ([Alphabet(v)] + s)[1..] == s;
  }

  lemma SextetsPad(s: string)
    ensures Sextets(['='] + s) == []
  {
  }

  lemma QuadSextets(b0: Byte, b1: Byte, b2: Byte)
    ensures Sextets(Quad(b0, b1, b2))
      == [b0 / 4, (b0 % 4) * 16 + b1 / 16, (b1 % 16) * 4 + b2 / 64, b2 % 64]
  {
    var v0, v1, v2, v3 := b0 / 4, (b0 % 4) * 16 + b1 / 16, (b1 % 16) * 4 + b2 / 64, b2 % 64;
    SextetsCons(v3, "");
    SextetsCons(v2, [Alphabet(v3)]);
    SextetsCons(v1, [Alphabet(v2), Alphabet(v3)]);
    SextetsCons(v0, [Alphabet(v1), Alphabet(v2), Alphabet(v3)]);
    assert Quad(b0, b1, b2) == [Alphabet(v0)] + [Alphabet(v1), Alphabet(v2), Alphabet(v3)];
    assert [Alphabet(v1), Alphabet(v2), Alphabet(v3)] == [Alphabet(v1)] + [Alphabet(v2), Alphabet(v3)];
    assert [Alphabet(v2), Alphabet(v3)] == [Alphabet(v2)] + [Alphabet(v3)];
    assert [Alphabet(v3)] == [Alphabet(v3)] + "";
  }

  lemma QuadBytes(b0: Byte, b1: Byte, b2: Byte)
    ensures var v0, v1, v2, v3 := b0 / 4, (b0 % 4) * 16 + b1 / 16, (b1 % 16) * 4 + b2 / 64, b2 % 64;
      v0 * 4 + v1 / 16 == b0 && (v1 % 16) * 16 + v2 / 4 == b1 && (v2 % 4) * 64 + v3 == b2
  {
  }

  lemma TwoSextets(v0: Sextet, v1: Sextet, v2: Sextet)
    ensures Sextets([Alphabet(v0), Alphabet(v1), Alphabet(v2), '=']) == [v0, v1, v2]
  {
    SextetsPad("");
    SextetsCons(v2, "=");
    SextetsCons(v1, [Alphabet(v2), '=']);
    SextetsCons(v0, [Alphabet(v1), Alphabet(v2), '=']);
    assert [Alphabet(v0), Alphabet(v1), Alphabet(v2), '='] == [Alphabet(v0)] + [Alphabet(v1), Alphabet(v2), '='];
    assert [Alphabet(v1), Alphabet(v2), '='] == [Alphabet(v1)] + [Alphabet(v2), '='];
    assert [Alphabet(v2), '='] == [Alphabet(v2)] + "=";
    assert "=" == ['='] + "";
  }

  lemma OneSextets(v0: Sextet, v1: Sextet)
    ensures Sextets([Alphabet(v0), Alphabet(v1), '=', '=']) == [v0, v1]
  {
    SextetsPad("=");
    SextetsCons(v1, "==");
    SextetsCons(v0, [Alphabet(v1), '=', '=']);
    assert [Alphabet(v0), Alphabet(v1), '=', '='] == [Alphabet(v0)] + [Alphabet(v1), '=', '='];
    assert [Alphabet(v1), '=', '='] == [Alphabet(v1)] + "==";
    assert "==" == ['='] + "=";
  }

  lemma GroupTwo(b0: Byte, b1: Byte)
    ensures DecodeSextets([b0 / 4, (b0 % 4) * 16 + b1 / 16, (b1 % 16) * 4]) == [b0, b1]
  {
    var v0: Sextet, v1: Sextet, v2: Sextet := b0 / 4, (b0 % 4) * 16 + b1 / 16, (b1 % 16) * 4;
    QuadBytes(b0, b1, 0);
    assert DecodeSextets([v0, v1, v2]) == Group(v0, v1, v2, 0)[..2];
  }

  lemma GroupOne(b0: Byte)
    ensures DecodeSextets([b0 / 4, (b0 % 4) * 16]) == [b0]
  {
    var v0: Sextet, v1: Sextet := b0 / 4, (b0 % 4) * 16;
    QuadBytes(b0, 0, 0);
    assert DecodeSextets([v0, v1]) == Group(v0, v1, 0, 0)[..1];
  }

  lemma EncodeTwoShape(b: seq<Byte>)
    requires |b| == 2
    ensures Encode(b) == [Alphabet(b[0] / 4), Alphabet((b[0] % 4) * 16 + b[1] / 16), Alphabet((b[1] % 16) * 4), '=']
  {
  }

  lemma EncodeTwo(b: seq<Byte>)
    requires |b| == 2
    ensures DecodeSextets(Sextets(Encode(b))) == b
  {
    EncodeTwoShape(b);
    TwoBack(b[0], b[1]);
    assert b == [b[0], b[1]];
  }

  lemma TwoBack(b0: Byte, b1: Byte)
    ensures DecodeSextets(Sextets([Alphabet(b0 / 4), Alphabet((b0 % 4) * 16 + b1 / 16), Alphabet((b1 % 16) * 4), '='])) == [b0, b1]
  {
    TwoSextets(b0 / 4, (b0 % 4) * 16 + b1 / 16, (b1 % 16) * 4);
    GroupTwo(b0, b1);
  }

  lemma EncodeOne(b: seq<Byte>)
    requires |b| == 1
    ensures DecodeSextets(Sextets(Encode(b))) == b
  {
    var b0 := b[0];
    OneSextets(b0 / 4, (b0 % 4) * 16);
    GroupOne(b0);
    assert b == [b0];
  }

  lemma QuadNoPad(b0: Byte, b1: Byte, b2: Byte)
    ensures '=' !in Quad(b0, b1, b2)
  {
    SextetOfAlphabet(b0 / 4);
    SextetOfAlphabet((b0 % 4) * 16 + b1 / 16);
    SextetOfAlphabet((b1 % 16) * 4 + b2 / 64);
    SextetOfAlphabet(b2 % 64);
  }

  lemma {:induction false} EncodeSextets(b: seq<Byte>)
    ensures DecodeSextets(Sextets(Encode(b))) == b
    decreases |b|
  {
    if |b| >= 3 {
      var q := Quad(b[0], b[1], b[2]);
      var rest := Encode(b[3..]);
      QuadSextets(b[0], b[1], b[2]);
      QuadBytes(b[0], b[1], b[2]);
      QuadNoPad(b[0], b[1], b[2]);
      SextetsAppend(q, rest);
      EncodeSextets(b[3..]);
      var s := Sextets(q) + Sextets(rest);
      assert s[4..] == Sextets(rest);
      assert DecodeSextets(s) == Group(s[0], s[1], s[2], s[3]) + DecodeSextets(s[4..]);
      assert b == b[..3] + b[3..];
    } else if |b| == 2 {
      EncodeTwo(b);
    } else if |b| == 1 {
      EncodeOne(b);
    }
  }

  /** Section 4 of RFC 4648 is a bijection on byte strings: decoding an
      encoding gives the bytes back. */
  lemma DecodeEncode(b: seq<Byte>)
    ensures Decode(Encode(b)) == b
  {
    EncodeSextets(b);
  }
}
