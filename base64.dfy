// Base64 as the debug log uses it: the alphabet of section 4 of RFC 4648,
// padded with '=', never split into lines. Decoding follows the lenient
// decoder of Apache commons-codec: it stops at the first '=', skips every
// character outside the standard alphabet (including the URL-safe '-' and
// '_', which commons-codec would decode), and turns a trailing group of two or three
// characters into one or two bytes.

module Base64 {
  import opened Common

  type Sextet = x: int | 0 <= x < 64

  /** The character that encodes a six-bit value. */
  function CharOf(v: Sextet): (c: char)
  {
    if v < 26 then (65 + v) as char
    else if v < 52 then (97 + v - 26) as char
    else if v < 62 then (48 + v - 52) as char
    else if v == 62 then '+'
    else '/'
  }

  /** The six-bit value of an alphabet character; None for any other character. */
  function ValueOf(c: char): (r: Option<Sextet>)
  {
    if 'A' <= c <= 'Z' then Some(c as int - 65)
    else if 'a' <= c <= 'z' then Some(c as int - 97 + 26)
    else if '0' <= c <= '9' then Some(c as int - 48 + 52)
    else if c == '+' then Some(62)
    else if c == '/' then Some(63)
    else None
  }

  predicate InAlphabet(c: char)
  {
    ValueOf(c).Some?
  }

  /** A character that can appear in encoded output. */
  predicate EncodedChar(c: char)
  {
    InAlphabet(c) || c == '='
  }

  lemma ValueOfCharOf(v: Sextet)
    ensures ValueOf(CharOf(v)) == Some(v)
    ensures CharOf(v) != '='
  {
  }

  /** Three bytes as four characters. */
  function EncodeGroup(b0: Byte, b1: Byte, b2: Byte): string
  {
    [CharOf(b0 / 4), CharOf((b0 % 4) * 16 + b1 / 16), CharOf((b1 % 16) * 4 + b2 / 64), CharOf(b2 % 64)]
  }

  /** The padded encoding of a byte sequence, without line breaks. */
  function Encode(b: Bytes): (s: string)
    ensures |s| == 4 * ((|b| + 2) / 3)
    decreases |b|
  {
    if |b| == 0 then []
    else if |b| == 1 then
      [CharOf(b[0] / 4), CharOf((b[0] % 4) * 16), '=', '=']
    else if |b| == 2 then
      [CharOf(b[0] / 4), CharOf((b[0] % 4) * 16 + b[1] / 16), CharOf((b[1] % 16) * 4), '=']
    else
      EncodeGroup(b[0], b[1], b[2]) + Encode(b[3..])
  }

  /** The six-bit values of the alphabet characters before the first '='. */
  function SextetsBeforePad(s: string): (v: seq<Sextet>)
    ensures |v| <= |s|
  {
    if s == [] then []
    else if s[0] == '=' then []
    else match ValueOf(s[0])
      case Some(v) => [v] + SextetsBeforePad(s[1..])
      case None => SextetsBeforePad(s[1..])
  }

  /** Groups of four values make three bytes; a trailing group of three makes two, of two makes one. */
  function DecodeSextets(v: seq<Sextet>): (b: Bytes)
    ensures 4 * |b| <= 3 * |v|
  {
    if |v| >= 4 then
      [FirstByte(v[0], v[1]), SecondByte(v[1], v[2]), ThirdByte(v[2], v[3])] + DecodeSextets(v[4..])
    else if |v| == 3 then
      [FirstByte(v[0], v[1]), SecondByte(v[1], v[2])]
    else if |v| == 2 then
      [FirstByte(v[0], v[1])]
    else
      []
  }

  function FirstByte(v0: Sextet, v1: Sextet): Byte
  {
    v0 * 4 + v1 / 16
  }

  function SecondByte(v1: Sextet, v2: Sextet): Byte
  {
    (v1 % 16) * 16 + v2 / 4
  }

  function ThirdByte(v2: Sextet, v3: Sextet): Byte
  {
    (v2 % 4) * 64 + v3
  }

  /**
   * The lenient decoder: total on every line of text, and never longer than
   * three bytes for every four characters.
   */
  function Decode(s: string): (b: Bytes)
    ensures 4 * |b| <= 3 * |s|
  {
    DecodeSextets(SextetsBeforePad(s))
  }

  lemma {:induction false} SextetsBeforePadAppend(x: string, y: string)
    requires forall i :: 0 <= i < |x| ==> x[i] != '='
    ensures SextetsBeforePad(x + y) == SextetsBeforePad(x) + SextetsBeforePad(y)
  {
    if x == [] {
      assert x + y == y;
    } else {
      assert (x + y)[0] == x[0];
      assert (x + y)[1..] == x[1..] + y;
      SextetsBeforePadAppend(x[1..], y);
    }
  }

  /** A value made of a high part and a low part below 16 splits back into them. */
  lemma Split16(hi: int, lo: int)
    requires 0 <= lo < 16
    ensures (hi * 16 + lo) / 16 == hi && (hi * 16 + lo) % 16 == lo
  {
  }

  lemma Split4(hi: int, lo: int)
    requires 0 <= lo < 4
    ensures (hi * 4 + lo) / 4 == hi && (hi * 4 + lo) % 4 == lo
  {
  }

  /** The four six-bit values that encode a full group of three bytes. */
  function GroupSextets(b0: Byte, b1: Byte, b2: Byte): seq<Sextet>
  {
    [b0 / 4, (b0 % 4) * 16 + b1 / 16, (b1 % 16) * 4 + b2 / 64, b2 % 64]
  }

  lemma GroupRoundTrip(b0: Byte, b1: Byte, b2: Byte)
    ensures DecodeSextets(GroupSextets(b0, b1, b2)) == [b0, b1, b2]
  {
    var s0: Sextet, s1: Sextet, s2: Sextet, s3: Sextet := b0 / 4, (b0 % 4) * 16 + b1 / 16, (b1 % 16) * 4 + b2 / 64, b2 % 64;
    Split16(b0 % 4, b1 / 16);
    Split4(b1 % 16, b2 / 64);
    assert FirstByte(s0, s1) == b0;
    assert SecondByte(s1, s2) == b1;
    assert ThirdByte(s2, s3) == b2;
  }

  lemma SextetsOfPadded(cs: string, vs: seq<Sextet>, pad: string)
    requires |cs| == |vs| && |pad| > 0 && pad[0] == '='
    requires forall i :: 0 <= i < |cs| ==> ValueOf(cs[i]) == Some(vs[i]) && cs[i] != '='
    ensures SextetsBeforePad(cs + pad) == vs
    decreases |cs|
  {
    if cs == [] {
      assert cs + pad == pad;
    } else {
      assert (cs + pad)[1..] == cs[1..] + pad;
      SextetsOfPadded(cs[1..], vs[1..], pad);
    }
  }

  /** The sextets of the encoding of one byte. */
  lemma SextetsOfOne(b: Bytes)
    requires |b| == 1
    ensures SextetsBeforePad(Encode(b)) == [b[0] / 4, (b[0] % 4) * 16]
  {
    var s0: Sextet, s1: Sextet := b[0] / 4, (b[0] % 4) * 16;
    var cs := [CharOf(s0), CharOf(s1)];
    assert Encode(b) == cs + "==";
    ValueOfCharOf(s0);
    ValueOfCharOf(s1);
    SextetsOfPadded(cs, [s0, s1], "==");
  }

  /** The sextets of the encoding of two bytes. */
  lemma SextetsOfTwo(b: Bytes)
    requires |b| == 2
    ensures SextetsBeforePad(Encode(b)) == [b[0] / 4, (b[0] % 4) * 16 + b[1] / 16, (b[1] % 16) * 4]
  {
    var s0: Sextet, s1: Sextet, s2: Sextet := b[0] / 4, (b[0] % 4) * 16 + b[1] / 16, (b[1] % 16) * 4;
    var cs := [CharOf(s0), CharOf(s1), CharOf(s2)];
    assert Encode(b) == cs + "=";
    ValueOfCharOf(s0);
    ValueOfCharOf(s1);
    ValueOfCharOf(s2);
    SextetsOfPadded(cs, [s0, s1, s2], "=");
  }

  /** The trailing groups of two and three sextets give back their one and two bytes. */
  lemma ShortGroupsRoundTrip(b0: Byte, b1: Byte)
    ensures DecodeSextets([b0 / 4, (b0 % 4) * 16]) == [b0]
    ensures DecodeSextets([b0 / 4, (b0 % 4) * 16 + b1 / 16, (b1 % 16) * 4]) == [b0, b1]
  {
    Split16(b0 % 4, 0);
    Split16(b0 % 4, b1 / 16);
    Split4(b1 % 16, 0);
    assert FirstByte(b0 / 4, (b0 % 4) * 16) == b0;
    assert FirstByte(b0 / 4, (b0 % 4) * 16 + b1 / 16) == b0;
    assert SecondByte((b0 % 4) * 16 + b1 / 16, (b1 % 16) * 4) == b1;
  }

  lemma DecodeEncodeOne(b: Bytes)
    requires |b| == 1
    ensures Decode(Encode(b)) == b
  {
    SextetsOfOne(b);
    ShortGroupsRoundTrip(b[0], 0);
  }

  lemma DecodeEncodeTwo(b: Bytes)
    requires |b| == 2
    ensures Decode(Encode(b)) == b
  {
    SextetsOfTwo(b);
    ShortGroupsRoundTrip(b[0], b[1]);
    assert b == [b[0], b[1]];
  }

  lemma SextetsOfGroup(b0: Byte, b1: Byte, b2: Byte)
    ensures SextetsBeforePad(EncodeGroup(b0, b1, b2)) == GroupSextets(b0, b1, b2)
  {
    var g := EncodeGroup(b0, b1, b2);
    var s0, s1, s2, s3 := b0 / 4, (b0 % 4) * 16 + b1 / 16, (b1 % 16) * 4 + b2 / 64, b2 % 64;
    ValueOfCharOf(s0);
    ValueOfCharOf(s1);
    ValueOfCharOf(s2);
    ValueOfCharOf(s3);
    assert g[3..][1..] == [];
    assert SextetsBeforePad(g[3..]) == [s3];
    assert g[2..][1..] == g[3..];
    assert SextetsBeforePad(g[2..]) == [s2, s3];
    assert g[1..][1..] == g[2..];
    assert SextetsBeforePad(g[1..]) == [s1, s2, s3];
  }

  /** A full group has no padding character. */
  lemma GroupHasNoPad(b0: Byte, b1: Byte, b2: Byte)
    ensures forall i :: 0 <= i < |EncodeGroup(b0, b1, b2)| ==> EncodeGroup(b0, b1, b2)[i] != '='
  {
    var s0: Sextet, s1: Sextet, s2: Sextet, s3: Sextet := b0 / 4, (b0 % 4) * 16 + b1 / 16, (b1 % 16) * 4 + b2 / 64, b2 % 64;
    ValueOfCharOf(s0);
    ValueOfCharOf(s1);
    ValueOfCharOf(s2);
    ValueOfCharOf(s3);
  }

  lemma EncodeLong(b: Bytes)
    requires |b| >= 3
    ensures Encode(b) == EncodeGroup(b[0], b[1], b[2]) + Encode(b[3..])
  {
  }

  /** The sextets of an encoding of three bytes or more: the first group's, then those of the rest. */
  lemma SextetsOfLong(b: Bytes)
    requires |b| >= 3
    ensures SextetsBeforePad(Encode(b)) == GroupSextets(b[0], b[1], b[2]) + SextetsBeforePad(Encode(b[3..]))
  {
    var g := EncodeGroup(b[0], b[1], b[2]);
    EncodeLong(b);
    GroupHasNoPad(b[0], b[1], b[2]);
    SextetsBeforePadAppend(g, Encode(b[3..]));
    SextetsOfGroup(b[0], b[1], b[2]);
  }

  /** A full group of four sextets decodes on its own. */
  lemma DecodeGroupThen(vs: seq<Sextet>, rest: seq<Sextet>)
    requires |vs| == 4
    ensures DecodeSextets(vs + rest) == DecodeSextets(vs) + DecodeSextets(rest)
  {
    assert (vs + rest)[4..] == rest;
    assert vs[4..] == [];
    assert (vs + rest)[..4] == vs;
  }

  /** Decoding undoes encoding, for every byte sequence. */
  lemma {:induction false} DecodeEncode(b: Bytes)
    ensures Decode(Encode(b)) == b
    decreases |b|
  {
    if |b| == 0 {
    } else if |b| == 1 {
      DecodeEncodeOne(b);
    } else if |b| == 2 {
      DecodeEncodeTwo(b);
    } else {
      var vs := GroupSextets(b[0], b[1], b[2]);
      var rest := SextetsBeforePad(Encode(b[3..]));
      SextetsOfLong(b);
      DecodeGroupThen(vs, rest);
      GroupRoundTrip(b[0], b[1], b[2]);
      DecodeEncode(b[3..]);
      assert b == [b[0], b[1], b[2]] + b[3..];
    }
  }

  /** Every character of an encoding is in the alphabet, or padding. */
  lemma {:induction false} EncodeInAlphabet(b: Bytes)
    ensures forall i :: 0 <= i < |Encode(b)| ==> EncodedChar(Encode(b)[i])
    decreases |b|
  {
    if |b| == 1 {
      ValueOfCharOf(b[0] / 4);
      ValueOfCharOf((b[0] % 4) * 16);
    } else if |b| == 2 {
      ValueOfCharOf(b[0] / 4);
      ValueOfCharOf((b[0] % 4) * 16 + b[1] / 16);
      ValueOfCharOf((b[1] % 16) * 4);
    } else if |b| >= 3 {
      var g := EncodeGroup(b[0], b[1], b[2]);
      ValueOfCharOf(b[0] / 4);
      ValueOfCharOf((b[0] % 4) * 16 + b[1] / 16);
      ValueOfCharOf((b[1] % 16) * 4 + b[2] / 64);
      ValueOfCharOf(b[2] % 64);
      assert forall i :: 0 <= i < |g| ==> EncodedChar(g[i]);
      EncodeInAlphabet(b[3..]);
      EncodeLong(b);
    }
  }

  /** An encoded payload is one line: it never holds a line break. */
  lemma EncodeHasNoLineBreaks(b: Bytes)
    ensures forall i :: 0 <= i < |Encode(b)| ==> Encode(b)[i] != '\r' && Encode(b)[i] != '\n'
  {
    EncodeInAlphabet(b);
    assert !EncodedChar('\r') && !EncodedChar('\n');
  }
}
