/** `str.encode('utf-8')`: the bytes SHA-512 is computed over. A Dafny `char` is a Unicode scalar value, so the
    encoding never fails; decoding the bytes gives back every code point, which makes the encoding injective. */
module Utf8 {

  type Byte = b: int | 0 <= b < 256

  /** The 1 to 4 bytes of one code point, as RFC 3629 lays them out. */
  function EncodeChar(c: char): (bs: seq<Byte>)
    ensures 1 <= |bs| <= 4
    ensures (c as int < 0x80) <==> |bs| == 1
  {
    var n := c as int;
    if n < 0x80 then [n]
    else if n < 0x800 then [0xC0 + n / 0x40, 0x80 + n % 0x40]
    else if n < 0x1_0000 then [0xE0 + n / 0x1000, 0x80 + (n / 0x40) % 0x40, 0x80 + n % 0x40]
    else [0xF0 + n / 0x4_0000, 0x80 + (n / 0x1000) % 0x40, 0x80 + (n / 0x40) % 0x40, 0x80 + n % 0x40]
  }

  /** `s.encode('utf-8')`. */
  function Encode(s: string): (bs: seq<Byte>)
    ensures |s| <= |bs| <= 4 * |s|
  {
    if s == [] then [] else EncodeChar(s[0]) + Encode(s[1..])
  }

  /** How many bytes the sequence that starts with `lead` has. */
  function SequenceLength(lead: Byte): nat {
    if lead < 0xC0 then 1 else if lead < 0xE0 then 2 else if lead < 0xF0 then 3 else 4
  }

  /** The code point a sequence of 1 to 4 bytes spells, its marker bits stripped. */
  function CodePointOf(bs: seq<Byte>): int
    requires 1 <= |bs| <= 4
  {
    if |bs| == 1 then bs[0]
    else if |bs| == 2 then (bs[0] as int - 0xC0) * 0x40 + (bs[1] as int - 0x80)
    else if |bs| == 3 then (bs[0] as int - 0xE0) * 0x1000 + (bs[1] as int - 0x80) * 0x40 + (bs[2] as int - 0x80)
    else (bs[0] as int - 0xF0) * 0x4_0000 + (bs[1] as int - 0x80) * 0x1000 + (bs[2] as int - 0x80) * 0x40 + (bs[3] as int - 0x80)
  }

  /** The code points of a byte string read as UTF-8; a truncated last sequence is dropped. */
  function Decode(bs: seq<Byte>): seq<int>
    decreases |bs|
  {
    if bs == [] then []
    else
      var n := SequenceLength(bs[0]);
      if |bs| < n then [] else [CodePointOf(bs[..n])] + Decode(bs[n..])
  }

  function CodePoints(s: string): (r: seq<int>)
    ensures |r| == |s| && forall i :: 0 <= i < |s| ==> r[i] == s[i] as int
  {
    if s == [] then [] else [s[0] as int] + CodePoints(s[1..])
  }

  /** The lead byte of a character's encoding announces its length, and the bytes spell the character. */
  lemma EncodeCharDecodes(c: char)
    ensures SequenceLength(EncodeChar(c)[0]) == |EncodeChar(c)|
    ensures CodePointOf(EncodeChar(c)) == c as int
  {
    var n := c as int;
    if n >= 0x1_0000 {
      SplitFourBytes(n);
    } else if n >= 0x800 {
      SplitThreeBytes(n);
    }
  }

  lemma SplitThreeBytes(n: int)
    requires 0x800 <= n < 0x1_0000
    ensures n == (n / 0x1000) * 0x1000 + ((n / 0x40) % 0x40) * 0x40 + n % 0x40
  {
    var q := n / 0x40;
    assert n == q * 0x40 + n % 0x40;
    assert q == (q / 0x40) * 0x40 + q % 0x40;
    assert n / 0x1000 == q / 0x40;
  }

  lemma SplitFourBytes(n: int)
    requires 0x1_0000 <= n < 0x11_0000
    ensures n == (n / 0x4_0000) * 0x4_0000 + ((n / 0x1000) % 0x40) * 0x1000 + ((n / 0x40) % 0x40) * 0x40 + n % 0x40
  {
    var q := n / 0x40;
    var p := q / 0x40;
    assert n == q * 0x40 + n % 0x40;
    assert q == p * 0x40 + q % 0x40;
    assert p == (p / 0x40) * 0x40 + p % 0x40;
    assert n / 0x1000 == p;
    assert n / 0x4_0000 == p / 0x40;
  }

  /** Decoding a character's bytes in front of more bytes yields the character, then the rest. */
  lemma DecodeStep(c: char, rest: seq<Byte>)
    ensures Decode(EncodeChar(c) + rest) == [c as int] + Decode(rest)
  {
    var bs := EncodeChar(c) + rest;
    var n := |EncodeChar(c)|;
    EncodeCharDecodes(c);
    assert bs[0] == EncodeChar(c)[0];
    assert bs[..n] == EncodeChar(c) && bs[n..] == rest;
  }

  /** Decoding undoes the encoding. */
  lemma {:induction false} DecodeEncode(s: string)
    ensures Decode(Encode(s)) == CodePoints(s)
  {
    if s != [] {
      DecodeStep(s[0], Encode(s[1..]));
      DecodeEncode(s[1..]);
    }
  }

  /** Different strings encode to different bytes. */
  lemma EncodeInjective(s: string, t: string)
    requires Encode(s) == Encode(t)
    ensures s == t
  {
    DecodeEncode(s);
    DecodeEncode(t);
    assert CodePoints(s) == CodePoints(t);
    assert forall i :: 0 <= i < |s| ==> s[i] as int == t[i] as int;
  }

  /** An ASCII string encodes to its own character codes, one byte each. */
  lemma {:induction false} AsciiEncodesAsItself(s: string)
    requires forall i :: 0 <= i < |s| ==> s[i] as int < 0x80
    ensures Encode(s) == CodePoints(s)
  {
    if s != [] {
      AsciiEncodesAsItself(s[1..]);
    }
  }
}
