/** UTF-8 as RFC 3629 defines it: the encoding of section 3 and the byte grammar of section 4. */
module Utf8Spec {
  import opened Sequences

  type byte = bv8

  /** A Unicode scalar value: at most U+10FFFF and no surrogate. */
  type Scalar = v: bv32 | v <= 0x10FFFF && !(0xD800 <= v <= 0xDFFF)

  /** Section 3 of RFC 3629: one to four octets, the bits of v from the high end down. */
  function Encode(v: Scalar): seq<byte> {
    if v <= 0x7F then
      [v as byte]
    else if v <= 0x7FF then
      [0xC0 | (v >> 6) as byte, Tail(v)]
    else if v <= 0xFFFF then
      [0xE0 | (v >> 12) as byte, Tail(v >> 6), Tail(v)]
    else
      [0xF0 | (v >> 18) as byte, Tail(v >> 12), Tail(v >> 6), Tail(v)]
  }

  function Tail(v: bv32): byte {
    0x80 | (v & 0x3F) as byte
  }

  predicate IsTail(b: byte) {
    0x80 <= b <= 0xBF
  }

  /** Section 4 of RFC 3629: the productions UTF8-1 to UTF8-4. */
  predicate IsChar(c: seq<byte>) {
    || (|c| == 1 && c[0] <= 0x7F)
    || (|c| == 2 && 0xC2 <= c[0] <= 0xDF && IsTail(c[1]))
    || (|c| == 3 && IsTail(c[1]) && IsTail(c[2])
        && (|| (c[0] == 0xE0 && 0xA0 <= c[1])
            || (0xE1 <= c[0] <= 0xEC)
            || (c[0] == 0xED && c[1] <= 0x9F)
            || (0xEE <= c[0] <= 0xEF)))
    || (|c| == 4 && IsTail(c[1]) && IsTail(c[2]) && IsTail(c[3])
        && (|| (c[0] == 0xF0 && 0x90 <= c[1])
            || (0xF1 <= c[0] <= 0xF3)
            || (c[0] == 0xF4 && c[1] <= 0x8F)))
  }

  /** A UTF-8 octet sequence is a concatenation of well-formed characters. */
  ghost predicate IsUtf8(s: seq<byte>) {
    exists cs: seq<seq<byte>> :: (forall i | 0 <= i < |cs| :: IsChar(cs[i])) && Flatten(cs) == s
  }

  /** Some continuation makes the sequence well-formed. */
  ghost predicate IsUtf8Prefix(s: seq<byte>) {
    exists t :: IsUtf8(s + t)
  }

  function EncodeAll(vs: seq<Scalar>): seq<byte> {
    if vs == [] then [] else Encode(vs[0]) + EncodeAll(vs[1..])
  }

  // The payload bits of a two, three and four octet character.

  function Bits2(b0: byte, b1: byte): bv32 {
    ((b0 & 0x1F) as bv32 << 6) | (b1 & 0x3F) as bv32
  }

  function Bits3(b0: byte, b1: byte, b2: byte): bv32 {
    ((b0 & 0x0F) as bv32 << 12) | ((b1 & 0x3F) as bv32 << 6) | (b2 & 0x3F) as bv32
  }

  function Bits4(b0: byte, b1: byte, b2: byte, b3: byte): bv32 {
    ((b0 & 0x07) as bv32 << 18) | ((b1 & 0x3F) as bv32 << 12) | ((b2 & 0x3F) as bv32 << 6) | (b3 & 0x3F) as bv32
  }

  lemma Bits2Range(b0: byte, b1: byte)
    requires 0xC2 <= b0 <= 0xDF && IsTail(b1)
    ensures 0x80 <= Bits2(b0, b1) <= 0x7FF
    ensures 0xC0 | (Bits2(b0, b1) >> 6) as byte == b0 && Tail(Bits2(b0, b1)) == b1
  {
  }

  lemma Bits3Range(b0: byte, b1: byte, b2: byte)
    requires 0xE0 <= b0 <= 0xEF && IsTail(b1) && IsTail(b2)
    ensures Bits3(b0, b1, b2) <= 0xFFFF
    ensures 0x800 <= Bits3(b0, b1, b2) <==> b0 != 0xE0 || 0xA0 <= b1
    ensures 0xD800 <= Bits3(b0, b1, b2) <= 0xDFFF <==> b0 == 0xED && 0xA0 <= b1
  {
  }

  lemma Bits3Octets(b0: byte, b1: byte, b2: byte)
    requires 0xE0 <= b0 <= 0xEF && IsTail(b1) && IsTail(b2)
    ensures var v := Bits3(b0, b1, b2);
            0xE0 | (v >> 12) as byte == b0 && Tail(v >> 6) == b1 && Tail(v) == b2
  {
  }

  lemma Bits4Range(b0: byte, b1: byte, b2: byte, b3: byte)
    requires 0xF0 <= b0 <= 0xF4 && IsTail(b1) && IsTail(b2) && IsTail(b3)
    ensures 0x10000 <= Bits4(b0, b1, b2, b3) <==> b0 != 0xF0 || 0x90 <= b1
    ensures Bits4(b0, b1, b2, b3) <= 0x10FFFF <==> b0 != 0xF4 || b1 <= 0x8F
  {
  }

  lemma Bits4Octets(b0: byte, b1: byte, b2: byte, b3: byte)
    requires 0xF0 <= b0 <= 0xF4 && IsTail(b1) && IsTail(b2) && IsTail(b3)
    ensures var v := Bits4(b0, b1, b2, b3);
            0xF0 | (v >> 18) as byte == b0 && Tail(v >> 12) == b1 && Tail(v >> 6) == b2 && Tail(v) == b3
  {
  }

  /** The scalar value that the character c encodes. */
  function ScalarOf(c: seq<byte>): Scalar
    requires IsChar(c)
  {
    if |c| == 1 then
      c[0] as bv32
    else if |c| == 2 then
      (Bits2Range(c[0], c[1]); Bits2(c[0], c[1]))
    else if |c| == 3 then
      (Bits3Range(c[0], c[1], c[2]); Bits3(c[0], c[1], c[2]))
    else
      (Bits4Range(c[0], c[1], c[2], c[3]); Bits4(c[0], c[1], c[2], c[3]))
  }

  lemma Char2IsEncoding(c: seq<byte>)
    requires |c| == 2 && IsChar(c)
    ensures Encode(ScalarOf(c)) == c
  {
    Bits2Range(c[0], c[1]);
  }

  lemma Char3IsEncoding(c: seq<byte>)
    requires |c| == 3 && IsChar(c)
    ensures Encode(ScalarOf(c)) == c
  {
    Bits3Range(c[0], c[1], c[2]);
    Bits3Octets(c[0], c[1], c[2]);
  }

  lemma Char4IsEncoding(c: seq<byte>)
    requires |c| == 4 && IsChar(c)
    ensures Encode(ScalarOf(c)) == c
  {
    Bits4Range(c[0], c[1], c[2], c[3]);
    Bits4Octets(c[0], c[1], c[2], c[3]);
  }

  /** Sections 3 and 4 of RFC 3629 agree: every character of the grammar is the encoding of its
      scalar value ... */
  lemma CharIsEncoding(c: seq<byte>)
    requires IsChar(c)
    ensures Encode(ScalarOf(c)) == c
  {
    if |c| == 2 {
      Char2IsEncoding(c);
    } else if |c| == 3 {
      Char3IsEncoding(c);
    } else if |c| == 4 {
      Char4IsEncoding(c);
    }
  }

  lemma EncodeBits2(v: bv32)
    requires 0x80 <= v <= 0x7FF
    ensures 0xC2 <= 0xC0 | (v >> 6) as byte <= 0xDF && Bits2(0xC0 | (v >> 6) as byte, Tail(v)) == v
  {
  }

  lemma EncodeBits3(v: bv32)
    requires 0x800 <= v <= 0xFFFF
    ensures 0xE0 <= 0xE0 | (v >> 12) as byte <= 0xEF
    ensures Bits3(0xE0 | (v >> 12) as byte, Tail(v >> 6), Tail(v)) == v
  {
  }

  lemma EncodeBits4(v: bv32)
    requires 0x10000 <= v <= 0x10FFFF
    ensures 0xF0 <= 0xF0 | (v >> 18) as byte <= 0xF4
    ensures Bits4(0xF0 | (v >> 18) as byte, Tail(v >> 12), Tail(v >> 6), Tail(v)) == v
  {
  }

  lemma TailIsTail(v: bv32)
    ensures IsTail(Tail(v))
  {
  }

  /** ... and every encoding is a character of the grammar that names just that value. */
  lemma EncodingIsChar(v: Scalar)
    ensures IsChar(Encode(v)) && ScalarOf(Encode(v)) == v
  {
    TailIsTail(v);
    TailIsTail(v >> 6);
    TailIsTail(v >> 12);
    if v <= 0x7F {
    } else if v <= 0x7FF {
      EncodeBits2(v);
    } else if v <= 0xFFFF {
      EncodeBits3(v);
      Bits3Range(0xE0 | (v >> 12) as byte, Tail(v >> 6), Tail(v));
    } else {
      EncodeBits4(v);
      Bits4Range(0xF0 | (v >> 18) as byte, Tail(v >> 12), Tail(v >> 6), Tail(v));
    }
  }
}
