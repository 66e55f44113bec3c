/** Base64 as section 4 of RFC 4648 defines it: encoding, decoding, and the texts that are encodings. */
module Base64 {
  type byte = bv8

  const PAD: byte := 61

  // ----- the alphabet: A to Z, a to z, 0 to 9, + and / -----

  function Letter(v: byte): byte
    requires v < 64
  {
    if v < 26 then 65 + v else if v < 52 then 97 + (v - 26) else if v < 62 then 48 + (v - 52)
    else if v == 62 then 43 else 47
  }

  /** The place of a character in the alphabet; 255 if it is not there. */
  function Find(c: byte): byte {
    if 65 <= c <= 90 then c - 65 else if 97 <= c <= 122 then 26 + (c - 97) else if 48 <= c <= 57 then 52 + (c - 48)
    else if c == 43 then 62 else if c == 47 then 63 else 255
  }

  predicate IsBase64(c: byte) {
    c == 43 || 47 <= c <= 57 || 65 <= c <= 90 || 97 <= c <= 122
  }

  lemma FindsLetter(v: byte)
    requires v < 64
    ensures IsBase64(Letter(v)) && Letter(v) != PAD && Find(Letter(v)) == v
  {
  }

  /** The range test accepts exactly the alphabet. */
  lemma IsLetter(c: byte)
    ensures IsBase64(c) <==> Find(c) < 64
    ensures IsBase64(c) ==> Letter(Find(c)) == c
  {
  }

  // ----- three octets and four sextets -----

  function Sextet0(b0: byte): byte { (b0 & 0xFC) >> 2 }

  function Sextet1(b0: byte, b1: byte): byte { ((b0 & 0x03) << 4) + ((b1 & 0xF0) >> 4) }

  function Sextet2(b1: byte, b2: byte): byte { ((b1 & 0x0F) << 2) + ((b2 & 0xC0) >> 6) }

  function Sextet3(b2: byte): byte { b2 & 0x3F }

  function Octet0(s0: byte, s1: byte): byte { (s0 << 2) + ((s1 & 0x30) >> 4) }

  function Octet1(s1: byte, s2: byte): byte { ((s1 & 0x0F) << 4) + ((s2 & 0x3C) >> 2) }

  function Octet2(s2: byte, s3: byte): byte { ((s2 & 0x03) << 6) + s3 }

  lemma SextetsInRange(b0: byte, b1: byte, b2: byte)
    ensures Sextet0(b0) < 64 && Sextet1(b0, b1) < 64 && Sextet2(b1, b2) < 64 && Sextet3(b2) < 64
  {
  }

  lemma OctetsOfSextets(b0: byte, b1: byte, b2: byte)
    ensures Octet0(Sextet0(b0), Sextet1(b0, b1)) == b0
    ensures Octet1(Sextet1(b0, b1), Sextet2(b1, b2)) == b1
    ensures Octet2(Sextet2(b1, b2), Sextet3(b2)) == b2
  {
  }

  lemma SextetsOfOctets(s0: byte, s1: byte, s2: byte, s3: byte)
    requires s0 < 64 && s1 < 64 && s2 < 64 && s3 < 64
    ensures Sextet0(Octet0(s0, s1)) == s0
    ensures Sextet1(Octet0(s0, s1), Octet1(s1, s2)) == s1
    ensures Sextet2(Octet1(s1, s2), Octet2(s2, s3)) == s2
    ensures Sextet3(Octet2(s2, s3)) == s3
    ensures s1 & 0x0F == 0 ==> Sextet1(Octet0(s0, s1), 0) == s1
    ensures s2 & 0x03 == 0 ==> Sextet2(Octet1(s1, s2), 0) == s2
  {
  }

  /** The four sextets are the bits of the three octets, in order. */
  lemma SextetsAreBits(b0: byte, b1: byte, b2: byte)
    ensures (Sextet0(b0) as bv24 << 18) | (Sextet1(b0, b1) as bv24 << 12) | (Sextet2(b1, b2) as bv24 << 6)
            | Sextet3(b2) as bv24
            == (b0 as bv24 << 16) | (b1 as bv24 << 8) | b2 as bv24
  {
  }

  lemma UnusedBits(b0: byte, b1: byte)
    ensures Sextet1(b0, 0) & 0x0F == 0 && Sextet2(b1, 0) & 0x03 == 0
  {
  }

  // ----- encoding and decoding -----

  function Letter0(b0: byte): byte { SextetsInRange(b0, 0, 0); Letter(Sextet0(b0)) }

  function Letter1(b0: byte, b1: byte): byte { SextetsInRange(b0, b1, 0); Letter(Sextet1(b0, b1)) }

  function Letter2(b1: byte, b2: byte): byte { SextetsInRange(0, b1, b2); Letter(Sextet2(b1, b2)) }

  function Letter3(b2: byte): byte { SextetsInRange(0, 0, b2); Letter(Sextet3(b2)) }

  function Encode(b: seq<byte>): seq<byte> {
    if |b| == 0 then []
    else if |b| == 1 then [Letter0(b[0]), Letter1(b[0], 0), PAD, PAD]
    else if |b| == 2 then [Letter0(b[0]), Letter1(b[0], b[1]), Letter2(b[1], 0), PAD]
    else [Letter0(b[0]), Letter1(b[0], b[1]), Letter2(b[1], b[2]), Letter3(b[2])] + Encode(b[3..])
  }

  /** How many of the first four characters are letters of the alphabet, up to the first that is not. */
  function Letters(t: seq<byte>): (n: nat)
    ensures n <= 4 && n <= |t|
  {
    if |t| < 1 || !IsBase64(t[0]) then 0
    else if |t| < 2 || !IsBase64(t[1]) then 1
    else if |t| < 3 || !IsBase64(t[2]) then 2
    else if |t| < 4 || !IsBase64(t[3]) then 3
    else 4
  }

  /** The octets that the letters at the front of a text hold; what follows the first other character
      is ignored. */
  function Decode(t: seq<byte>): seq<byte> {
    var n := Letters(t);
    if n < 2 then []
    else if n == 2 then [Octet0(Find(t[0]), Find(t[1]))]
    else if n == 3 then [Octet0(Find(t[0]), Find(t[1])), Octet1(Find(t[1]), Find(t[2]))]
    else [Octet0(Find(t[0]), Find(t[1])), Octet1(Find(t[1]), Find(t[2])), Octet2(Find(t[2]), Find(t[3]))]
         + Decode(t[4..])
  }

  /** A base64 text: groups of four letters, the last perhaps padded, with no bit set that holds no data. */
  predicate IsCanonical(t: seq<byte>) {
    if t == [] then true
    else if |t| < 4 then false
    else if Letters(t) == 4 then IsCanonical(t[4..])
    else
      && |t| == 4 && t[3] == PAD
      && (|| (Letters(t) == 2 && t[2] == PAD && Find(t[1]) & 0x0F == 0)
          || (Letters(t) == 3 && Find(t[2]) & 0x03 == 0))
  }

  lemma LettersOfGroup(b0: byte, b1: byte, b2: byte)
    ensures IsBase64(Letter0(b0)) && Find(Letter0(b0)) == Sextet0(b0)
    ensures IsBase64(Letter1(b0, b1)) && Find(Letter1(b0, b1)) == Sextet1(b0, b1)
    ensures IsBase64(Letter2(b1, b2)) && Find(Letter2(b1, b2)) == Sextet2(b1, b2)
    ensures IsBase64(Letter3(b2)) && Find(Letter3(b2)) == Sextet3(b2)
  {
    SextetsInRange(b0, b1, b2);
    hide Letter, Find, IsBase64, Sextet0, Sextet1, Sextet2, Sextet3;
    FindsLetter(Sextet0(b0));
    FindsLetter(Sextet1(b0, b1));
    FindsLetter(Sextet2(b1, b2));
    FindsLetter(Sextet3(b2));
  }

  /** Decoding an encoding gives the data back. */
  lemma {:induction false} DecodesEncoding(b: seq<byte>)
    ensures Decode(Encode(b)) == b && IsCanonical(Encode(b))
  {
    var b0 := if |b| > 0 then b[0] else 0;
    var b1 := if |b| > 1 then b[1] else 0;
    var b2 := if |b| > 2 then b[2] else 0;
    LettersOfGroup(b0, b1, b2);
    OctetsOfSextets(b0, b1, b2);
    UnusedBits(b0, b1);
    assert !IsBase64(PAD);
    hide Find, IsBase64, Letter0, Letter1, Letter2, Letter3, Octet0, Octet1, Octet2, Sextet0, Sextet1, Sextet2, Sextet3;
    if |b| > 2 {
      DecodesEncoding(b[3..]);
      assert Encode(b)[4..] == Encode(b[3..]);
      assert [b0, b1, b2] + b[3..] == b;
    }
  }

  lemma GroupOfLetters(t0: byte, t1: byte, t2: byte, t3: byte)
    requires IsBase64(t0) && IsBase64(t1) && IsBase64(t2) && IsBase64(t3)
    ensures var b0, b1, b2 := Octet0(Find(t0), Find(t1)), Octet1(Find(t1), Find(t2)), Octet2(Find(t2), Find(t3));
            && Letter0(b0) == t0 && Letter1(b0, b1) == t1 && Letter2(b1, b2) == t2 && Letter3(b2) == t3
            && (Find(t1) & 0x0F == 0 ==> Letter1(b0, 0) == t1) && (Find(t2) & 0x03 == 0 ==> Letter2(b1, 0) == t2)
  {
    IsLetter(t0);
    IsLetter(t1);
    IsLetter(t2);
    IsLetter(t3);
    hide Find, IsBase64, Letter, Octet0, Octet1, Octet2, Sextet0, Sextet1, Sextet2, Sextet3;
    SextetsOfOctets(Find(t0), Find(t1), Find(t2), Find(t3));
  }

  /** Encoding what was decoded gives a text back exactly when it is canonical: encoding and decoding
      are inverse between all octet sequences and the canonical texts. */
  lemma {:induction false} EncodesDecoding(t: seq<byte>)
    ensures Encode(Decode(t)) == t <==> IsCanonical(t)
  {
    if IsCanonical(t) {
      CanonicalEncodes(t);
    } else {
      DecodesEncoding(Decode(t));
    }
  }

  lemma {:induction false} CanonicalEncodes(t: seq<byte>)
    requires IsCanonical(t)
    ensures Encode(Decode(t)) == t
  {
    hide Find, IsBase64, Letter0, Letter1, Letter2, Letter3, Octet0, Octet1, Octet2;
    if |t| >= 4 {
      var n := Letters(t);
      var a := IsBase64(t[0]);
      GroupOfLetters(t[0], t[1], if n > 2 then t[2] else t[0], if n > 3 then t[3] else t[0]);
      if n == 4 {
        CanonicalEncodes(t[4..]);
        assert Decode(t)[3..] == Decode(t[4..]);
        assert t[..4] + t[4..] == t;
      }
    }
  }

  /** Encoding is injective. */
  lemma EncodingInjective(a: seq<byte>, b: seq<byte>)
    requires Encode(a) == Encode(b)
    ensures a == b
  {
    DecodesEncoding(a);
    DecodesEncoding(b);
  }

  function PadLength(n: nat): nat {
    if n % 3 == 0 then 0 else 3 - n % 3
  }

  lemma NoPadding(b0: byte, b1: byte, b2: byte)
    ensures Letter0(b0) != PAD && Letter1(b0, b1) != PAD && Letter2(b1, b2) != PAD && Letter3(b2) != PAD
  {
    LettersOfGroup(b0, b1, b2);
    assert !IsBase64(PAD);
    hide Letter0, Letter1, Letter2, Letter3;
  }

  /** Every three octets, or part of three, take four characters. */
  lemma EncodedLength(b: seq<byte>)
    ensures |Encode(b)| == (|b| + 2) / 3 * 4
  {
  }

  lemma PadOfRest(n: nat)
    requires n > 2
    ensures PadLength(n) == PadLength(n - 3) <= (n - 3 + 2) / 3 * 4
  {
  }

  lemma NoPaddingInGroup(b: seq<byte>, k: nat)
    requires |b| > 2 && k < 4
    ensures k < |Encode(b)| && Encode(b)[k] != PAD
  {
    hide Letter0, Letter1, Letter2, Letter3;
    NoPadding(b[0], b[1], b[2]);
  }

  lemma PaddingOfPart(b: seq<byte>, k: nat)
    requires |b| <= 2 && k < |Encode(b)|
    ensures Encode(b)[k] == PAD <==> k >= |Encode(b)| - PadLength(|b|)
  {
    hide Letter0, Letter1, Letter2, Letter3;
    if |b| == 1 {
      NoPadding(b[0], 0, 0);
      assert PadLength(|b|) == 2;
    } else if |b| == 2 {
      NoPadding(b[0], b[1], 0);
      assert PadLength(|b|) == 1;
    }
    hide PadLength;
  }

  /** Padding stands only at the end, in place of the characters that hold no data. */
  lemma {:induction false} PaddingAtEnd(b: seq<byte>, k: nat)
    requires k < |Encode(b)|
    ensures Encode(b)[k] == PAD <==> k >= |Encode(b)| - PadLength(|b|)
  {
    if |b| <= 2 {
      PaddingOfPart(b, k);
    } else {
      hide PadLength, Letter0, Letter1, Letter2, Letter3;
      PadOfRest(|b|);
      EncodedLength(b[3..]);
      if k < 4 {
        NoPaddingInGroup(b, k);
      } else {
        assert Encode(b)[k] == Encode(b[3..])[k - 4];
        PaddingAtEnd(b[3..], k - 4);
      }
    }
  }

  // ----- the loops -----

  function Group(b: seq<byte>): (t: seq<byte>)
    requires |b| == 3
    ensures |t| == 4
  {
    [Letter0(b[0]), Letter1(b[0], b[1]), Letter2(b[1], b[2]), Letter3(b[2])]
  }

  lemma EncodesGroup(input: seq<byte>, at: nat)
    requires at + 3 <= |input|
    ensures Encode(input[at..]) == Group(input[at..at + 3]) + Encode(input[at + 3..])
  {
    hide Letter0, Letter1, Letter2, Letter3;
    assert input[at..][3..] == input[at + 3..];
  }

  /** A group cut short is the group filled up with zeros, with padding for the letters past its data. */
  lemma EncodesPart(b: seq<byte>, filled: seq<byte>)
    requires 0 < |b| < 3 && |filled| == 3 && filled[..|b|] == b && forall k | |b| <= k < 3 :: filled[k] == 0
    ensures Encode(b) == Group(filled)[..|b| + 1] + seq(3 - |b|, _ => PAD)
  {
    hide Letter0, Letter1, Letter2, Letter3;
    assert b[0] == filled[0] && (|b| > 1 ==> b[1] == filled[1]);
  }

  method Base64Encode(input: seq<byte>) returns (ret: seq<byte>)
    ensures ret == Encode(input)
  {
    hide Encode, Group;
    ret := [];
    var i := 0;
    var char3 := new byte[3];
    for pos := 0 to |input|
      invariant i < 3 && i <= pos && char3[..i] == input[pos - i..pos]
      invariant ret + Encode(input[pos - i..]) == Encode(input)
    {
      char3[i] := input[pos];
      i := i + 1;
      assert char3[..i] == char3[..i - 1] + [input[pos]] == input[pos + 1 - i..pos + 1];
      if i == 3 {
        assert char3[..] == char3[..3];
        EncodesGroup(input, pos - 2);
        ret := ret + Group(char3[..]);
        i := 0;
      }
    }
    var rest := EncodeRest(char3, i, input[|input| - i..]);
    ret := ret + rest;
  }

  /** The letters and padding for the zero, one or two octets behind the last whole group. */
  method EncodeRest(char3: array<byte>, length: nat, ghost part: seq<byte>) returns (ret: seq<byte>)
    requires char3.Length == 3 && length == |part| < 3 && char3[..length] == part
    modifies char3
    ensures ret == Encode(part)
  {
    hide Letter0, Letter1, Letter2, Letter3;
    ret := [];
    if length > 0 {
      for j := length to 3
        invariant char3[..length] == part && forall k | length <= k < j :: char3[k] == 0
      {
        char3[j] := 0;
      }
      EncodesPart(part, char3[..]);
      ret := Group(char3[..])[..length + 1];
      ghost var letters := ret;
      for i := length to 3
        invariant ret == letters + seq(i - length, _ => PAD)
      {
        ret := ret + [PAD];
      }
    }
  }

  lemma DecodesGroup(input: seq<byte>, at: nat)
    requires at + 4 <= |input| && (forall k | at <= k < at + 4 :: IsBase64(input[k]))
    ensures Decode(input[at..]) == Octets(input[at..at + 4]) + Decode(input[at + 4..])
  {
    hide Octet0, Octet1, Octet2, Find, IsBase64;
    assert input[at..][4..] == input[at + 4..];
  }

  function Octets(t: seq<byte>): (b: seq<byte>)
    requires |t| == 4
    ensures |b| == 3
  {
    [Octet0(Find(t[0]), Find(t[1])), Octet1(Find(t[1]), Find(t[2])), Octet2(Find(t[2]), Find(t[3]))]
  }

  /** A group cut short holds one octet less than it has letters, whatever it is filled up with. */
  lemma DecodesPart(t: seq<byte>, n: nat, filled: seq<byte>)
    requires n < 4 && n <= |t| && (n < |t| ==> !IsBase64(t[n])) && (forall k | 0 <= k < n :: IsBase64(t[k]))
    requires |filled| == 4 && filled[..n] == t[..n]
    ensures Decode(t) == if n == 0 then [] else Octets(filled)[..n - 1]
  {
    hide Octet0, Octet1, Octet2, Find, IsBase64;
    assert n > 0 ==> t[0] == filled[..n][0];
    assert n > 1 ==> t[1] == filled[..n][1];
    assert n > 2 ==> t[2] == filled[..n][2];
  }

  method Base64Decode(input: seq<byte>) returns (ret: seq<byte>)
    ensures ret == Decode(input)
  {
    hide Decode, Octets, IsBase64;
    ret := [];
    assert PAD == 61 && !IsBase64(PAD) by { IsLetter(PAD); }
    var i, pos := 0, 0;
    var char4 := new byte[4];
    while pos < |input| && input[pos] != PAD && IsBase64(input[pos])
      invariant i < 4 && i <= pos <= |input| && char4[..i] == input[pos - i..pos]
      invariant forall k | pos - i <= k < pos :: IsBase64(input[k])
      invariant ret + Decode(input[pos - i..]) == Decode(input)
    {
      char4[i] := input[pos];
      i := i + 1;
      pos := pos + 1;
      assert char4[..i] == char4[..i - 1] + [input[pos - 1]] == input[pos - i..pos];
      if i == 4 {
        assert char4[..] == char4[..4];
        DecodesGroup(input, pos - 4);
        ret := ret + Octets(char4[..]);
        i := 0;
      }
    }
    var rest := DecodeRest(char4, i, input[pos - i..]);
    ret := ret + rest;
  }

  /** The octets of the zero to three letters behind the last whole group. */
  method DecodeRest(char4: array<byte>, length: nat, ghost part: seq<byte>) returns (ret: seq<byte>)
    requires char4.Length == 4 && length < 4 && length <= |part| && char4[..length] == part[..length]
    requires (length < |part| ==> !IsBase64(part[length])) && forall k | 0 <= k < length :: IsBase64(part[k])
    modifies char4
    ensures ret == Decode(part)
  {
    hide Decode, Octets, IsBase64;
    for j := length to 4
      invariant char4[..length] == part[..length]
    {
      char4[j] := 0;
    }
    DecodesPart(part, length, char4[..]);
    ret := [];
    if length > 0 {
      ret := Octets(char4[..])[..length - 1];
    }
  }

  /** Encoding and decoding again, by the loops. */
  method EncodeAndDecode(b: seq<byte>) returns (r: seq<byte>)
    ensures r == b
  {
    hide Encode, Decode;
    var e := Base64Encode(b);
    DecodesEncoding(b);
    r := Base64Decode(e);
  }

  /** The example of section 9 and two of those of section 10. */
  lemma Examples()
    ensures Encode([0x14, 0xfb, 0x9c, 0x03, 0xd9, 0x7e]) == [70, 80, 117, 99, 65, 57, 108, 43]
    ensures Encode([0x66, 0x6f, 0x6f, 0x62]) == [90, 109, 57, 118, 89, 103, 61, 61]
    ensures Encode([0x66, 0x6f, 0x6f, 0x62, 0x61]) == [90, 109, 57, 118, 89, 109, 69, 61]
  {
  }

  /** The octets whose sextets are 0 to 63 are encoded as the alphabet of table 1 of section 4, in order. */
  lemma Alphabet0()
    ensures Encode([0x00, 0x10, 0x83, 0x10, 0x51, 0x87]) == [65, 66, 67, 68, 69, 70, 71, 72] // ABCDEFGH
    ensures Encode([0x20, 0x92, 0x8b, 0x30, 0xd3, 0x8f]) == [73, 74, 75, 76, 77, 78, 79, 80] // IJKLMNOP
  {
  }

  lemma Alphabet1()
    ensures Encode([0x41, 0x14, 0x93, 0x51, 0x55, 0x97]) == [81, 82, 83, 84, 85, 86, 87, 88] // QRSTUVWX
    ensures Encode([0x61, 0x96, 0x9b, 0x71, 0xd7, 0x9f]) == [89, 90, 97, 98, 99, 100, 101, 102] // YZabcdef
  {
  }

  lemma Alphabet2()
    ensures Encode([0x82, 0x18, 0xa3, 0x92, 0x59, 0xa7]) == [103, 104, 105, 106, 107, 108, 109, 110] // ghijklmn
    ensures Encode([0xa2, 0x9a, 0xab, 0xb2, 0xdb, 0xaf]) == [111, 112, 113, 114, 115, 116, 117, 118] // opqrstuv
  {
  }

  lemma Alphabet3()
    ensures Encode([0xc3, 0x1c, 0xb3, 0xd3, 0x5d, 0xb7]) == [119, 120, 121, 122, 48, 49, 50, 51] // wxyz0123
    ensures Encode([0xe3, 0x9e, 0xbb, 0xf3, 0xdf, 0xbf]) == [52, 53, 54, 55, 56, 57, 43, 47] // 456789+/
  {
  }
}
