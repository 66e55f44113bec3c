/** WebSocket frame headers: building them and reading them back. */
module FrameHeader {
  import opened Options
  import opened Words
  import opened Masking
  import opened Sequences

  // ----- section 5.2 of RFC 6455 -----

  type Opcode = v: bv8 | v <= 0xF

  datatype Header = Header(fin: bool, rsv1: bool, rsv2: bool, rsv3: bool, opcode: Opcode, size: word, key: Option<Key>)

  function FirstByte(fin: bool, rsv1: bool, rsv2: bool, rsv3: bool, opcode: Opcode): byte {
    (if fin then 0x80 else 0) | (if rsv1 then 0x40 else 0) | (if rsv2 then 0x20 else 0)
    | (if rsv3 then 0x10 else 0) | opcode
  }

  function SizeCode(size: word): (code: byte)
    ensures code <= 127
  {
    if size <= 125 then (size & 0x7F) as byte else if size <= 0xFFFF then 126 else 127
  }

  function SecondByte(masked: bool, size: word): byte {
    (if masked then 0x80 else 0) | SizeCode(size)
  }

  /** The size in network byte order, when it does not fit the second byte. */
  function ExtendedSize(size: word): (b: seq<byte>)
    ensures |b| <= 8
  {
    if size <= 125 then []
    else if size <= 0xFFFF then [Byte1(size), Byte0(size)]
    else [Byte7(size), Byte6(size), Byte5(size), Byte4(size), Byte3(size), Byte2(size), Byte1(size), Byte0(size)]
  }

  function Encode(h: Header): seq<byte> {
    [FirstByte(h.fin, h.rsv1, h.rsv2, h.rsv3, h.opcode), SecondByte(h.key.Some?, h.size)] + ExtendedSize(h.size)
    + if h.key.Some? then h.key.value else []
  }

  // ----- the fields of the two fixed bytes -----

  function BasicSize(b1: byte): byte {
    b1 & 0x7F
  }

  predicate IsMasked(b1: byte) {
    (b1 & 0x80) == 0x80
  }

  function MaskingKeyOffset(b1: byte): nat {
    if BasicSize(b1) == 126 then 2 else if BasicSize(b1) == 127 then 8 else 0
  }

  function HeaderLength(b1: byte): (n: nat)
    ensures 2 <= n <= 14
  {
    2 + MaskingKeyOffset(b1) + if IsMasked(b1) then 4 else 0
  }

  lemma SecondByteReads(masked: bool, size: word)
    ensures var b1 := SecondByte(masked, size); IsMasked(b1) == masked && BasicSize(b1) == SizeCode(size)
  {
  }

  lemma FirstByteReads(fin: bool, rsv1: bool, rsv2: bool, rsv3: bool, opcode: Opcode)
    ensures var b0 := FirstByte(fin, rsv1, rsv2, rsv3, opcode);
            && ((b0 & 0x80) == 0x80) == fin && ((b0 & 0x40) == 0x40) == rsv1
            && ((b0 & 0x20) == 0x20) == rsv2 && ((b0 & 0x10) == 0x10) == rsv3
            && b0 & 0x0F == opcode
  {
  }

  lemma OffsetIsExtendedSize(masked: bool, size: word)
    ensures MaskingKeyOffset(SecondByte(masked, size)) == |ExtendedSize(size)|
  {
    SecondByteReads(masked, size);
    hide SecondByte, Byte0, Byte1, Byte2, Byte3, Byte4, Byte5, Byte6, Byte7;
    SizeCodeIs(size);
  }

  lemma SizeCodeIs(size: word)
    ensures size <= 125 ==> SizeCode(size) <= 125 && SizeCode(size) as word == size
    ensures 125 < size <= 0xFFFF ==> SizeCode(size) == 126
    ensures 0xFFFF < size ==> SizeCode(size) == 127
  {
  }

  /** The header length can be read off its second byte; it is two to fourteen. */
  lemma LengthIsHeaderLength(h: Header)
    ensures |Encode(h)| == HeaderLength(SecondByte(h.key.Some?, h.size))
  {
    OffsetIsExtendedSize(h.key.Some?, h.size);
    SecondByteReads(h.key.Some?, h.size);
    hide SecondByte, ExtendedSize;
  }

  function Size16(b0: byte, b1: byte): word {
    (b0 as word << 8) | b1 as word
  }

  function Size64(b: seq<byte>): word
    requires |b| == 8
  {
    WordOf(b[7], b[6], b[5], b[4], b[3], b[2], b[1], b[0])
  }

  lemma Size16Reads(size: word)
    requires size <= 0xFFFF
    ensures Size16(Byte1(size), Byte0(size)) == size
  {
  }

  lemma Size64Reads(size: word)
    ensures Size64([Byte7(size), Byte6(size), Byte5(size), Byte4(size),
                    Byte3(size), Byte2(size), Byte1(size), Byte0(size)])
            == size
  {
    hide Byte0, Byte1, Byte2, Byte3, Byte4, Byte5, Byte6, Byte7, WordOf;
    WordOfBytes(size);
  }

  // ----- reading a header -----

  /** The payload size, from the second byte and the bytes behind it. */
  function PayloadSize(b1: byte, e: seq<byte>): word
    requires |e| >= MaskingKeyOffset(b1)
  {
    if BasicSize(b1) == 127 then Size64(e[..8]) else if BasicSize(b1) == 126 then Size16(e[0], e[1])
    else BasicSize(b1) as word
  }

  /** The masking key, from the second byte and the bytes behind it. */
  function MaskingKey(b1: byte, e: seq<byte>): Option<Key>
    requires |e| >= HeaderLength(b1) - 2
  {
    var offset := MaskingKeyOffset(b1);
    if IsMasked(b1) then Some(e[offset..offset + 4]) else None
  }

  function OpcodeOf(b0: byte): Opcode {
    b0 & 0x0F
  }

  /** The header that the bytes hold. */
  function Decode(b: seq<byte>): Header
    requires |b| >= 2 && |b| == HeaderLength(b[1])
  {
    Header((b[0] & 0x80) == 0x80, (b[0] & 0x40) == 0x40, (b[0] & 0x20) == 0x20, (b[0] & 0x10) == 0x10,
           OpcodeOf(b[0]), PayloadSize(b[1], b[2..]), MaskingKey(b[1], b[2..]))
  }

  lemma DecodesSize(masked: bool, size: word, rest: seq<byte>)
    ensures var b1 := SecondByte(masked, size);
            var e := ExtendedSize(size) + rest;
            |e| >= MaskingKeyOffset(b1) && PayloadSize(b1, e) == size
  {
    SecondByteReads(masked, size);
    SizeCodeIs(size);
    var e := ExtendedSize(size) + rest;
    hide SecondByte, BasicSize, SizeCode, IsMasked, Size16, Size64;
    hide Byte0, Byte1, Byte2, Byte3, Byte4, Byte5, Byte6, Byte7, WordOf;
    if size <= 125 {
    } else if size <= 0xFFFF {
      Size16Reads(size);
    } else {
      Size64Reads(size);
      assert e[..8] == ExtendedSize(size);
    }
  }

  lemma DecodesKey(h: Header)
    ensures var b := Encode(h); |b| == HeaderLength(b[1]) && MaskingKey(b[1], b[2..]) == h.key
  {
    LengthIsHeaderLength(h);
    OffsetIsExtendedSize(h.key.Some?, h.size);
    SecondByteReads(h.key.Some?, h.size);
    hide FirstByte, SecondByte, MaskingKeyOffset, IsMasked, ExtendedSize, BasicSize;
    var offset := |ExtendedSize(h.size)|;
    if h.key.Some? {
      var rest := Encode(h)[2..];
      assert rest == ExtendedSize(h.size) + h.key.value;
      assert rest[offset..offset + 4] == h.key.value;
    }
  }

  /** Every header reads back from its bytes. */
  lemma DecodesEncoding(h: Header)
    ensures |Encode(h)| == HeaderLength(Encode(h)[1]) && Decode(Encode(h)) == h
  {
    var b := Encode(h);
    var key := if h.key.Some? then h.key.value else [];
    FirstByteReads(h.fin, h.rsv1, h.rsv2, h.rsv3, h.opcode);
    DecodesKey(h);
    DecodesSize(h.key.Some?, h.size, key);
    hide FirstByte, SecondByte, MaskingKeyOffset, IsMasked, ExtendedSize, BasicSize, PayloadSize, MaskingKey;
    assert b[2..] == ExtendedSize(h.size) + key;
  }

  /** No header is the beginning of another header: on a stream, a header ends where it ends. */
  lemma PrefixFree(g: Header, h: Header)
    requires Encode(g) <= Encode(h)
    ensures g == h
  {
    var a, b := Encode(g), Encode(h);
    DecodesEncoding(g);
    DecodesEncoding(h);
    assert a[1] == b[1];
    assert a == b;
  }

  /** A size that would fit a shorter form. */
  predicate IsNonMinimal(b1: byte, size: word) {
    (BasicSize(b1) == 126 && size <= 125) || (BasicSize(b1) == 127 && size <= 0xFFFF)
  }

  lemma FirstByteBack(b0: byte)
    ensures FirstByte((b0 & 0x80) == 0x80, (b0 & 0x40) == 0x40, (b0 & 0x20) == 0x20,
                      (b0 & 0x10) == 0x10, OpcodeOf(b0)) == b0
  {
  }

  lemma SecondByteBack(b1: byte, size: word)
    requires !IsNonMinimal(b1, size)
    requires BasicSize(b1) < 126 ==> size == BasicSize(b1) as word
    requires BasicSize(b1) == 126 ==> size <= 0xFFFF
    ensures SecondByte(IsMasked(b1), size) == b1
  {
  }

  lemma Size16Back(x: byte, y: byte)
    ensures var size := Size16(x, y); size <= 0xFFFF && Byte1(size) == x && Byte0(size) == y
  {
  }

  /** The size bytes of a minimal header are those of its size. */
  lemma SizeBack(b1: byte, e: seq<byte>)
    requires |e| >= MaskingKeyOffset(b1) && !IsNonMinimal(b1, PayloadSize(b1, e))
    ensures ExtendedSize(PayloadSize(b1, e)) == e[..MaskingKeyOffset(b1)]
    ensures SecondByte(IsMasked(b1), PayloadSize(b1, e)) == b1
  {
    var size := PayloadSize(b1, e);
    hide SecondByte, IsMasked, Byte0, Byte1, Byte2, Byte3, Byte4, Byte5, Byte6, Byte7, WordOf;
    if BasicSize(b1) == 127 {
      BytesOfWord(e[7], e[6], e[5], e[4], e[3], e[2], e[1], e[0]);
    } else if BasicSize(b1) == 126 {
      Size16Back(e[0], e[1]);
      hide Size16;
    } else {
      SmallBasicSize(b1);
    }
    SecondByteBack(b1, size);
  }

  lemma SmallBasicSize(b1: byte)
    ensures BasicSize(b1) <= 127 && (BasicSize(b1) < 126 ==> BasicSize(b1) as word <= 125)
  {
  }

  const TOP_BIT: word := 0x8000_0000_0000_0000

  /** Section 5.2 wants the top bit of a size in eight bytes to be 0. */
  predicate HasTopBitClear(b: seq<byte>)
    requires |b| >= 2 && |b| == HeaderLength(b[1])
  {
    BasicSize(b[1]) == 127 ==> b[2] & 0x80 == 0
  }

  lemma TopByte(size: word)
    ensures Byte7(size) & 0x80 == 0 <==> size < TOP_BIT
  {
  }

  /** What is built obeys section 5.2 if and only if the size is below 2^63. */
  lemma EncodedTopBit(h: Header)
    ensures var b := Encode(h);
            |b| >= 2 && |b| == HeaderLength(b[1]) && (HasTopBitClear(b) <==> h.size < TOP_BIT)
  {
    DecodesEncoding(h);
    EncodedSecond(h);
    LargeSize(h.size);
    TopByte(h.size);
    hide FirstByte, SecondByte, ExtendedSize, Byte7, BasicSize, SizeCode, HeaderLength, Decode;
    if h.size > 0xFFFF {
      assert Encode(h)[2] == ExtendedSize(h.size)[0];
    }
  }

  lemma EncodedSecond(h: Header)
    ensures BasicSize(Encode(h)[1]) == SizeCode(h.size)
  {
    SecondByteReads(h.key.Some?, h.size);
    hide FirstByte, SecondByte, ExtendedSize, BasicSize, SizeCode;
  }

  lemma LargeSize(size: word)
    ensures SizeCode(size) == 127 <==> size > 0xFFFF
    ensures size > 0xFFFF ==> ExtendedSize(size) != [] && ExtendedSize(size)[0] == Byte7(size)
    ensures size <= 0xFFFF ==> size < TOP_BIT
  {
    SizeCodeIs(size);
    hide Byte0, Byte1, Byte2, Byte3, Byte4, Byte5, Byte6, Byte7;
  }

  /** A header is built as the bytes it was read from exactly when they hold its size in the shortest form. */
  lemma EncodesDecoding(b: seq<byte>)
    requires |b| >= 2 && |b| == HeaderLength(b[1])
    ensures Encode(Decode(b)) == b <==> !IsNonMinimal(b[1], Decode(b).size)
  {
    var h := Decode(b);
    if IsNonMinimal(b[1], h.size) {
      NonMinimalShrinks(b);
    } else {
      assert b == [b[0], b[1]] + b[2..];
      MinimalBack(b[0], b[1], b[2..]);
    }
  }

  lemma MinimalBack(b0: byte, b1: byte, e: seq<byte>)
    requires |e| == HeaderLength(b1) - 2 && !IsNonMinimal(b1, PayloadSize(b1, e))
    ensures var b := [b0, b1] + e; |b| == HeaderLength(b[1]) && Encode(Decode(b)) == b
  {
    var h, offset := Decode([b0, b1] + e), MaskingKeyOffset(b1);
    assert ([b0, b1] + e)[2..] == e;
    FirstByteBack(b0);
    SizeBack(b1, e);
    KeyBack(b1, e);
    Joined([b0, b1], e, offset);
    hide FirstByte, SecondByte, ExtendedSize, PayloadSize, MaskingKey, MaskingKeyOffset, BasicSize, IsMasked;
    hide IsNonMinimal, HeaderLength, OpcodeOf;
    assert ExtendedSize(h.size) == e[..offset];
  }

  lemma Joined(a: seq<byte>, e: seq<byte>, n: nat)
    requires n <= |e|
    ensures a + e[..n] + e[n..] == a + e
  {
  }

  lemma KeyBack(b1: byte, e: seq<byte>)
    requires |e| == HeaderLength(b1) - 2
    ensures MaskingKeyOffset(b1) <= |e| && MaskingKey(b1, e).Some? == IsMasked(b1)
    ensures e[MaskingKeyOffset(b1)..] == match MaskingKey(b1, e) case Some(key) => key case None => []
  {
    hide IsMasked;
  }

  lemma NonMinimalShrinks(b: seq<byte>)
    requires |b| >= 2 && |b| == HeaderLength(b[1]) && IsNonMinimal(b[1], Decode(b).size)
    ensures |Encode(Decode(b))| < |b|
  {
    var h := Decode(b);
    LengthIsHeaderLength(h);
    OffsetIsExtendedSize(h.key.Some?, h.size);
    SecondByteReads(h.key.Some?, h.size);
    hide FirstByte, SecondByte, IsMasked, PayloadSize, BasicSize, Encode;
  }

  /** Of all the byte sequences that read as a header, the encoding is the shortest. */
  lemma ShortestForm(b: seq<byte>)
    requires |b| >= 2 && |b| == HeaderLength(b[1])
    ensures |Encode(Decode(b))| <= |b|
    ensures |Encode(Decode(b))| < |b| <==> IsNonMinimal(b[1], Decode(b).size)
  {
    EncodesDecoding(b);
    hide Encode, Decode;
    if IsNonMinimal(b[1], Decode(b).size) {
      NonMinimalShrinks(b);
    }
  }

  // ----- the code -----

  class BasicHeader {
    var b0: byte
    var b1: byte

    constructor (p0: byte, p1: byte)
      ensures b0 == p0 && b1 == p1
    {
      b0, b1 := p0, p1;
    }

    constructor FromFields(op: Opcode, size: word, fin: bool, mask: bool, rsv1: bool, rsv2: bool, rsv3: bool)
      ensures b0 == FirstByte(fin, rsv1, rsv2, rsv3, op)
      ensures b1 == SecondByte(mask, size)
    {
      var first: byte, second: byte := 0x00, 0x00;
      if fin {
        first := first | 0x80;
      }
      if rsv1 {
        first := first | 0x40;
      }
      if rsv2 {
        first := first | 0x20;
      }
      if rsv3 {
        first := first | 0x10;
      }
      first := first | (op & 0x0F);
      if mask {
        second := second | 0x80;
      }
      var basicValue: byte;
      if size <= 125 {
        basicValue := (size & 0xFF) as byte;
      } else if size <= 0xFFFF {
        basicValue := 0x7E;
      } else {
        basicValue := 0x7F;
      }
      second := second | basicValue;
      b0, b1 := first, second;
    }

    predicate GetFin()
      reads this
    {
      (b0 & 0x80) == 0x80
    }

    predicate GetRsv1()
      reads this
    {
      (b0 & 0x40) == 0x40
    }

    predicate GetRsv2()
      reads this
    {
      (b0 & 0x20) == 0x20
    }

    predicate GetRsv3()
      reads this
    {
      (b0 & 0x10) == 0x10
    }

    function GetOpcode(): (op: Opcode)
      reads this
      ensures op == OpcodeOf(b0)
    {
      b0 & 0x0F
    }

    predicate GetMasked(): (masked: bool)
      reads this
      ensures masked <==> IsMasked(b1)
    {
      (b1 & 0x80) == 0x80
    }

    function GetBasicSize(): (size: byte)
      reads this
      ensures size == BasicSize(b1)
    {
      b1 & 0x7F
    }

    function GetMaskingKeyOffset(): (offset: nat)
      reads this
      ensures offset == MaskingKeyOffset(b1)
    {
      if GetBasicSize() == 0x7E then 2 else if GetBasicSize() == 0x7F then 8 else 0
    }

    function GetHeaderLen(): (n: nat)
      reads this
      ensures n == HeaderLength(b1)
    {
      2 + GetMaskingKeyOffset() + if GetMasked() then 4 else 0
    }
  }

  /** The word with its bytes in the opposite order. */
  function Swapped(w: word): word {
    WordOf(Byte7(w), Byte6(w), Byte5(w), Byte4(w), Byte3(w), Byte2(w), Byte1(w), Byte0(w))
  }

  lemma SwappedBytes(w: word)
    ensures var x := Swapped(w);
            && Byte0(x) == Byte7(w) && Byte1(x) == Byte6(w) && Byte2(x) == Byte5(w) && Byte3(x) == Byte4(w)
            && Byte4(x) == Byte3(w) && Byte5(x) == Byte2(w) && Byte6(x) == Byte1(w) && Byte7(x) == Byte0(w)
  {
    hide Byte0, Byte1, Byte2, Byte3, Byte4, Byte5, Byte6, Byte7, WordOf;
    BytesOfWord(Byte7(w), Byte6(w), Byte5(w), Byte4(w), Byte3(w), Byte2(w), Byte1(w), Byte0(w));
  }

  /** Converts between the byte order of the machine and of the network, by swapping the bytes of a
      union in place. */
  method Htonll(src: word) returns (x: word)
    ensures x == Swapped(src)
  {
    hide Byte0, Byte1, Byte2, Byte3, Byte4, Byte5, Byte6, Byte7, WordOf;
    var c := new byte[] [Byte0(src), Byte1(src), Byte2(src), Byte3(src),
                         Byte4(src), Byte5(src), Byte6(src), Byte7(src)];
    c[0], c[7] := c[7], c[0];
    c[1], c[6] := c[6], c[1];
    c[2], c[5] := c[5], c[2];
    c[3], c[4] := c[4], c[3];
    x := WordOf(c[0], c[1], c[2], c[3], c[4], c[5], c[6], c[7]);
  }

  class ExtendedHeader {
    const bytes: array<byte>

    constructor (payloadSize: word, key: Option<Key>)
      ensures fresh(bytes) && bytes.Length == 12
      ensures var n := ExtendedSize(payloadSize);
              var all := n + if key.Some? then key.value else [];
              bytes[..] == all + seq(12 - |all|, _ => 0x00)
    {
      bytes := new byte[12](_ => 0x00);
      new;
      hide ExtendedSize;
      assert bytes[..] == seq(12, _ => 0x00);
      ghost var zeros := bytes[..];
      var offset := CopyPayload(payloadSize);
      assert bytes[..] == ExtendedSize(payloadSize) + zeros[offset..];
      if key.Some? {
        Write(bytes, offset, key.value);
        assert bytes[..] == ExtendedSize(payloadSize) + key.value + zeros[offset + 4..];
      }
    }

    /** Copies the size in network byte order into the front and returns how many bytes it takes. */
    method CopyPayload(payloadSize: word) returns (n: nat)
      requires bytes.Length == 12
      modifies bytes
      ensures n == |ExtendedSize(payloadSize)| && bytes[..n] == ExtendedSize(payloadSize)
      ensures bytes[n..] == old(bytes[n..])
    {
      hide Byte0, Byte1, Byte2, Byte3, Byte4, Byte5, Byte6, Byte7;
      var payloadOffset := 0;
      if payloadSize <= 125 {
        payloadOffset := 8;
      } else if payloadSize <= 0xFFFF {
        payloadOffset := 6;
      }
      var temp64 := Htonll(payloadSize);
      SwappedBytes(payloadSize);
      hide Swapped;
      var c := [Byte0(temp64), Byte1(temp64), Byte2(temp64), Byte3(temp64),
                Byte4(temp64), Byte5(temp64), Byte6(temp64), Byte7(temp64)];
      Write(bytes, 0, c[payloadOffset..8]);
      n := 8 - payloadOffset;
    }

    function GetExtendedSize(): word
      requires bytes.Length == 12
      reads bytes
    {
      (bytes[0] as word << 8) | bytes[1] as word
    }

    /** The size read in the byte order of the machine and swapped. */
    function GetJumboSize(): (size: word)
      requires bytes.Length == 12
      reads bytes
      ensures size == Size64(bytes[..8])
    {
      hide Byte0, Byte1, Byte2, Byte3, Byte4, Byte5, Byte6, Byte7, WordOf;
      BytesOfWord(bytes[0], bytes[1], bytes[2], bytes[3], bytes[4], bytes[5], bytes[6], bytes[7]);
      Swapped(WordOf(bytes[0], bytes[1], bytes[2], bytes[3], bytes[4], bytes[5], bytes[6], bytes[7]))
    }
  }

  function GetPayloadSize(h: BasicHeader, e: ExtendedHeader): (size: word)
    requires e.bytes.Length == 12
    reads h, e.bytes
    ensures size == PayloadSize(h.b1, e.bytes[..])
  {
    hide Size64, Swapped, WordOf;
    var val := h.GetBasicSize();
    assert e.bytes[..][..8] == e.bytes[..8];
    if val <= 125 then val as word else if val == 0x7E then e.GetExtendedSize() else e.GetJumboSize()
  }

  /** The masking key; four zero bytes when the frame is not masked. */
  function GetMaskingKey(h: BasicHeader, e: ExtendedHeader): (key: Key)
    requires e.bytes.Length == 12
    reads h, e.bytes
    ensures key == match MaskingKey(h.b1, e.bytes[..]) case Some(k) => k case None => [0, 0, 0, 0]
  {
    hide BasicSize;
    if !h.GetMasked() then [0, 0, 0, 0]
    else
      var offset := h.GetMaskingKeyOffset();
      assert e.bytes[offset..offset + 4] == e.bytes[..][offset..offset + 4];
      e.bytes[offset..offset + 4]
  }

  /** The bytes of a header on the wire. */
  method PrepareHeader(h: BasicHeader, e: ExtendedHeader) returns (ret: seq<byte>)
    requires e.bytes.Length == 12
    ensures ret == [h.b0, h.b1] + e.bytes[..HeaderLength(h.b1) - 2]
  {
    ret := [h.b0, h.b1];
    ret := ret + e.bytes[..h.GetHeaderLen() - 2];
  }

  /** Building a header from any fields gives exactly its encoding, which is one of section 5.2 if the size is
      below 2^63. */
  method BuildHeader(h: Header) returns (ret: seq<byte>)
    ensures ret == Encode(h)
  {
    hide FirstByte, SecondByte, ExtendedSize, HeaderLength;
    var basic := new BasicHeader.FromFields(h.opcode, h.size, h.fin, h.key.Some?, h.rsv1, h.rsv2, h.rsv3);
    var extended := new ExtendedHeader(h.size, h.key);
    LengthIsHeaderLength(h);
    ret := PrepareHeader(basic, extended);
  }
}
