/** The MD5 message digest as section 3 of RFC 1321 defines it. */
module Md5Spec {
  type byte = bv8
  type word = bv32

  /** The four registers, in the order in which the next operation names them. */
  datatype Regs = Regs(a: word, b: word, c: word, d: word)

  /** Section 3.3: the initial values. */
  const INITIAL: Regs := Regs(0x67452301, 0xefcdab89, 0x98badcfe, 0x10325476)

  // ----- section 3.4: the processing of one block -----

  function F(x: word, y: word, z: word): word { (x & y) | (!x & z) }

  function G(x: word, y: word, z: word): word { (x & z) | (y & !z) }

  function H(x: word, y: word, z: word): word { x ^ y ^ z }

  function I(x: word, y: word, z: word): word { y ^ (x | !z) }

  function RotateLeft(x: word, n: word): word
    requires n <= 32
  {
    (x << n) | (x >> (32 - n))
  }

  /** The table T: 4294967296 times the absolute value of sin(i + 1), rounded down; four to the row. */
  function SineRow(row: nat): (t: seq<word>)
    requires row < 16
    ensures |t| == 4
  {
    if row == 0 then [0xd76aa478, 0xe8c7b756, 0x242070db, 0xc1bdceee]
    else if row == 1 then [0xf57c0faf, 0x4787c62a, 0xa8304613, 0xfd469501]
    else if row == 2 then [0x698098d8, 0x8b44f7af, 0xffff5bb1, 0x895cd7be]
    else if row == 3 then [0x6b901122, 0xfd987193, 0xa679438e, 0x49b40821]
    else if row == 4 then [0xf61e2562, 0xc040b340, 0x265e5a51, 0xe9b6c7aa]
    else if row == 5 then [0xd62f105d, 0x02441453, 0xd8a1e681, 0xe7d3fbc8]
    else if row == 6 then [0x21e1cde6, 0xc33707d6, 0xf4d50d87, 0x455a14ed]
    else if row == 7 then [0xa9e3e905, 0xfcefa3f8, 0x676f02d9, 0x8d2a4c8a]
    else if row == 8 then [0xfffa3942, 0x8771f681, 0x6d9d6122, 0xfde5380c]
    else if row == 9 then [0xa4beea44, 0x4bdecfa9, 0xf6bb4b60, 0xbebfbc70]
    else if row == 10 then [0x289b7ec6, 0xeaa127fa, 0xd4ef3085, 0x04881d05]
    else if row == 11 then [0xd9d4d039, 0xe6db99e5, 0x1fa27cf8, 0xc4ac5665]
    else if row == 12 then [0xf4292244, 0x432aff97, 0xab9423a7, 0xfc93a039]
    else if row == 13 then [0x655b59c3, 0x8f0ccc92, 0xffeff47d, 0x85845dd1]
    else if row == 14 then [0x6fa87e4f, 0xfe2ce6e0, 0xa3014314, 0x4e0811a1]
    else [0xf7537e82, 0xbd3af235, 0x2ad7d2bb, 0xeb86d391]
  }

  function T(i: nat): word
    requires i < 64
  {
    SineRow(i / 4)[i % 4]
  }

  /** The rotation of operation i. */
  function S(i: nat): (s: word)
    requires i < 64
    ensures 4 <= s <= 23
  {
    if i < 16 then [7, 12, 17, 22][i % 4]
    else if i < 32 then [5, 9, 14, 20][i % 4]
    else if i < 48 then [4, 11, 16, 23][i % 4]
    else [6, 10, 15, 21][i % 4]
  }

  /** The block word that operation i reads. */
  function K(i: nat): nat {
    if i < 16 then i % 16
    else if i < 32 then (5 * i + 1) % 16
    else if i < 48 then (3 * i + 5) % 16
    else (7 * i) % 16
  }

  function Mix(i: nat, x: word, y: word, z: word): word {
    if i < 16 then F(x, y, z) else if i < 32 then G(x, y, z) else if i < 48 then H(x, y, z) else I(x, y, z)
  }

  /** Addition modulo 2^32. */
  function Add(x: word, y: word): word {
    x + y
  }

  function Sum(a: word, mix: word, x: word, t: word): word {
    a + mix + x + t
  }

  /** b + ((a + mix + x + t) <<< s) */
  function Operation(a: word, b: word, mix: word, x: word, s: word, t: word): word
    requires s <= 32
  {
    Add(b, RotateLeft(Sum(a, mix, x, t), s))
  }

  type Block = x: seq<word> | |x| == 16 witness seq(16, _ => 0)

  /** The registers after the first n operations of a block. (The block stands in the decreases
      clause so that the solver does not unfold all operations at once.) */
  function Operations(x: Block, r: Regs, n: nat): Regs
    requires n <= 64
    decreases n, x
  {
    if n == 0 then r
    else
      var p := Operations(x, r, n - 1);
      Regs(p.d, Operation(p.a, p.b, Mix(n - 1, p.b, p.c, p.d), x[K(n - 1)], S(n - 1), T(n - 1)), p.b, p.c)
  }

  // ----- bytes and words, low-order byte first (section 2) -----

  function WordOf(b0: byte, b1: byte, b2: byte, b3: byte): word {
    b0 as word | (b1 as word << 8) | (b2 as word << 16) | (b3 as word << 24)
  }

  function BytesOf(w: word): (b: seq<byte>)
    ensures |b| == 4
  {
    [(w & 0xFF) as byte, ((w >> 8) & 0xFF) as byte, ((w >> 16) & 0xFF) as byte, ((w >> 24) & 0xFF) as byte]
  }

  function WordsOf(b: seq<byte>): Block
    requires |b| == 64
  {
    seq(16, i requires 0 <= i < 16 => WordOf(b[4 * i], b[4 * i + 1], b[4 * i + 2], b[4 * i + 3]))
  }

  function BytesOfAll(ws: seq<word>): (b: seq<byte>)
    ensures |b| == 4 * |ws|
  {
    if ws == [] then [] else BytesOfAll(ws[..|ws| - 1]) + BytesOf(ws[|ws| - 1])
  }

  // ----- sections 3.1 to 3.5: the digest of a message -----

  function Compress(r: Regs, block: seq<byte>): Regs
    requires |block| == 64
  {
    var p := Operations(WordsOf(block), r, 64);
    Regs(Add(r.a, p.a), Add(r.b, p.b), Add(r.c, p.c), Add(r.d, p.d))
  }

  /** The registers after the first q blocks of the data. */
  function Fold(r: Regs, data: seq<byte>, q: nat): Regs
    requires 64 * q <= |data|
  {
    if q == 0 then r else Compress(Fold(r, data, q - 1), data[64 * (q - 1)..64 * q])
  }

  /** At least one byte of padding, as many as bring the length to 56 modulo 64. */
  function PadLength(n: nat): (p: nat)
    ensures 1 <= p <= 64 && (n + p) % 64 == 56
  {
    1 + (55 - n) % 64
  }

  function Padding(n: nat): (p: seq<byte>)
    ensures |p| == PadLength(n)
  {
    [0x80] + seq(PadLength(n) - 1, _ => 0)
  }

  /** The longest padding, from which the implementations take what they need. */
  const PADDING: seq<byte> := [0x80] + seq(63, _ => 0)

  lemma PaddingIsPrefix(n: nat)
    ensures PADDING[..PadLength(n)] == Padding(n)
  {
  }

  const TWO_32: nat := 0x1_0000_0000
  const TWO_64: nat := 0x1_0000_0000_0000_0000

  type uint32 = x: nat | x < TWO_32 witness 0

  /** The bit length modulo 2^64, as two words. */
  function BitsLow(n: nat): uint32 {
    8 * n % TWO_32
  }

  function BitsHigh(n: nat): uint32 {
    8 * n / TWO_32 % TWO_32
  }

  lemma BitsAreLength(n: nat)
    ensures BitsLow(n) + TWO_32 * BitsHigh(n) == 8 * n % TWO_64
  {
    var q := 8 * n / TWO_32;
    assert q == TWO_32 * (q / TWO_32) + q % TWO_32;
    assert 8 * n == TWO_64 * (q / TWO_32) + (TWO_32 * (q % TWO_32) + 8 * n % TWO_32);
  }

  function ToWord(n: uint32): word {
    n as word
  }

  function LengthBytes(n: nat): (b: seq<byte>)
    ensures |b| == 8
  {
    BytesOfAll([ToWord(BitsLow(n)), ToWord(BitsHigh(n))])
  }

  function Padded(message: seq<byte>): seq<byte> {
    message + Padding(|message|) + LengthBytes(|message|)
  }

  lemma PaddedIsBlocks(message: seq<byte>)
    ensures |Padded(message)| % 64 == 0
  {
    var n := |message|;
    var k := (55 - n) / 64;
    assert PadLength(n) == 1 + (55 - n) - 64 * k;
    Mod64(|Padded(message)|, 1 - k, 0);
  }

  function RegsBytes(r: Regs): (b: seq<byte>)
    ensures |b| == 16
  {
    BytesOfAll([r.a, r.b, r.c, r.d])
  }

  function Digest(message: seq<byte>): (d: seq<byte>)
    ensures |d| == 16
  {
    var p := Padded(message);
    RegsBytes(Fold(INITIAL, p, |p| / 64))
  }

  function HexDigit(n: nat): char
    requires n < 16
  {
    "0123456789abcdef"[n]
  }

  /** Two lower-case hexadecimal digits for each byte. */
  function Hex(d: seq<byte>): string {
    if d == [] then ""
    else
      var b := d[|d| - 1] as nat;
      Hex(d[..|d| - 1]) + [HexDigit(b / 16), HexDigit(b % 16)]
  }

  // ----- what a streaming implementation keeps -----

  /** The registers and the partial block of a message, as far as it has come. */
  ghost predicate Holds(message: seq<byte>, r: Regs, buffer: seq<byte>, low: nat, high: nat) {
    var n, q := |message|, |message| / 64;
    && low == BitsLow(n) && high == BitsHigh(n)
    && |buffer| == 64 && buffer[..n - 64 * q] == message[64 * q..]
    && r == Fold(INITIAL, message, q)
  }

  lemma HoldsMakes(message: seq<byte>, r: Regs, buffer: seq<byte>, low: nat, high: nat, q: nat)
    requires 64 * q <= |message| < 64 * (q + 1) && |buffer| == 64
    requires low == BitsLow(|message|) && high == BitsHigh(|message|)
    requires buffer[..|message| - 64 * q] == message[64 * q..] && r == Fold(INITIAL, message, q)
    ensures Holds(message, r, buffer, low, high)
  {
    hide Fold, BitsLow, BitsHigh;
    assert q == |message| / 64;
  }

  lemma Mod64(x: int, k: int, r: int)
    requires x == 64 * k + r && 0 <= r < 64
    ensures x % 64 == r && x / 64 == k
  {
  }

  lemma Mod32(x: int, k: int, r: int)
    requires x == TWO_32 * k + r && 0 <= r < TWO_32
    ensures x % TWO_32 == r && x / TWO_32 == k
  {
  }

  /** A summand may be reduced modulo 2^32 first. */
  lemma ModAdds(x: nat, y: nat)
    ensures (x % TWO_32 + y) % TWO_32 == (x + y) % TWO_32
  {
    var k, r := (x % TWO_32 + y) / TWO_32, (x % TWO_32 + y) % TWO_32;
    Mod32(x + y, x / TWO_32 + k, r);
  }

  lemma LowIs(n: nat) returns (q: nat)
    ensures BitsLow(n) == 8 * n - TWO_32 * q && BitsLow(n) / 8 == n - 0x2000_0000 * q
  {
    q := 8 * n / TWO_32;
    assert BitsLow(n) == 8 * (n - 0x2000_0000 * q);
  }

  lemma LowCountsBytes(n: nat)
    ensures BitsLow(n) / 8 % 64 == n - 64 * (n / 64)
  {
    var q := LowIs(n);
    var k, r := n / 64, n % 64;
    Mod64(n - 0x2000_0000 * q, k - 0x80_0000 * q, r);
  }

  /** Adding to the split counter adds to the length, whether the carry goes in before or after the
      high part. */
  lemma CountAdds(n: nat, k: nat)
    ensures var bits, low, more := 8 * k % TWO_32, (BitsLow(n) + 8 * k % TWO_32) % TWO_32, k / 0x2000_0000;
            var carry := if low < bits then 1 else 0;
            && low == BitsLow(n + k)
            && ((BitsHigh(n) + carry) % TWO_32 + more) % TWO_32 == BitsHigh(n + k)
            && ((BitsHigh(n) + more) % TWO_32 + carry) % TWO_32 == BitsHigh(n + k)
  {
    var qa, ra := 8 * n / TWO_32, 8 * n % TWO_32;
    var qb, rb := 8 * k / TWO_32, 8 * k % TWO_32;
    var carry := if ra + rb < TWO_32 then 0 else 1;
    Mod32(ra + rb, carry, ra + rb - TWO_32 * carry);
    Mod32(8 * (n + k), qa + qb + carry, ra + rb - TWO_32 * carry);
    assert qb == k / 0x2000_0000;
    ModAdds(qa, carry);
    ModAdds(qa + carry, qb);
    ModAdds(qa, qb);
    ModAdds(qa + qb, carry);
  }

  /** What has been folded does not depend on what follows. */
  lemma {:induction false} FoldPrefix(r: Regs, data: seq<byte>, more: seq<byte>, q: nat)
    requires 64 * q <= |data|
    ensures Fold(r, data + more, q) == Fold(r, data, q)
  {
    hide Compress;
    if q > 0 {
      FoldPrefix(r, data, more, q - 1);
      assert (data + more)[64 * (q - 1)..64 * q] == data[64 * (q - 1)..64 * q];
    }
  }

  /** The bytes in the buffer, completed by the next ones, are the next block. */
  lemma BufferCompleted(message: seq<byte>, input: seq<byte>, q: nat)
    requires 64 * q <= |message| < 64 * (q + 1) <= |message| + |input|
    ensures message[64 * q..] + input[..64 * (q + 1) - |message|] == (message + input)[64 * q..64 * (q + 1)]
  {
  }

  lemma FoldStep(data: seq<byte>, q: nat)
    requires 64 * (q + 1) <= |data|
    ensures Fold(INITIAL, data, q + 1) == Compress(Fold(INITIAL, data, q), data[64 * q..64 * (q + 1)])
  {
    hide Compress;
  }

  /** Once padding and length have gone in, the registers are the digest. */
  lemma HoldsDigest(m: seq<byte>, all: seq<byte>, r: Regs, buffer: seq<byte>, low: nat, high: nat)
    requires all == m + Padding(|m|) + LengthBytes(|m|) && Holds(all, r, buffer, low, high)
    ensures RegsBytes(r) == Digest(m)
  {
    hide Fold, RegsBytes, LengthBytes, Padding;
    assert all == Padded(m);
  }

  // ----- the operations, one by one -----

  lemma CompressAdds(r: Regs, block: seq<byte>, a: word, b: word, c: word, d: word)
    requires |block| == 64 && Regs(a, b, c, d) == Operations(WordsOf(block), r, 64)
    ensures Compress(r, block) == Regs(Add(r.a, a), Add(r.b, b), Add(r.c, c), Add(r.d, d))
  {
    hide Add, Operations, WordsOf;
  }

  lemma NoOperations(x: Block, r: Regs)
    ensures Operations(x, r, 0) == r
  {
  }

  /** Operation i reads word k, rotates by s and adds t. */
  ghost predicate Names(i: nat, k: nat, s: word, t: word)
    requires i < 64
  {
    K(i) == k && S(i) == s && T(i) == t
  }

  lemma SixteenOperations(x: Block, r: Regs, from: nat)
    requires from <= 48
    ensures forall i {:trigger Operations(x, r, i)} | from <= i < from + 16 ::
              var p := Operations(x, r, i);
              Operations(x, r, i + 1)
              == Regs(p.d, Operation(p.a, p.b, Mix(i, p.b, p.c, p.d), x[K(i)], S(i), T(i)), p.b, p.c)
  {
    hide Operation, Mix, K, S, T;
  }
}
