/** The bot's own MD5 class: a 64-byte buffer, a bit counter in two words, and the unrolled transform. */
module Md5Class {
  import opened Sequences
  import opened Md5Spec

  // The code's own functions of bits.

  function BitF(x: word, y: word, z: word): word { (x & y) | (!x & z) }

  function BitG(x: word, y: word, z: word): word { (x & z) | (y & !z) }

  function BitH(x: word, y: word, z: word): word { x ^ y ^ z }

  function BitI(x: word, y: word, z: word): word { y ^ (x | !z) }

  function RotateBits(x: word, n: word): word
    requires n <= 32
  {
    (x << n) | (x >> (32 - n))
  }

  lemma BitFIs(x: word, y: word, z: word)
    ensures BitF(x, y, z) == F(x, y, z)
  {
  }

  lemma BitGIs(x: word, y: word, z: word)
    ensures BitG(x, y, z) == G(x, y, z)
  {
  }

  lemma BitHIs(x: word, y: word, z: word)
    ensures BitH(x, y, z) == H(x, y, z)
  {
  }

  lemma BitIIs(x: word, y: word, z: word)
    ensures BitI(x, y, z) == I(x, y, z)
  {
  }

  lemma RotateBitsIs(x: word, n: word)
    requires n <= 32
    ensures RotateBits(x, n) == RotateLeft(x, n)
  {
  }

  /** The code adds in its own order; on 32-bit words the order does not matter. */
  lemma SumOrder(a: word, mix: word, x: word, t: word)
    ensures a + (mix + x + t) == Sum(a, mix, x, t)
  {
  }

  lemma LastAddend(x: word, b: word)
    ensures x + b == Add(b, x)
  {
  }

  lemma OperationOf(sum: word, a: word, b: word, mix: word, x: word, s: word, t: word)
    requires s <= 32 && sum == Sum(a, mix, x, t)
    ensures Add(b, RotateBits(sum, s)) == Operation(a, b, mix, x, s, t)
  {
    RotateBitsIs(sum, s);
    hide RotateBits, RotateLeft, Sum, Add;
  }

  // The steps return the new value of their first argument, which the code updates in place.

  method FF(a: word, b: word, c: word, d: word, x: word, s: word, ac: word) returns (a': word)
    requires s <= 32
    ensures a' == Operation(a, b, F(b, c, d), x, s, ac)
  {
    hide *;
    BitFIs(b, c, d);
    var mix := BitF(b, c, d);
    SumOrder(a, mix, x, ac);
    a' := a + (mix + x + ac);
    OperationOf(a', a, b, mix, x, s, ac);
    a' := RotateBits(a', s);
    LastAddend(a', b);
    a' := a' + b;
  }

  method GG(a: word, b: word, c: word, d: word, x: word, s: word, ac: word) returns (a': word)
    requires s <= 32
    ensures a' == Operation(a, b, G(b, c, d), x, s, ac)
  {
    hide *;
    BitGIs(b, c, d);
    var mix := BitG(b, c, d);
    SumOrder(a, mix, x, ac);
    a' := a + (mix + x + ac);
    OperationOf(a', a, b, mix, x, s, ac);
    a' := RotateBits(a', s);
    LastAddend(a', b);
    a' := a' + b;
  }

  method HH(a: word, b: word, c: word, d: word, x: word, s: word, ac: word) returns (a': word)
    requires s <= 32
    ensures a' == Operation(a, b, H(b, c, d), x, s, ac)
  {
    hide *;
    BitHIs(b, c, d);
    var mix := BitH(b, c, d);
    SumOrder(a, mix, x, ac);
    a' := a + (mix + x + ac);
    OperationOf(a', a, b, mix, x, s, ac);
    a' := RotateBits(a', s);
    LastAddend(a', b);
    a' := a' + b;
  }

  method II(a: word, b: word, c: word, d: word, x: word, s: word, ac: word) returns (a': word)
    requires s <= 32
    ensures a' == Operation(a, b, I(b, c, d), x, s, ac)
  {
    hide *;
    BitIIs(b, c, d);
    var mix := BitI(b, c, d);
    SumOrder(a, mix, x, ac);
    a' := a + (mix + x + ac);
    OperationOf(a', a, b, mix, x, s, ac);
    a' := RotateBits(a', s);
    LastAddend(a', b);
    a' := a' + b;
  }

  lemma Round1Names()
    ensures Names(0, 0, 7, 0xd76aa478)
    ensures Names(1, 1, 12, 0xe8c7b756)
    ensures Names(2, 2, 17, 0x242070db)
    ensures Names(3, 3, 22, 0xc1bdceee)
    ensures Names(4, 4, 7, 0xf57c0faf)
    ensures Names(5, 5, 12, 0x4787c62a)
    ensures Names(6, 6, 17, 0xa8304613)
    ensures Names(7, 7, 22, 0xfd469501)
    ensures Names(8, 8, 7, 0x698098d8)
    ensures Names(9, 9, 12, 0x8b44f7af)
    ensures Names(10, 10, 17, 0xffff5bb1)
    ensures Names(11, 11, 22, 0x895cd7be)
    ensures Names(12, 12, 7, 0x6b901122)
    ensures Names(13, 13, 12, 0xfd987193)
    ensures Names(14, 14, 17, 0xa679438e)
    ensures Names(15, 15, 22, 0x49b40821)
  {
  }

  method Round1(x: Block, ghost r: Regs, a0: word, b0: word, c0: word, d0: word)
    returns (a: word, b: word, c: word, d: word)
    requires Regs(a0, b0, c0, d0) == Operations(x, r, 0)
    ensures Regs(a, b, c, d) == Operations(x, r, 16)
  {
    hide Operations, Operation, F, G, H, I, K, S, T;
    Round1Names();
    SixteenOperations(x, r, 0);
    a, b, c, d := a0, b0, c0, d0;
    a := FF(a, b, c, d, x[0], 7, 0xd76aa478);
    d := FF(d, a, b, c, x[1], 12, 0xe8c7b756);
    c := FF(c, d, a, b, x[2], 17, 0x242070db);
    b := FF(b, c, d, a, x[3], 22, 0xc1bdceee);
    a := FF(a, b, c, d, x[4], 7, 0xf57c0faf);
    d := FF(d, a, b, c, x[5], 12, 0x4787c62a);
    c := FF(c, d, a, b, x[6], 17, 0xa8304613);
    b := FF(b, c, d, a, x[7], 22, 0xfd469501);
    a := FF(a, b, c, d, x[8], 7, 0x698098d8);
    d := FF(d, a, b, c, x[9], 12, 0x8b44f7af);
    c := FF(c, d, a, b, x[10], 17, 0xffff5bb1);
    b := FF(b, c, d, a, x[11], 22, 0x895cd7be);
    a := FF(a, b, c, d, x[12], 7, 0x6b901122);
    d := FF(d, a, b, c, x[13], 12, 0xfd987193);
    c := FF(c, d, a, b, x[14], 17, 0xa679438e);
    b := FF(b, c, d, a, x[15], 22, 0x49b40821);
  }

  lemma Round2Names()
    ensures Names(16, 1, 5, 0xf61e2562)
    ensures Names(17, 6, 9, 0xc040b340)
    ensures Names(18, 11, 14, 0x265e5a51)
    ensures Names(19, 0, 20, 0xe9b6c7aa)
    ensures Names(20, 5, 5, 0xd62f105d)
    ensures Names(21, 10, 9, 0x02441453)
    ensures Names(22, 15, 14, 0xd8a1e681)
    ensures Names(23, 4, 20, 0xe7d3fbc8)
    ensures Names(24, 9, 5, 0x21e1cde6)
    ensures Names(25, 14, 9, 0xc33707d6)
    ensures Names(26, 3, 14, 0xf4d50d87)
    ensures Names(27, 8, 20, 0x455a14ed)
    ensures Names(28, 13, 5, 0xa9e3e905)
    ensures Names(29, 2, 9, 0xfcefa3f8)
    ensures Names(30, 7, 14, 0x676f02d9)
    ensures Names(31, 12, 20, 0x8d2a4c8a)
  {
  }

  method Round2(x: Block, ghost r: Regs, a0: word, b0: word, c0: word, d0: word)
    returns (a: word, b: word, c: word, d: word)
    requires Regs(a0, b0, c0, d0) == Operations(x, r, 16)
    ensures Regs(a, b, c, d) == Operations(x, r, 32)
  {
    hide Operations, Operation, F, G, H, I, K, S, T;
    Round2Names();
    SixteenOperations(x, r, 16);
    a, b, c, d := a0, b0, c0, d0;
    a := GG(a, b, c, d, x[1], 5, 0xf61e2562);
    d := GG(d, a, b, c, x[6], 9, 0xc040b340);
    c := GG(c, d, a, b, x[11], 14, 0x265e5a51);
    b := GG(b, c, d, a, x[0], 20, 0xe9b6c7aa);
    a := GG(a, b, c, d, x[5], 5, 0xd62f105d);
    d := GG(d, a, b, c, x[10], 9, 0x02441453);
    c := GG(c, d, a, b, x[15], 14, 0xd8a1e681);
    b := GG(b, c, d, a, x[4], 20, 0xe7d3fbc8);
    a := GG(a, b, c, d, x[9], 5, 0x21e1cde6);
    d := GG(d, a, b, c, x[14], 9, 0xc33707d6);
    c := GG(c, d, a, b, x[3], 14, 0xf4d50d87);
    b := GG(b, c, d, a, x[8], 20, 0x455a14ed);
    a := GG(a, b, c, d, x[13], 5, 0xa9e3e905);
    d := GG(d, a, b, c, x[2], 9, 0xfcefa3f8);
    c := GG(c, d, a, b, x[7], 14, 0x676f02d9);
    b := GG(b, c, d, a, x[12], 20, 0x8d2a4c8a);
  }

  lemma Round3Names()
    ensures Names(32, 5, 4, 0xfffa3942)
    ensures Names(33, 8, 11, 0x8771f681)
    ensures Names(34, 11, 16, 0x6d9d6122)
    ensures Names(35, 14, 23, 0xfde5380c)
    ensures Names(36, 1, 4, 0xa4beea44)
    ensures Names(37, 4, 11, 0x4bdecfa9)
    ensures Names(38, 7, 16, 0xf6bb4b60)
    ensures Names(39, 10, 23, 0xbebfbc70)
    ensures Names(40, 13, 4, 0x289b7ec6)
    ensures Names(41, 0, 11, 0xeaa127fa)
    ensures Names(42, 3, 16, 0xd4ef3085)
    ensures Names(43, 6, 23, 0x04881d05)
    ensures Names(44, 9, 4, 0xd9d4d039)
    ensures Names(45, 12, 11, 0xe6db99e5)
    ensures Names(46, 15, 16, 0x1fa27cf8)
    ensures Names(47, 2, 23, 0xc4ac5665)
  {
  }

  method Round3(x: Block, ghost r: Regs, a0: word, b0: word, c0: word, d0: word)
    returns (a: word, b: word, c: word, d: word)
    requires Regs(a0, b0, c0, d0) == Operations(x, r, 32)
    ensures Regs(a, b, c, d) == Operations(x, r, 48)
  {
    hide Operations, Operation, F, G, H, I, K, S, T;
    Round3Names();
    SixteenOperations(x, r, 32);
    a, b, c, d := a0, b0, c0, d0;
    a := HH(a, b, c, d, x[5], 4, 0xfffa3942);
    d := HH(d, a, b, c, x[8], 11, 0x8771f681);
    c := HH(c, d, a, b, x[11], 16, 0x6d9d6122);
    b := HH(b, c, d, a, x[14], 23, 0xfde5380c);
    a := HH(a, b, c, d, x[1], 4, 0xa4beea44);
    d := HH(d, a, b, c, x[4], 11, 0x4bdecfa9);
    c := HH(c, d, a, b, x[7], 16, 0xf6bb4b60);
    b := HH(b, c, d, a, x[10], 23, 0xbebfbc70);
    a := HH(a, b, c, d, x[13], 4, 0x289b7ec6);
    d := HH(d, a, b, c, x[0], 11, 0xeaa127fa);
    c := HH(c, d, a, b, x[3], 16, 0xd4ef3085);
    b := HH(b, c, d, a, x[6], 23, 0x04881d05);
    a := HH(a, b, c, d, x[9], 4, 0xd9d4d039);
    d := HH(d, a, b, c, x[12], 11, 0xe6db99e5);
    c := HH(c, d, a, b, x[15], 16, 0x1fa27cf8);
    b := HH(b, c, d, a, x[2], 23, 0xc4ac5665);
  }

  lemma Round4Names()
    ensures Names(48, 0, 6, 0xf4292244)
    ensures Names(49, 7, 10, 0x432aff97)
    ensures Names(50, 14, 15, 0xab9423a7)
    ensures Names(51, 5, 21, 0xfc93a039)
    ensures Names(52, 12, 6, 0x655b59c3)
    ensures Names(53, 3, 10, 0x8f0ccc92)
    ensures Names(54, 10, 15, 0xffeff47d)
    ensures Names(55, 1, 21, 0x85845dd1)
    ensures Names(56, 8, 6, 0x6fa87e4f)
    ensures Names(57, 15, 10, 0xfe2ce6e0)
    ensures Names(58, 6, 15, 0xa3014314)
    ensures Names(59, 13, 21, 0x4e0811a1)
    ensures Names(60, 4, 6, 0xf7537e82)
    ensures Names(61, 11, 10, 0xbd3af235)
    ensures Names(62, 2, 15, 0x2ad7d2bb)
    ensures Names(63, 9, 21, 0xeb86d391)
  {
  }

  method Round4(x: Block, ghost r: Regs, a0: word, b0: word, c0: word, d0: word)
    returns (a: word, b: word, c: word, d: word)
    requires Regs(a0, b0, c0, d0) == Operations(x, r, 48)
    ensures Regs(a, b, c, d) == Operations(x, r, 64)
  {
    hide Operations, Operation, F, G, H, I, K, S, T;
    Round4Names();
    SixteenOperations(x, r, 48);
    a, b, c, d := a0, b0, c0, d0;
    a := II(a, b, c, d, x[0], 6, 0xf4292244);
    d := II(d, a, b, c, x[7], 10, 0x432aff97);
    c := II(c, d, a, b, x[14], 15, 0xab9423a7);
    b := II(b, c, d, a, x[5], 21, 0xfc93a039);
    a := II(a, b, c, d, x[12], 6, 0x655b59c3);
    d := II(d, a, b, c, x[3], 10, 0x8f0ccc92);
    c := II(c, d, a, b, x[10], 15, 0xffeff47d);
    b := II(b, c, d, a, x[1], 21, 0x85845dd1);
    a := II(a, b, c, d, x[8], 6, 0x6fa87e4f);
    d := II(d, a, b, c, x[15], 10, 0xfe2ce6e0);
    c := II(c, d, a, b, x[6], 15, 0xa3014314);
    b := II(b, c, d, a, x[13], 21, 0x4e0811a1);
    a := II(a, b, c, d, x[4], 6, 0xf7537e82);
    d := II(d, a, b, c, x[11], 10, 0xbd3af235);
    c := II(c, d, a, b, x[2], 15, 0x2ad7d2bb);
    b := II(b, c, d, a, x[9], 21, 0xeb86d391);
  }

  /** Bytes to words. */
  method Decode(src: seq<byte>) returns (dest: Block)
    requires |src| == 64
    ensures dest == WordsOf(src)
  {
    var words: seq<word> := [];
    var i, j := 0, 0;
    while j < 64
      invariant i <= 16 && j == 4 * i
      invariant |words| == i && words == WordsOf(src)[..i]
    {
      words := words + [WordOf(src[j], src[j + 1], src[j + 2], src[j + 3])];
      i, j := i + 1, j + 4;
    }
    dest := words;
  }

  /** Words to bytes. */
  method Encode(src: seq<word>) returns (dest: seq<byte>)
    ensures dest == BytesOfAll(src)
  {
    hide BytesOf;
    dest := [];
    for i := 0 to |src|
      invariant dest == BytesOfAll(src[..i])
    {
      dest := dest + BytesOf(src[i]);
      assert src[..i + 1][..i] == src[..i];
    }
    assert src[..|src|] == src;
  }

  /** The code's choice of the padding length, by the two ways the last block can end. */
  lemma PadLengthByCases(n: nat)
    ensures var index := n - 64 * (n / 64); PadLength(n) == if index < 56 then 56 - index else 120 - index
  {
  }

  lemma BehindBlocks(all: seq<byte>, q: nat, buffer: seq<byte>, front: seq<byte>, rest: seq<byte>)
    requires 64 * q <= |all| && all[64 * q..] == front + rest && front + rest <= buffer
    ensures buffer[..|all| - 64 * q] == all[64 * q..]
  {
  }

  /** A block behind the earlier message is one of the input. */
  lemma BlockOfInput(message: seq<byte>, input: seq<byte>, i: nat, q: nat)
    requires |message| + i == 64 * q && i + 64 <= |input|
    ensures (message + input)[64 * q..64 * (q + 1)] == input[i..i + 64]
  {
  }

  class Md5 {
    var state: Regs
    var count0: uint32
    var count1: uint32
    const buffer: array<byte>
    const digest: array<byte>
    /** Every byte given to Update so far. */
    ghost var message: seq<byte>

    ghost predicate Shape()
      reads this
    {
      buffer.Length == 64 && digest.Length == 16 && buffer != digest
    }

    ghost predicate Valid()
      reads this, buffer
    {
      Shape() && Holds(message, state, buffer[..], count0, count1)
    }

    constructor ()
      ensures Valid() && message == [] && fresh(buffer) && fresh(digest)
    {
      state, count0, count1 := Regs(0x67452301, 0xefcdab89, 0x98badcfe, 0x10325476), 0, 0;
      buffer, digest, message := new byte[64](_ => 0), new byte[16](_ => 0), [];
    }

    /** The basic transformation of one block. */
    method Transform(block: seq<byte>)
      requires |block| == 64
      modifies this`state
      ensures state == Compress(old(state), block)
    {
      hide *;
      var x := Decode(block);
      NoOperations(x, state);
      var a, b, c, d := Round1(x, state, state.a, state.b, state.c, state.d);
      a, b, c, d := Round2(x, state, a, b, c, d);
      a, b, c, d := Round3(x, state, a, b, c, d);
      a, b, c, d := Round4(x, state, a, b, c, d);
      CompressAdds(state, block, a, b, c, d);
      state := Regs(Add(state.a, a), Add(state.b, b), Add(state.c, c), Add(state.d, d));
    }

    /** Adds to the bit counter, carrying by hand. */
    method CountBits(inputLen: nat, ghost n: nat)
      requires count0 == BitsLow(n) && count1 == BitsHigh(n)
      modifies this`count0, this`count1
      ensures count0 == BitsLow(n + inputLen) && count1 == BitsHigh(n + inputLen)
    {
      hide BitsLow, BitsHigh;
      CountAdds(n, inputLen);
      var bits := inputLen * 8 % TWO_32;
      count0 := (count0 + bits) % TWO_32;
      if count0 < bits {
        count1 := (count1 + 1) % TWO_32;
      }
      count1 := (count1 + inputLen / 0x2000_0000) % TWO_32;
    }

    /** The branch of Update that fills the buffer and transforms as many blocks as there are; i is
        the number of input bytes used. */
    method TransformBlocks(index: nat, input: seq<byte>) returns (i: nat)
      requires Shape() && index == |message| - 64 * (|message| / 64)
      requires buffer[..index] == message[|message| - index..]
      requires state == Fold(INITIAL, message, |message| / 64)
      requires 64 - index <= |input| <= 0xFFFF_FFC0
      modifies this`state, buffer
      ensures i <= |input|
      ensures var all, q := message + input, |message + input| / 64;
              64 * q == |message| + i && state == Fold(INITIAL, all, q)
    {
      hide Compress;
      ghost var n, all := |message|, message + input;
      ghost var q := n / 64;
      FoldPrefix(INITIAL, message, input, q);
      BufferCompleted(message, input, q);
      Write(buffer, index, input[..64 - index]);
      assert buffer[..] == message[64 * q..] + input[..64 - index];
      Transform(buffer[..]);
      i, q := 64 - index, q + 1;
      while i + 63 < |input|
        invariant 64 - index <= i <= |input| && n + i == 64 * q
        invariant i + 63 < TWO_32
        invariant state == Fold(INITIAL, all, q)
        modifies this`state
      {
        BlockOfInput(message, input, i, q);
        Transform(input[i..i + 64]);
        i, q := i + 64, q + 1;
      }
    }

    /** Takes another part of the message. The length must leave room in the code's unsigned loop
        variable. */
    method Update(input: seq<byte>)
      requires Valid() && |input| <= 0xFFFF_FFC0
      modifies this, buffer
      ensures Valid() && message == old(message) + input
    {
      hide Compress, Fold, BitsLow, BitsHigh;
      ghost var n, all := |message|, message + input;
      LowCountsBytes(n);
      var index := count0 / 8 % 64;
      CountBits(|input|, n);
      var partLen := 64 - index;
      var i := 0;
      if |input| >= partLen {
        i := TransformBlocks(index, input);
        index := 0;
        assert all[n + i..] == input[i..];
      } else {
        FoldPrefix(INITIAL, message, input, n / 64);
        assert |all| / 64 == n / 64;
      }
      KeepRest(index, input[i..], all);
    }

    /** The last step of Update keeps what is left behind the blocks. */
    method KeepRest(index: nat, rest: seq<byte>, ghost all: seq<byte>)
      requires Shape() && index <= 64 && all[64 * (|all| / 64)..] == buffer[..index] + rest
      requires state == Fold(INITIAL, all, |all| / 64) && count0 == BitsLow(|all|) && count1 == BitsHigh(|all|)
      modifies `message, buffer
      ensures Valid() && message == all
    {
      hide Fold, BitsLow, BitsHigh;
      ghost var front := buffer[..index];
      Write(buffer, index, rest);
      BehindBlocks(all, |all| / 64, buffer[..], front, rest);
      HoldsMakes(all, state, buffer[..], count0, count1, |all| / 64);
      hide Holds;
      message := all;
    }

    /** Pads, appends the length and leaves the digest; the working state is wiped. */
    method Finalize()
      requires Valid()
      modifies this, buffer, digest
      ensures Shape() && digest[..] == Digest(old(message))
      ensures count0 == 0 && count1 == 0 && state == Regs(0, 0, 0, 0) && buffer[..] == seq(64, _ => 0)
    {
      hide Compress, Fold, BytesOf, BytesOfAll, ToWord, BitsLow, BitsHigh, PadLength, Padding;
      ghost var m, n := message, |message|;
      LowCountsBytes(n);
      var bits := Encode([ToWord(count0), ToWord(count1)]);
      var index := count0 / 8 % 64;
      var padLen := if index < 56 then 56 - index else 120 - index;
      PadLengthByCases(n);
      PaddingIsPrefix(n);
      var padding := PADDING[..padLen];
      Update(padding);
      assert message == m + Padding(n);
      Update(bits);
      HoldsDigest(m, message, state, buffer[..], count0, count1);
      var bytes := Encode([state.a, state.b, state.c, state.d]);
      forall k | 0 <= k < 16 {
        digest[k] := bytes[k];
      }
      Wipe();
    }

    /** The three memsets at the end of Finalize. */
    method Wipe()
      requires Shape()
      modifies this, buffer
      ensures Shape()
      ensures count0 == 0 && count1 == 0 && state == Regs(0, 0, 0, 0) && buffer[..] == seq(64, _ => 0)
    {
      count0, count1, state := 0, 0, Regs(0, 0, 0, 0);
      forall k | 0 <= k < 64 {
        buffer[k] := 0;
      }
    }
  }
}
