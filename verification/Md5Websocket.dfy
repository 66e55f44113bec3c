/** The MD5 that the WebSocket library carries: its own macros, constants, buffering and padding. */
module Md5Websocket {
  import opened Sequences
  import opened Md5Spec

  const T_MASK: word := 0xFFFF_FFFF

  // The macros of bits.

  function ZswF(x: word, y: word, z: word): word { (x & y) | (!x & z) }

  function ZswG(x: word, y: word, z: word): word { (x & z) | (y & !z) }

  function ZswH(x: word, y: word, z: word): word { x ^ y ^ z }

  function ZswI(x: word, y: word, z: word): word { y ^ (x | !z) }

  function ZswRotateLeft(x: word, n: word): word
    requires n <= 32
  {
    (x << n) | (x >> (32 - n))
  }

  lemma ZswFIs(x: word, y: word, z: word)
    ensures ZswF(x, y, z) == F(x, y, z)
  {
  }

  lemma ZswGIs(x: word, y: word, z: word)
    ensures ZswG(x, y, z) == G(x, y, z)
  {
  }

  lemma ZswHIs(x: word, y: word, z: word)
    ensures ZswH(x, y, z) == H(x, y, z)
  {
  }

  lemma ZswIIs(x: word, y: word, z: word)
    ensures ZswI(x, y, z) == I(x, y, z)
  {
  }

  lemma ZswRotateLeftIs(x: word, n: word)
    requires n <= 32
    ensures ZswRotateLeft(x, n) == RotateLeft(x, n)
  {
  }

  lemma SumOrder(a: word, mix: word, x: word, t: word)
    ensures a + mix + x + t == Sum(a, mix, x, t)
  {
  }

  lemma LastAddend(x: word, b: word)
    ensures x + b == Add(b, x)
  {
  }

  lemma OperationOf(sum: word, a: word, b: word, mix: word, x: word, s: word, t: word)
    requires s <= 32 && sum == Sum(a, mix, x, t)
    ensures Add(b, ZswRotateLeft(sum, s)) == Operation(a, b, mix, x, s, t)
  {
    ZswRotateLeftIs(sum, s);
    hide ZswRotateLeft, RotateLeft, Sum, Add;
  }

  // The macro SET of each round; it returns the new value of its first argument.

  method SetF(a: word, b: word, c: word, d: word, xk: word, s: word, ti: word) returns (a': word)
    requires s <= 32
    ensures a' == Operation(a, b, F(b, c, d), xk, s, ti)
  {
    hide *;
    ZswFIs(b, c, d);
    var mix := ZswF(b, c, d);
    SumOrder(a, mix, xk, ti);
    a' := a + mix + xk + ti;
    OperationOf(a', a, b, mix, xk, s, ti);
    a' := ZswRotateLeft(a', s);
    LastAddend(a', b);
    a' := a' + b;
  }

  method SetG(a: word, b: word, c: word, d: word, xk: word, s: word, ti: word) returns (a': word)
    requires s <= 32
    ensures a' == Operation(a, b, G(b, c, d), xk, s, ti)
  {
    hide *;
    ZswGIs(b, c, d);
    var mix := ZswG(b, c, d);
    SumOrder(a, mix, xk, ti);
    a' := a + mix + xk + ti;
    OperationOf(a', a, b, mix, xk, s, ti);
    a' := ZswRotateLeft(a', s);
    LastAddend(a', b);
    a' := a' + b;
  }

  method SetH(a: word, b: word, c: word, d: word, xk: word, s: word, ti: word) returns (a': word)
    requires s <= 32
    ensures a' == Operation(a, b, H(b, c, d), xk, s, ti)
  {
    hide *;
    ZswHIs(b, c, d);
    var mix := ZswH(b, c, d);
    SumOrder(a, mix, xk, ti);
    a' := a + mix + xk + ti;
    OperationOf(a', a, b, mix, xk, s, ti);
    a' := ZswRotateLeft(a', s);
    LastAddend(a', b);
    a' := a' + b;
  }

  method SetI(a: word, b: word, c: word, d: word, xk: word, s: word, ti: word) returns (a': word)
    requires s <= 32
    ensures a' == Operation(a, b, I(b, c, d), xk, s, ti)
  {
    hide *;
    ZswIIs(b, c, d);
    var mix := ZswI(b, c, d);
    SumOrder(a, mix, xk, ti);
    a' := a + mix + xk + ti;
    OperationOf(a', a, b, mix, xk, s, ti);
    a' := ZswRotateLeft(a', s);
    LastAddend(a', b);
    a' := a' + b;
  }

  lemma Round1Names()
    ensures Names(0, 0, 7, T_MASK ^ 0x28955b87)
    ensures Names(1, 1, 12, T_MASK ^ 0x173848a9)
    ensures Names(2, 2, 17, 0x242070db)
    ensures Names(3, 3, 22, T_MASK ^ 0x3e423111)
    ensures Names(4, 4, 7, T_MASK ^ 0x0a83f050)
    ensures Names(5, 5, 12, 0x4787c62a)
    ensures Names(6, 6, 17, T_MASK ^ 0x57cfb9ec)
    ensures Names(7, 7, 22, T_MASK ^ 0x02b96afe)
    ensures Names(8, 8, 7, 0x698098d8)
    ensures Names(9, 9, 12, T_MASK ^ 0x74bb0850)
    ensures Names(10, 10, 17, T_MASK ^ 0x0000a44e)
    ensures Names(11, 11, 22, T_MASK ^ 0x76a32841)
    ensures Names(12, 12, 7, 0x6b901122)
    ensures Names(13, 13, 12, T_MASK ^ 0x02678e6c)
    ensures Names(14, 14, 17, T_MASK ^ 0x5986bc71)
    ensures Names(15, 15, 22, 0x49b40821)
  {
  }

  method Round1(x: Block, ghost r: Regs, a0: word, b0: word, c0: word, d0: word)
    returns (a: word, b: word, c: word, d: word)
    requires Regs(a0, b0, c0, d0) == Operations(x, r, 0)
    ensures Regs(a, b, c, d) == Operations(x, r, 16)
  {
    hide Operations, Operation, F, G, H, I, K, S, T;
    Round1Names();
    SixteenOperations(x, r, 0);
    a, b, c, d := a0, b0, c0, d0;
    a := SetF(a, b, c, d, x[0], 7, T_MASK ^ 0x28955b87);
    d := SetF(d, a, b, c, x[1], 12, T_MASK ^ 0x173848a9);
    c := SetF(c, d, a, b, x[2], 17, 0x242070db);
    b := SetF(b, c, d, a, x[3], 22, T_MASK ^ 0x3e423111);
    a := SetF(a, b, c, d, x[4], 7, T_MASK ^ 0x0a83f050);
    d := SetF(d, a, b, c, x[5], 12, 0x4787c62a);
    c := SetF(c, d, a, b, x[6], 17, T_MASK ^ 0x57cfb9ec);
    b := SetF(b, c, d, a, x[7], 22, T_MASK ^ 0x02b96afe);
    a := SetF(a, b, c, d, x[8], 7, 0x698098d8);
    d := SetF(d, a, b, c, x[9], 12, T_MASK ^ 0x74bb0850);
    c := SetF(c, d, a, b, x[10], 17, T_MASK ^ 0x0000a44e);
    b := SetF(b, c, d, a, x[11], 22, T_MASK ^ 0x76a32841);
    a := SetF(a, b, c, d, x[12], 7, 0x6b901122);
    d := SetF(d, a, b, c, x[13], 12, T_MASK ^ 0x02678e6c);
    c := SetF(c, d, a, b, x[14], 17, T_MASK ^ 0x5986bc71);
    b := SetF(b, c, d, a, x[15], 22, 0x49b40821);
  }

  lemma Round2Names()
    ensures Names(16, 1, 5, T_MASK ^ 0x09e1da9d)
    ensures Names(17, 6, 9, T_MASK ^ 0x3fbf4cbf)
    ensures Names(18, 11, 14, 0x265e5a51)
    ensures Names(19, 0, 20, T_MASK ^ 0x16493855)
    ensures Names(20, 5, 5, T_MASK ^ 0x29d0efa2)
    ensures Names(21, 10, 9, 0x02441453)
    ensures Names(22, 15, 14, T_MASK ^ 0x275e197e)
    ensures Names(23, 4, 20, T_MASK ^ 0x182c0437)
    ensures Names(24, 9, 5, 0x21e1cde6)
    ensures Names(25, 14, 9, T_MASK ^ 0x3cc8f829)
    ensures Names(26, 3, 14, T_MASK ^ 0x0b2af278)
    ensures Names(27, 8, 20, 0x455a14ed)
    ensures Names(28, 13, 5, T_MASK ^ 0x561c16fa)
    ensures Names(29, 2, 9, T_MASK ^ 0x03105c07)
    ensures Names(30, 7, 14, 0x676f02d9)
    ensures Names(31, 12, 20, T_MASK ^ 0x72d5b375)
  {
  }

  method Round2(x: Block, ghost r: Regs, a0: word, b0: word, c0: word, d0: word)
    returns (a: word, b: word, c: word, d: word)
    requires Regs(a0, b0, c0, d0) == Operations(x, r, 16)
    ensures Regs(a, b, c, d) == Operations(x, r, 32)
  {
    hide Operations, Operation, F, G, H, I, K, S, T;
    Round2Names();
    SixteenOperations(x, r, 16);
    a, b, c, d := a0, b0, c0, d0;
    a := SetG(a, b, c, d, x[1], 5, T_MASK ^ 0x09e1da9d);
    d := SetG(d, a, b, c, x[6], 9, T_MASK ^ 0x3fbf4cbf);
    c := SetG(c, d, a, b, x[11], 14, 0x265e5a51);
    b := SetG(b, c, d, a, x[0], 20, T_MASK ^ 0x16493855);
    a := SetG(a, b, c, d, x[5], 5, T_MASK ^ 0x29d0efa2);
    d := SetG(d, a, b, c, x[10], 9, 0x02441453);
    c := SetG(c, d, a, b, x[15], 14, T_MASK ^ 0x275e197e);
    b := SetG(b, c, d, a, x[4], 20, T_MASK ^ 0x182c0437);
    a := SetG(a, b, c, d, x[9], 5, 0x21e1cde6);
    d := SetG(d, a, b, c, x[14], 9, T_MASK ^ 0x3cc8f829);
    c := SetG(c, d, a, b, x[3], 14, T_MASK ^ 0x0b2af278);
    b := SetG(b, c, d, a, x[8], 20, 0x455a14ed);
    a := SetG(a, b, c, d, x[13], 5, T_MASK ^ 0x561c16fa);
    d := SetG(d, a, b, c, x[2], 9, T_MASK ^ 0x03105c07);
    c := SetG(c, d, a, b, x[7], 14, 0x676f02d9);
    b := SetG(b, c, d, a, x[12], 20, T_MASK ^ 0x72d5b375);
  }

  lemma Round3Names()
    ensures Names(32, 5, 4, T_MASK ^ 0x0005c6bd)
    ensures Names(33, 8, 11, T_MASK ^ 0x788e097e)
    ensures Names(34, 11, 16, 0x6d9d6122)
    ensures Names(35, 14, 23, T_MASK ^ 0x021ac7f3)
    ensures Names(36, 1, 4, T_MASK ^ 0x5b4115bb)
    ensures Names(37, 4, 11, 0x4bdecfa9)
    ensures Names(38, 7, 16, T_MASK ^ 0x0944b49f)
    ensures Names(39, 10, 23, T_MASK ^ 0x4140438f)
    ensures Names(40, 13, 4, 0x289b7ec6)
    ensures Names(41, 0, 11, T_MASK ^ 0x155ed805)
    ensures Names(42, 3, 16, T_MASK ^ 0x2b10cf7a)
    ensures Names(43, 6, 23, 0x04881d05)
    ensures Names(44, 9, 4, T_MASK ^ 0x262b2fc6)
    ensures Names(45, 12, 11, T_MASK ^ 0x1924661a)
    ensures Names(46, 15, 16, 0x1fa27cf8)
    ensures Names(47, 2, 23, T_MASK ^ 0x3b53a99a)
  {
  }

  method Round3(x: Block, ghost r: Regs, a0: word, b0: word, c0: word, d0: word)
    returns (a: word, b: word, c: word, d: word)
    requires Regs(a0, b0, c0, d0) == Operations(x, r, 32)
    ensures Regs(a, b, c, d) == Operations(x, r, 48)
  {
    hide Operations, Operation, F, G, H, I, K, S, T;
    Round3Names();
    SixteenOperations(x, r, 32);
    a, b, c, d := a0, b0, c0, d0;
    a := SetH(a, b, c, d, x[5], 4, T_MASK ^ 0x0005c6bd);
    d := SetH(d, a, b, c, x[8], 11, T_MASK ^ 0x788e097e);
    c := SetH(c, d, a, b, x[11], 16, 0x6d9d6122);
    b := SetH(b, c, d, a, x[14], 23, T_MASK ^ 0x021ac7f3);
    a := SetH(a, b, c, d, x[1], 4, T_MASK ^ 0x5b4115bb);
    d := SetH(d, a, b, c, x[4], 11, 0x4bdecfa9);
    c := SetH(c, d, a, b, x[7], 16, T_MASK ^ 0x0944b49f);
    b := SetH(b, c, d, a, x[10], 23, T_MASK ^ 0x4140438f);
    a := SetH(a, b, c, d, x[13], 4, 0x289b7ec6);
    d := SetH(d, a, b, c, x[0], 11, T_MASK ^ 0x155ed805);
    c := SetH(c, d, a, b, x[3], 16, T_MASK ^ 0x2b10cf7a);
    b := SetH(b, c, d, a, x[6], 23, 0x04881d05);
    a := SetH(a, b, c, d, x[9], 4, T_MASK ^ 0x262b2fc6);
    d := SetH(d, a, b, c, x[12], 11, T_MASK ^ 0x1924661a);
    c := SetH(c, d, a, b, x[15], 16, 0x1fa27cf8);
    b := SetH(b, c, d, a, x[2], 23, T_MASK ^ 0x3b53a99a);
  }

  lemma Round4Names()
    ensures Names(48, 0, 6, T_MASK ^ 0x0bd6ddbb)
    ensures Names(49, 7, 10, 0x432aff97)
    ensures Names(50, 14, 15, T_MASK ^ 0x546bdc58)
    ensures Names(51, 5, 21, T_MASK ^ 0x036c5fc6)
    ensures Names(52, 12, 6, 0x655b59c3)
    ensures Names(53, 3, 10, T_MASK ^ 0x70f3336d)
    ensures Names(54, 10, 15, T_MASK ^ 0x00100b82)
    ensures Names(55, 1, 21, T_MASK ^ 0x7a7ba22e)
    ensures Names(56, 8, 6, 0x6fa87e4f)
    ensures Names(57, 15, 10, T_MASK ^ 0x01d3191f)
    ensures Names(58, 6, 15, T_MASK ^ 0x5cfebceb)
    ensures Names(59, 13, 21, 0x4e0811a1)
    ensures Names(60, 4, 6, T_MASK ^ 0x08ac817d)
    ensures Names(61, 11, 10, T_MASK ^ 0x42c50dca)
    ensures Names(62, 2, 15, 0x2ad7d2bb)
    ensures Names(63, 9, 21, T_MASK ^ 0x14792c6e)
  {
  }

  method Round4(x: Block, ghost r: Regs, a0: word, b0: word, c0: word, d0: word)
    returns (a: word, b: word, c: word, d: word)
    requires Regs(a0, b0, c0, d0) == Operations(x, r, 48)
    ensures Regs(a, b, c, d) == Operations(x, r, 64)
  {
    hide Operations, Operation, F, G, H, I, K, S, T;
    Round4Names();
    SixteenOperations(x, r, 48);
    a, b, c, d := a0, b0, c0, d0;
    a := SetI(a, b, c, d, x[0], 6, T_MASK ^ 0x0bd6ddbb);
    d := SetI(d, a, b, c, x[7], 10, 0x432aff97);
    c := SetI(c, d, a, b, x[14], 15, T_MASK ^ 0x546bdc58);
    b := SetI(b, c, d, a, x[5], 21, T_MASK ^ 0x036c5fc6);
    a := SetI(a, b, c, d, x[12], 6, 0x655b59c3);
    d := SetI(d, a, b, c, x[3], 10, T_MASK ^ 0x70f3336d);
    c := SetI(c, d, a, b, x[10], 15, T_MASK ^ 0x00100b82);
    b := SetI(b, c, d, a, x[1], 21, T_MASK ^ 0x7a7ba22e);
    a := SetI(a, b, c, d, x[8], 6, 0x6fa87e4f);
    d := SetI(d, a, b, c, x[15], 10, T_MASK ^ 0x01d3191f);
    c := SetI(c, d, a, b, x[6], 15, T_MASK ^ 0x5cfebceb);
    b := SetI(b, c, d, a, x[13], 21, 0x4e0811a1);
    a := SetI(a, b, c, d, x[4], 6, T_MASK ^ 0x08ac817d);
    d := SetI(d, a, b, c, x[11], 10, T_MASK ^ 0x42c50dca);
    c := SetI(c, d, a, b, x[2], 15, 0x2ad7d2bb);
    b := SetI(b, c, d, a, x[9], 21, T_MASK ^ 0x14792c6e);
  }

  lemma SumIsWord(b0: byte, b1: byte, b2: byte, b3: byte)
    ensures b0 as word + (b1 as word << 8) + (b2 as word << 16) + (b3 as word << 24) == WordOf(b0, b1, b2, b3)
  {
  }

  /** The words of a block, summed from its bytes as the code does when it cannot read them in place. */
  method LoadWords(data: seq<byte>) returns (x: Block)
    requires |data| == 64
    ensures x == WordsOf(data)
  {
    var xbuf: seq<word> := [];
    var xp := 0;
    for i := 0 to 16
      invariant xp == 4 * i
      invariant |xbuf| == i && xbuf == WordsOf(data)[..i]
    {
      hide WordOf;
      SumIsWord(data[xp], data[xp + 1], data[xp + 2], data[xp + 3]);
      xbuf := xbuf + [data[xp] as word + (data[xp + 1] as word << 8) + (data[xp + 2] as word << 16)
                      + (data[xp + 3] as word << 24)];
      xp := xp + 4;
    }
    x := xbuf;
  }

  /** The word shifted right by k bytes and cut to its low byte. */
  function ByteAt(w: word, k: nat): byte
    requires k < 4
  {
    var shifted := if k == 0 then w else if k == 1 then w >> 8 else if k == 2 then w >> 16 else w >> 24;
    (shifted & 0xFF) as byte
  }

  lemma ByteAtIs(w: word, k: nat)
    requires k < 4
    ensures ByteAt(w, k) == BytesOf(w)[k]
  {
  }

  lemma {:induction false} ByteOfAll(ws: seq<word>, i: nat, k: nat)
    requires i < |ws| && k < 4
    ensures BytesOfAll(ws)[4 * i + k] == BytesOf(ws[i])[k]
  {
    hide BytesOf;
    var last := |ws| - 1;
    if i < last {
      ByteOfAll(ws[..last], i, k);
    }
  }

  /** Byte i of the words comes from word i / 4. */
  method StoreBytes(words: seq<word>) returns (data: seq<byte>)
    ensures data == BytesOfAll(words)
  {
    hide BytesOf, BytesOfAll, ByteAt;
    data := [];
    for i := 0 to 4 * |words|
      invariant |data| == i && data == BytesOfAll(words)[..i]
    {
      ByteAtIs(words[i / 4], i % 4);
      ByteOfAll(words, i / 4, i % 4);
      data := data + [ByteAt(words[i / 4], i % 4)];
    }
  }

  /** The code's padding length, computed from the low counter word in unsigned arithmetic. */
  lemma PadLengthFromCount(n: nat)
    ensures PadLength(n) == (55 - BitsLow(n) / 8) % TWO_32 % 64 + 1
  {
    var q := LowIs(n);
    var x := 55 - BitsLow(n) / 8;
    var j, k, r := x / TWO_32, (55 - n) / 64, (55 - n) % 64;
    Mod64(x - TWO_32 * j, k + 0x80_0000 * q - 0x400_0000 * j, r);
  }

  lemma Truncated(x: nat)
    ensures x % TWO_64 % TWO_32 == x % TWO_32
  {
    var y := x % TWO_64;
    Mod32(x, TWO_32 * (x / TWO_64) + y / TWO_32, y % TWO_32);
  }

  class State {
    var count0: uint32
    var count1: uint32
    var abcd: Regs
    const buf: array<byte>
    /** Every byte appended so far. */
    ghost var message: seq<byte>

    ghost predicate Valid()
      reads this, buf
    {
      buf.Length == 64 && Holds(message, abcd, buf[..], count0, count1)
    }

    constructor ()
      ensures Valid() && message == [] && fresh(buf)
    {
      count0, count1 := 0, 0;
      abcd := Regs(0x67452301, T_MASK ^ 0x10325476, T_MASK ^ 0x67452301, 0x10325476);
      buf, message := new byte[64](_ => 0), [];
    }

    method Process(data: seq<byte>)
      requires |data| == 64
      modifies this`abcd
      ensures abcd == Compress(old(abcd), data)
    {
      hide *;
      var x := LoadWords(data);
      NoOperations(x, abcd);
      var a, b, c, d := Round1(x, abcd, abcd.a, abcd.b, abcd.c, abcd.d);
      a, b, c, d := Round2(x, abcd, a, b, c, d);
      a, b, c, d := Round3(x, abcd, a, b, c, d);
      a, b, c, d := Round4(x, abcd, a, b, c, d);
      CompressAdds(abcd, data, a, b, c, d);
      abcd := Regs(Add(abcd.a, a), Add(abcd.b, b), Add(abcd.c, c), Add(abcd.d, d));
    }

    /** Adds to the bit counter; the byte count comes as a 64-bit number. */
    method CountBits(nbytes: nat, ghost n: nat)
      requires nbytes < TWO_64
      requires count0 == BitsLow(n) && count1 == BitsHigh(n)
      modifies this`count0, this`count1
      ensures count0 == BitsLow(n + nbytes) && count1 == BitsHigh(n + nbytes)
    {
      hide BitsLow, BitsHigh;
      CountAdds(n, nbytes);
      Truncated(nbytes * 8);
      var nbits := nbytes * 8 % TWO_64 % TWO_32;
      count1 := (count1 + nbytes / 0x2000_0000) % TWO_32;
      count0 := (count0 + nbits) % TWO_32;
      if count0 < nbits {
        count1 := (count1 + 1) % TWO_32;
      }
    }

    /** The loop over full blocks; p is the number of input bytes used. */
    method ProcessBlocks(data: seq<byte>, used: nat, ghost blocks: nat) returns (p: nat)
      requires used <= |data| && |message| + used == 64 * blocks
      requires abcd == Fold(INITIAL, message + data, blocks)
      modifies this`abcd
      ensures p <= |data|
      ensures var all, q := message + data, |message + data| / 64;
              64 * q == |message| + p && abcd == Fold(INITIAL, all, q)
    {
      hide Compress;
      ghost var n, all, q := |message|, message + data, blocks;
      p := used;
      var left := |data| - used;
      while left >= 64
        invariant used <= p && 0 <= left && p + left == |data| && n + p == 64 * q
        invariant abcd == Fold(INITIAL, all, q)
      {
        assert all[64 * q..64 * (q + 1)] == data[p..p + 64];
        Process(data[p..p + 64]);
        p, left, q := p + 64, left - 64, q + 1;
      }
    }

    /** The branch that completes a partial block; it is processed when the data suffice. */
    method InitialBlock(data: seq<byte>, offset: nat) returns (copy: nat, full: bool)
      requires buf.Length == 64 && 0 < offset == |message| - 64 * (|message| / 64)
      requires buf[..offset] == message[|message| - offset..]
      requires abcd == Fold(INITIAL, message, |message| / 64)
      modifies this`abcd, buf
      ensures full <==> offset + |data| >= 64
      ensures !full ==> abcd == old(abcd) && buf[..offset + |data|] == old(buf[..offset]) + data
      ensures full ==> copy == 64 - offset && |message| + copy == 64 * (|message| / 64 + 1)
      ensures full ==> abcd == Fold(INITIAL, message + data, |message| / 64 + 1)
    {
      hide Compress, Fold;
      ghost var all, q := message + data, |message| / 64;
      copy := if offset + |data| > 64 then 64 - offset else |data|;
      Write(buf, offset, data[..copy]);
      full := !(offset + copy < 64);
      if full {
        FoldPrefix(INITIAL, message, data, q);
        BufferCompleted(message, data, q);
        assert buf[..] == message[64 * q..] + data[..copy];
        FoldStep(all, q);
        Process(buf[..]);
      }
    }

    /** Takes another part of the message; adding the buffer offset to its length must not overflow. */
    method Append(data: seq<byte>)
      requires Valid() && |data| <= TWO_64 - 64
      modifies this, buf
      ensures Valid() && message == old(message) + data
    {
      hide Compress, Fold, BitsLow, BitsHigh;
      ghost var n, all, q := |message|, message + data, |message| / 64;
      LowCountsBytes(n);
      FoldPrefix(INITIAL, message, data, q);
      assert buf[..n - 64 * q] == message[64 * q..] && abcd == Fold(INITIAL, message, q);
      hide Holds;
      var offset := count0 / 8 % 64;
      if |data| <= 0 {
        assert all == message;
        return;
      }
      CountBits(|data|, n);
      var p := 0;
      if offset != 0 {
        var full;
        p, full := InitialBlock(data, offset);
        if !full {
          message := all;
          HoldsMakes(all, abcd, buf[..], count0, count1, q);
          return;
        }
        q := q + 1;
      }
      p := ProcessBlocks(data, p, q);
      assert all[n + p..] == data[p..];
      KeepRest(data[p..], all);
    }

    /** The last step of Append: a final partial block is kept. */
    method KeepRest(rest: seq<byte>, ghost all: seq<byte>)
      requires buf.Length == 64 && all[64 * (|all| / 64)..] == rest
      requires abcd == Fold(INITIAL, all, |all| / 64) && count0 == BitsLow(|all|) && count1 == BitsHigh(|all|)
      modifies `message, buf
      ensures Valid() && message == all
    {
      hide Fold, BitsLow, BitsHigh;
      if |rest| > 0 {
        Write(buf, 0, rest);
      }
      message := all;
      assert all[64 * (|all| / 64)..] == rest == buf[..|rest|];
      HoldsMakes(all, abcd, buf[..], count0, count1, |all| / 64);
      hide Holds;
    }

    /** Pads, appends the length and returns the digest. */
    method Finish() returns (digest: seq<byte>)
      requires Valid()
      modifies this, buf
      ensures digest == Digest(old(message))
    {
      hide Compress, Fold, BytesOf, BytesOfAll, ToWord, BitsLow, BitsHigh, PadLength, Padding;
      ghost var m, n := message, |message|;
      var data := StoreBytes([ToWord(count0), ToWord(count1)]);
      var padLen := (55 - count0 / 8) % TWO_32 % 64 + 1;
      PadLengthFromCount(n);
      PaddingIsPrefix(n);
      Append(PADDING[..padLen]);
      Append(data);
      HoldsDigest(m, message, abcd, buf[..], count0, count1);
      digest := StoreBytes([abcd.a, abcd.b, abcd.c, abcd.d]);
    }
  }
}
