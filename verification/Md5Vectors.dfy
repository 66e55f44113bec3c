/** An example of appendix A.5 of RFC 1321, computed operation by operation: the digest of the alphabet. */
module Md5Vectors {
  import opened Md5Spec
  import Md5Agreement

  const ALPHABET: seq<byte> :=
    [0x61, 0x62, 0x63, 0x64, 0x65, 0x66, 0x67, 0x68, 0x69, 0x6a, 0x6b, 0x6c, 0x6d,
     0x6e, 0x6f, 0x70, 0x71, 0x72, 0x73, 0x74, 0x75, 0x76, 0x77, 0x78, 0x79, 0x7a]

  /** The padded alphabet as words. */
  const WORDS: Block :=
    [0x64636261, 0x68676665, 0x6c6b6a69, 0x706f6e6d, 0x74737271, 0x78777675, 0x00807a79, 0x00000000,
     0x00000000, 0x00000000, 0x00000000, 0x00000000, 0x00000000, 0x00000000, 0x000000d0, 0x00000000]

  /** One operation, with its numbers written out. */
  lemma Next(r: Regs, i: nat, k: nat, s: word, t: word, b: word)
    requires i < 64 && k < 16 && s <= 32 && Names(i, k, s, t) && Operations(WORDS, INITIAL, i) == r
    requires Operation(r.a, r.b, Mix(i, r.b, r.c, r.d), WORDS[k], s, t) == b
    ensures Operations(WORDS, INITIAL, i + 1) == Regs(r.d, b, r.b, r.c)
  {
    hide Operation, Mix, K, S, T;
  }

  lemma Pair0()
    requires Operations(WORDS, INITIAL, 0) == Regs(0x67452301, 0xefcdab89, 0x98badcfe, 0x10325476)
    ensures Operations(WORDS, INITIAL, 2) == Regs(0x98badcfe, 0xaab1aaaa, 0xd6d117a6, 0xefcdab89)
  {
    hide Operations;
    Next(Regs(0x67452301, 0xefcdab89, 0x98badcfe, 0x10325476), 0, 0, 7, 0xd76aa478, 0xd6d117a6);
    Next(Regs(0x10325476, 0xd6d117a6, 0xefcdab89, 0x98badcfe), 1, 1, 12, 0xe8c7b756, 0xaab1aaaa);
  }

  lemma Pair1()
    requires Operations(WORDS, INITIAL, 2) == Regs(0x98badcfe, 0xaab1aaaa, 0xd6d117a6, 0xefcdab89)
    ensures Operations(WORDS, INITIAL, 4) == Regs(0xd6d117a6, 0x4503b812, 0x227d8cf1, 0xaab1aaaa)
  {
    hide Operations;
    Next(Regs(0x98badcfe, 0xaab1aaaa, 0xd6d117a6, 0xefcdab89), 2, 2, 17, 0x242070db, 0x227d8cf1);
    Next(Regs(0xefcdab89, 0x227d8cf1, 0xaab1aaaa, 0xd6d117a6), 3, 3, 22, 0xc1bdceee, 0x4503b812);
  }

  lemma Pair2()
    requires Operations(WORDS, INITIAL, 4) == Regs(0xd6d117a6, 0x4503b812, 0x227d8cf1, 0xaab1aaaa)
    ensures Operations(WORDS, INITIAL, 6) == Regs(0x227d8cf1, 0xa811b278, 0xfe15f787, 0x4503b812)
  {
    hide Operations;
    Next(Regs(0xd6d117a6, 0x4503b812, 0x227d8cf1, 0xaab1aaaa), 4, 4, 7, 0xf57c0faf, 0xfe15f787);
    Next(Regs(0xaab1aaaa, 0xfe15f787, 0x4503b812, 0x227d8cf1), 5, 5, 12, 0x4787c62a, 0xa811b278);
  }

  lemma Pair3()
    requires Operations(WORDS, INITIAL, 6) == Regs(0x227d8cf1, 0xa811b278, 0xfe15f787, 0x4503b812)
    ensures Operations(WORDS, INITIAL, 8) == Regs(0xfe15f787, 0xda9bbb0d, 0xb71122fc, 0xa811b278)
  {
    hide Operations;
    Next(Regs(0x227d8cf1, 0xa811b278, 0xfe15f787, 0x4503b812), 6, 6, 17, 0xa8304613, 0xb71122fc);
    Next(Regs(0x4503b812, 0xb71122fc, 0xa811b278, 0xfe15f787), 7, 7, 22, 0xfd469501, 0xda9bbb0d);
  }

  lemma Pair4()
    requires Operations(WORDS, INITIAL, 8) == Regs(0xfe15f787, 0xda9bbb0d, 0xb71122fc, 0xa811b278)
    ensures Operations(WORDS, INITIAL, 10) == Regs(0xb71122fc, 0x2bbe757f, 0xae752899, 0xda9bbb0d)
  {
    hide Operations;
    Next(Regs(0xfe15f787, 0xda9bbb0d, 0xb71122fc, 0xa811b278), 8, 8, 7, 0x698098d8, 0xae752899);
    Next(Regs(0xa811b278, 0xae752899, 0xda9bbb0d, 0xb71122fc), 9, 9, 12, 0x8b44f7af, 0x2bbe757f);
  }

  lemma Pair5()
    requires Operations(WORDS, INITIAL, 10) == Regs(0xb71122fc, 0x2bbe757f, 0xae752899, 0xda9bbb0d)
    ensures Operations(WORDS, INITIAL, 12) == Regs(0xae752899, 0x56cfa5cb, 0x7d4bd80b, 0x2bbe757f)
  {
    hide Operations;
    Next(Regs(0xb71122fc, 0x2bbe757f, 0xae752899, 0xda9bbb0d), 10, 10, 17, 0xffff5bb1, 0x7d4bd80b);
    Next(Regs(0xda9bbb0d, 0x7d4bd80b, 0x2bbe757f, 0xae752899), 11, 11, 22, 0x895cd7be, 0x56cfa5cb);
  }

  lemma Pair6()
    requires Operations(WORDS, INITIAL, 12) == Regs(0xae752899, 0x56cfa5cb, 0x7d4bd80b, 0x2bbe757f)
    ensures Operations(WORDS, INITIAL, 14) == Regs(0x7d4bd80b, 0x85567d90, 0x1754a316, 0x56cfa5cb)
  {
    hide Operations;
    Next(Regs(0xae752899, 0x56cfa5cb, 0x7d4bd80b, 0x2bbe757f), 12, 12, 7, 0x6b901122, 0x1754a316);
    Next(Regs(0x2bbe757f, 0x1754a316, 0x56cfa5cb, 0x7d4bd80b), 13, 13, 12, 0xfd987193, 0x85567d90);
  }

  lemma Pair7()
    requires Operations(WORDS, INITIAL, 14) == Regs(0x7d4bd80b, 0x85567d90, 0x1754a316, 0x56cfa5cb)
    ensures Operations(WORDS, INITIAL, 16) == Regs(0x1754a316, 0x608d6b7e, 0x00df74d5, 0x85567d90)
  {
    hide Operations;
    Next(Regs(0x7d4bd80b, 0x85567d90, 0x1754a316, 0x56cfa5cb), 14, 14, 17, 0xa679438e, 0x00df74d5);
    Next(Regs(0x56cfa5cb, 0x00df74d5, 0x85567d90, 0x1754a316), 15, 15, 22, 0x49b40821, 0x608d6b7e);
  }

  lemma Pair8()
    requires Operations(WORDS, INITIAL, 16) == Regs(0x1754a316, 0x608d6b7e, 0x00df74d5, 0x85567d90)
    ensures Operations(WORDS, INITIAL, 18) == Regs(0x00df74d5, 0x5dcee119, 0x2d8071cc, 0x608d6b7e)
  {
    hide Operations;
    Next(Regs(0x1754a316, 0x608d6b7e, 0x00df74d5, 0x85567d90), 16, 1, 5, 0xf61e2562, 0x2d8071cc);
    Next(Regs(0x85567d90, 0x2d8071cc, 0x608d6b7e, 0x00df74d5), 17, 6, 9, 0xc040b340, 0x5dcee119);
  }

  lemma Pair9()
    requires Operations(WORDS, INITIAL, 18) == Regs(0x00df74d5, 0x5dcee119, 0x2d8071cc, 0x608d6b7e)
    ensures Operations(WORDS, INITIAL, 20) == Regs(0x2d8071cc, 0x4c2145b3, 0xedfe7e4b, 0x5dcee119)
  {
    hide Operations;
    Next(Regs(0x00df74d5, 0x5dcee119, 0x2d8071cc, 0x608d6b7e), 18, 11, 14, 0x265e5a51, 0xedfe7e4b);
    Next(Regs(0x608d6b7e, 0xedfe7e4b, 0x5dcee119, 0x2d8071cc), 19, 0, 20, 0xe9b6c7aa, 0x4c2145b3);
  }

  lemma Pair10()
    requires Operations(WORDS, INITIAL, 20) == Regs(0x2d8071cc, 0x4c2145b3, 0xedfe7e4b, 0x5dcee119)
    ensures Operations(WORDS, INITIAL, 22) == Regs(0xedfe7e4b, 0x977efd2a, 0x570c43e0, 0x4c2145b3)
  {
    hide Operations;
    Next(Regs(0x2d8071cc, 0x4c2145b3, 0xedfe7e4b, 0x5dcee119), 20, 5, 5, 0xd62f105d, 0x570c43e0);
    Next(Regs(0x5dcee119, 0x570c43e0, 0x4c2145b3, 0xedfe7e4b), 21, 10, 9, 0x02441453, 0x977efd2a);
  }

  lemma Pair11()
    requires Operations(WORDS, INITIAL, 22) == Regs(0xedfe7e4b, 0x977efd2a, 0x570c43e0, 0x4c2145b3)
    ensures Operations(WORDS, INITIAL, 24) == Regs(0x570c43e0, 0xc9f162d4, 0xc28ab49d, 0x977efd2a)
  {
    hide Operations;
    Next(Regs(0xedfe7e4b, 0x977efd2a, 0x570c43e0, 0x4c2145b3), 22, 15, 14, 0xd8a1e681, 0xc28ab49d);
    Next(Regs(0x4c2145b3, 0xc28ab49d, 0x977efd2a, 0x570c43e0), 23, 4, 20, 0xe7d3fbc8, 0xc9f162d4);
  }

  lemma Pair12()
    requires Operations(WORDS, INITIAL, 24) == Regs(0x570c43e0, 0xc9f162d4, 0xc28ab49d, 0x977efd2a)
    ensures Operations(WORDS, INITIAL, 26) == Regs(0xc28ab49d, 0x89980104, 0x25bfae3b, 0xc9f162d4)
  {
    hide Operations;
    Next(Regs(0x570c43e0, 0xc9f162d4, 0xc28ab49d, 0x977efd2a), 24, 9, 5, 0x21e1cde6, 0x25bfae3b);
    Next(Regs(0x977efd2a, 0x25bfae3b, 0xc9f162d4, 0xc28ab49d), 25, 14, 9, 0xc33707d6, 0x89980104);
  }

  lemma Pair13()
    requires Operations(WORDS, INITIAL, 26) == Regs(0xc28ab49d, 0x89980104, 0x25bfae3b, 0xc9f162d4)
    ensures Operations(WORDS, INITIAL, 28) == Regs(0x25bfae3b, 0xe6d3b398, 0xf8c8365f, 0x89980104)
  {
    hide Operations;
    Next(Regs(0xc28ab49d, 0x89980104, 0x25bfae3b, 0xc9f162d4), 26, 3, 14, 0xf4d50d87, 0xf8c8365f);
    Next(Regs(0xc9f162d4, 0xf8c8365f, 0x89980104, 0x25bfae3b), 27, 8, 20, 0x455a14ed, 0xe6d3b398);
  }

  lemma Pair14()
    requires Operations(WORDS, INITIAL, 28) == Regs(0x25bfae3b, 0xe6d3b398, 0xf8c8365f, 0x89980104)
    ensures Operations(WORDS, INITIAL, 30) == Regs(0xf8c8365f, 0x927b72e2, 0xf54d8710, 0xe6d3b398)
  {
    hide Operations;
    Next(Regs(0x25bfae3b, 0xe6d3b398, 0xf8c8365f, 0x89980104), 28, 13, 5, 0xa9e3e905, 0xf54d8710);
    Next(Regs(0x89980104, 0xf54d8710, 0xe6d3b398, 0xf8c8365f), 29, 2, 9, 0xfcefa3f8, 0x927b72e2);
  }

  lemma Pair15()
    requires Operations(WORDS, INITIAL, 30) == Regs(0xf8c8365f, 0x927b72e2, 0xf54d8710, 0xe6d3b398)
    ensures Operations(WORDS, INITIAL, 32) == Regs(0xf54d8710, 0xaeb35766, 0x2e69afc7, 0x927b72e2)
  {
    hide Operations;
    Next(Regs(0xf8c8365f, 0x927b72e2, 0xf54d8710, 0xe6d3b398), 30, 7, 14, 0x676f02d9, 0x2e69afc7);
    Next(Regs(0xe6d3b398, 0x2e69afc7, 0x927b72e2, 0xf54d8710), 31, 12, 20, 0x8d2a4c8a, 0xaeb35766);
  }

  lemma Pair16()
    requires Operations(WORDS, INITIAL, 32) == Regs(0xf54d8710, 0xaeb35766, 0x2e69afc7, 0x927b72e2)
    ensures Operations(WORDS, INITIAL, 34) == Regs(0x2e69afc7, 0x4c8ffa80, 0xb4bf680e, 0xaeb35766)
  {
    hide Operations;
    Next(Regs(0xf54d8710, 0xaeb35766, 0x2e69afc7, 0x927b72e2), 32, 5, 4, 0xfffa3942, 0xb4bf680e);
    Next(Regs(0x927b72e2, 0xb4bf680e, 0xaeb35766, 0x2e69afc7), 33, 8, 11, 0x8771f681, 0x4c8ffa80);
  }

  lemma Pair17()
    requires Operations(WORDS, INITIAL, 34) == Regs(0x2e69afc7, 0x4c8ffa80, 0xb4bf680e, 0xaeb35766)
    ensures Operations(WORDS, INITIAL, 36) == Regs(0xb4bf680e, 0x06a5e211, 0x2361ed0a, 0x4c8ffa80)
  {
    hide Operations;
    Next(Regs(0x2e69afc7, 0x4c8ffa80, 0xb4bf680e, 0xaeb35766), 34, 11, 16, 0x6d9d6122, 0x2361ed0a);
    Next(Regs(0xaeb35766, 0x2361ed0a, 0x4c8ffa80, 0xb4bf680e), 35, 14, 23, 0xfde5380c, 0x06a5e211);
  }

  lemma Pair18()
    requires Operations(WORDS, INITIAL, 36) == Regs(0xb4bf680e, 0x06a5e211, 0x2361ed0a, 0x4c8ffa80)
    ensures Operations(WORDS, INITIAL, 38) == Regs(0x2361ed0a, 0xf1e6dc7a, 0xb9c0c733, 0x06a5e211)
  {
    hide Operations;
    Next(Regs(0xb4bf680e, 0x06a5e211, 0x2361ed0a, 0x4c8ffa80), 36, 1, 4, 0xa4beea44, 0xb9c0c733);
    Next(Regs(0x4c8ffa80, 0xb9c0c733, 0x06a5e211, 0x2361ed0a), 37, 4, 11, 0x4bdecfa9, 0xf1e6dc7a);
  }

  lemma Pair19()
    requires Operations(WORDS, INITIAL, 38) == Regs(0x2361ed0a, 0xf1e6dc7a, 0xb9c0c733, 0x06a5e211)
    ensures Operations(WORDS, INITIAL, 40) == Regs(0xb9c0c733, 0x8d41bf99, 0x23a9451b, 0xf1e6dc7a)
  {
    hide Operations;
    Next(Regs(0x2361ed0a, 0xf1e6dc7a, 0xb9c0c733, 0x06a5e211), 38, 7, 16, 0xf6bb4b60, 0x23a9451b);
    Next(Regs(0x06a5e211, 0x23a9451b, 0xf1e6dc7a, 0xb9c0c733), 39, 10, 23, 0xbebfbc70, 0x8d41bf99);
  }

  lemma Pair20()
    requires Operations(WORDS, INITIAL, 40) == Regs(0xb9c0c733, 0x8d41bf99, 0x23a9451b, 0xf1e6dc7a)
    ensures Operations(WORDS, INITIAL, 42) == Regs(0x23a9451b, 0x02c0b11c, 0xa3e88ead, 0x8d41bf99)
  {
    hide Operations;
    Next(Regs(0xb9c0c733, 0x8d41bf99, 0x23a9451b, 0xf1e6dc7a), 40, 13, 4, 0x289b7ec6, 0xa3e88ead);
    Next(Regs(0xf1e6dc7a, 0xa3e88ead, 0x8d41bf99, 0x23a9451b), 41, 0, 11, 0xeaa127fa, 0x02c0b11c);
  }

  lemma Pair21()
    requires Operations(WORDS, INITIAL, 42) == Regs(0x23a9451b, 0x02c0b11c, 0xa3e88ead, 0x8d41bf99)
    ensures Operations(WORDS, INITIAL, 44) == Regs(0xa3e88ead, 0x90a35af5, 0x66f6468d, 0x02c0b11c)
  {
    hide Operations;
    Next(Regs(0x23a9451b, 0x02c0b11c, 0xa3e88ead, 0x8d41bf99), 42, 3, 16, 0xd4ef3085, 0x66f6468d);
    Next(Regs(0x8d41bf99, 0x66f6468d, 0x02c0b11c, 0xa3e88ead), 43, 6, 23, 0x04881d05, 0x90a35af5);
  }

  lemma Pair22()
    requires Operations(WORDS, INITIAL, 44) == Regs(0xa3e88ead, 0x90a35af5, 0x66f6468d, 0x02c0b11c)
    ensures Operations(WORDS, INITIAL, 46) == Regs(0x66f6468d, 0xa04b4904, 0xb5d41f9c, 0x90a35af5)
  {
    hide Operations;
    Next(Regs(0xa3e88ead, 0x90a35af5, 0x66f6468d, 0x02c0b11c), 44, 9, 4, 0xd9d4d039, 0xb5d41f9c);
    Next(Regs(0x02c0b11c, 0xb5d41f9c, 0x90a35af5, 0x66f6468d), 45, 12, 11, 0xe6db99e5, 0xa04b4904);
  }

  lemma Pair23()
    requires Operations(WORDS, INITIAL, 46) == Regs(0x66f6468d, 0xa04b4904, 0xb5d41f9c, 0x90a35af5)
    ensures Operations(WORDS, INITIAL, 48) == Regs(0xb5d41f9c, 0x71d10367, 0x703d54d8, 0xa04b4904)
  {
    hide Operations;
    Next(Regs(0x66f6468d, 0xa04b4904, 0xb5d41f9c, 0x90a35af5), 46, 15, 16, 0x1fa27cf8, 0x703d54d8);
    Next(Regs(0x90a35af5, 0x703d54d8, 0xa04b4904, 0xb5d41f9c), 47, 2, 23, 0xc4ac5665, 0x71d10367);
  }

  lemma Pair24()
    requires Operations(WORDS, INITIAL, 48) == Regs(0xb5d41f9c, 0x71d10367, 0x703d54d8, 0xa04b4904)
    ensures Operations(WORDS, INITIAL, 50) == Regs(0x703d54d8, 0x65456b34, 0xfc32dd6e, 0x71d10367)
  {
    hide Operations;
    Next(Regs(0xb5d41f9c, 0x71d10367, 0x703d54d8, 0xa04b4904), 48, 0, 6, 0xf4292244, 0xfc32dd6e);
    Next(Regs(0xa04b4904, 0xfc32dd6e, 0x71d10367, 0x703d54d8), 49, 7, 10, 0x432aff97, 0x65456b34);
  }

  lemma Pair25()
    requires Operations(WORDS, INITIAL, 50) == Regs(0x703d54d8, 0x65456b34, 0xfc32dd6e, 0x71d10367)
    ensures Operations(WORDS, INITIAL, 52) == Regs(0xfc32dd6e, 0x33edb197, 0xb35602cb, 0x65456b34)
  {
    hide Operations;
    Next(Regs(0x703d54d8, 0x65456b34, 0xfc32dd6e, 0x71d10367), 50, 14, 15, 0xab9423a7, 0xb35602cb);
    Next(Regs(0x71d10367, 0xb35602cb, 0x65456b34, 0xfc32dd6e), 51, 5, 21, 0xfc93a039, 0x33edb197);
  }

  lemma Pair26()
    requires Operations(WORDS, INITIAL, 52) == Regs(0xfc32dd6e, 0x33edb197, 0xb35602cb, 0x65456b34)
    ensures Operations(WORDS, INITIAL, 54) == Regs(0xb35602cb, 0xd9bb987c, 0xc1e942f1, 0x33edb197)
  {
    hide Operations;
    Next(Regs(0xfc32dd6e, 0x33edb197, 0xb35602cb, 0x65456b34), 52, 12, 6, 0x655b59c3, 0xc1e942f1);
    Next(Regs(0x65456b34, 0xc1e942f1, 0x33edb197, 0xb35602cb), 53, 3, 10, 0x8f0ccc92, 0xd9bb987c);
  }

  lemma Pair27()
    requires Operations(WORDS, INITIAL, 54) == Regs(0xb35602cb, 0xd9bb987c, 0xc1e942f1, 0x33edb197)
    ensures Operations(WORDS, INITIAL, 56) == Regs(0xc1e942f1, 0x83877d1b, 0x23a68048, 0xd9bb987c)
  {
    hide Operations;
    Next(Regs(0xb35602cb, 0xd9bb987c, 0xc1e942f1, 0x33edb197), 54, 10, 15, 0xffeff47d, 0x23a68048);
    Next(Regs(0x33edb197, 0x23a68048, 0xd9bb987c, 0xc1e942f1), 55, 1, 21, 0x85845dd1, 0x83877d1b);
  }

  lemma Pair28()
    requires Operations(WORDS, INITIAL, 56) == Regs(0xc1e942f1, 0x83877d1b, 0x23a68048, 0xd9bb987c)
    ensures Operations(WORDS, INITIAL, 58) == Regs(0x23a68048, 0x847fc2e7, 0x0077c208, 0x83877d1b)
  {
    hide Operations;
    Next(Regs(0xc1e942f1, 0x83877d1b, 0x23a68048, 0xd9bb987c), 56, 8, 6, 0x6fa87e4f, 0x0077c208);
    Next(Regs(0xd9bb987c, 0x0077c208, 0x83877d1b, 0x23a68048), 57, 15, 10, 0xfe2ce6e0, 0x847fc2e7);
  }

  lemma Pair29()
    requires Operations(WORDS, INITIAL, 58) == Regs(0x23a68048, 0x847fc2e7, 0x0077c208, 0x83877d1b)
    ensures Operations(WORDS, INITIAL, 60) == Regs(0x0077c208, 0x5e6bc930, 0xa3e2247f, 0x847fc2e7)
  {
    hide Operations;
    Next(Regs(0x23a68048, 0x847fc2e7, 0x0077c208, 0x83877d1b), 58, 6, 15, 0xa3014314, 0xa3e2247f);
    Next(Regs(0x83877d1b, 0xa3e2247f, 0x847fc2e7, 0x0077c208), 59, 13, 21, 0x4e0811a1, 0x5e6bc930);
  }

  lemma Pair30()
    requires Operations(WORDS, INITIAL, 60) == Regs(0x0077c208, 0x5e6bc930, 0xa3e2247f, 0x847fc2e7)
    ensures Operations(WORDS, INITIAL, 62) == Regs(0xa3e2247f, 0x2baf1354, 0x708ed9c2, 0x5e6bc930)
  {
    hide Operations;
    Next(Regs(0x0077c208, 0x5e6bc930, 0xa3e2247f, 0x847fc2e7), 60, 4, 6, 0xf7537e82, 0x708ed9c2);
    Next(Regs(0x847fc2e7, 0x708ed9c2, 0x5e6bc930, 0xa3e2247f), 61, 11, 10, 0xbd3af235, 0x2baf1354);
  }

  lemma Pair31()
    requires Operations(WORDS, INITIAL, 62) == Regs(0xa3e2247f, 0x2baf1354, 0x708ed9c2, 0x5e6bc930)
    ensures Operations(WORDS, INITIAL, 64) == Regs(0x708ed9c2, 0x1116e6d8, 0xd38f1e7f, 0x2baf1354)
  {
    hide Operations;
    Next(Regs(0xa3e2247f, 0x2baf1354, 0x708ed9c2, 0x5e6bc930), 62, 2, 15, 0x2ad7d2bb, 0xd38f1e7f);
    Next(Regs(0x5e6bc930, 0xd38f1e7f, 0x2baf1354, 0x708ed9c2), 63, 9, 21, 0xeb86d391, 0x1116e6d8);
  }

  lemma AllOperations()
    ensures Operations(WORDS, INITIAL, 64) == Regs(0x708ed9c2, 0x1116e6d8, 0xd38f1e7f, 0x2baf1354)
  {
    NoOperations(WORDS, INITIAL);
    hide Operations;
    Pair0();
    Pair1();
    Pair2();
    Pair3();
    Pair4();
    Pair5();
    Pair6();
    Pair7();
    Pair8();
    Pair9();
    Pair10();
    Pair11();
    Pair12();
    Pair13();
    Pair14();
    Pair15();
    Pair16();
    Pair17();
    Pair18();
    Pair19();
    Pair20();
    Pair21();
    Pair22();
    Pair23();
    Pair24();
    Pair25();
    Pair26();
    Pair27();
    Pair28();
    Pair29();
    Pair30();
    Pair31();
  }

  lemma AlphabetPadded()
    ensures var p := Padded(ALPHABET);
            |p| == 64 && p[..26] == ALPHABET && p[26] == 0x80 && (forall k | 27 <= k < 56 :: p[k] == 0)
            && p[56..] == [0xd0, 0, 0, 0, 0, 0, 0, 0]
  {
    assert BitsLow(26) == 208 && BitsHigh(26) == 0;
    LengthIs208();
    hide LengthBytes;
  }

  lemma LengthIs208()
    ensures BytesOfAll([208, 0]) == [0xd0, 0, 0, 0, 0, 0, 0, 0]
  {
    assert [208 as word, 0][..1] == [208] && [208 as word][..0] == [];
    assert BytesOf(208) == [0xd0, 0, 0, 0] && BytesOf(0) == [0, 0, 0, 0];
    hide BytesOf;
  }

  lemma AlphabetBytes(p: seq<byte>)
    requires p == Padded(ALPHABET)
    ensures |p| == 64 && p[26] == 0x80 && p[56] == 0xd0 && forall k | 27 <= k < 64 && k != 56 :: p[k] == 0
    ensures p[..26] == ALPHABET
  {
    AlphabetPadded();
    hide Padded;
    assert forall k | 56 <= k < 64 :: p[k] == p[56..][k - 56];
  }

  lemma FrontWords(p: seq<byte>)
    requires |p| == 64 && p[..26] == ALPHABET
    ensures WordOf(p[0], p[1], p[2], p[3]) == 0x64636261
    ensures WordOf(p[4], p[5], p[6], p[7]) == 0x68676665
  {
    assert p[0] == p[..26][0] && p[1] == p[..26][1] && p[2] == p[..26][2] && p[3] == p[..26][3];
    assert p[4] == p[..26][4] && p[5] == p[..26][5] && p[6] == p[..26][6] && p[7] == p[..26][7];
    Literals();
    hide WordOf;
  }

  lemma ThirdWord(p: seq<byte>)
    requires |p| == 64 && p[..26] == ALPHABET
    ensures WordOf(p[8], p[9], p[10], p[11]) == 0x6c6b6a69
  {
    assert p[8] == p[..26][8] && p[9] == p[..26][9] && p[10] == p[..26][10] && p[11] == p[..26][11];
    Literals();
    hide WordOf;
  }

  lemma MiddleWords(p: seq<byte>)
    requires |p| == 64 && p[..26] == ALPHABET
    ensures WordOf(p[12], p[13], p[14], p[15]) == 0x706f6e6d
    ensures WordOf(p[16], p[17], p[18], p[19]) == 0x74737271
  {
    assert p[12] == p[..26][12] && p[13] == p[..26][13] && p[14] == p[..26][14] && p[15] == p[..26][15];
    assert p[16] == p[..26][16] && p[17] == p[..26][17] && p[18] == p[..26][18] && p[19] == p[..26][19];
    Literals();
    hide WordOf;
  }

  lemma LastWords(p: seq<byte>)
    requires |p| == 64 && p[..26] == ALPHABET && p[26] == 0x80 && p[27] == 0
    ensures WordOf(p[20], p[21], p[22], p[23]) == 0x78777675
    ensures WordOf(p[24], p[25], p[26], p[27]) == 0x00807a79
  {
    assert p[20] == p[..26][20] && p[21] == p[..26][21] && p[22] == p[..26][22] && p[23] == p[..26][23];
    assert p[24] == p[..26][24] && p[25] == p[..26][25];
    Literals();
    hide WordOf;
  }

  lemma Literals()
    ensures WordOf(0x61, 0x62, 0x63, 0x64) == 0x64636261 && WordOf(0x65, 0x66, 0x67, 0x68) == 0x68676665
    ensures WordOf(0x69, 0x6a, 0x6b, 0x6c) == 0x6c6b6a69 && WordOf(0x6d, 0x6e, 0x6f, 0x70) == 0x706f6e6d
    ensures WordOf(0x71, 0x72, 0x73, 0x74) == 0x74737271 && WordOf(0x75, 0x76, 0x77, 0x78) == 0x78777675
    ensures WordOf(0x79, 0x7a, 0x80, 0) == 0x00807a79
  {
  }

  lemma AlphabetWords()
    ensures |Padded(ALPHABET)| == 64 && WordsOf(Padded(ALPHABET)) == WORDS
  {
    var p := Padded(ALPHABET);
    AlphabetBytes(p);
    FrontWords(p);
    ThirdWord(p);
    MiddleWords(p);
    LastWords(p);
    EndWords(p);
    hide Padded, ALPHABET, WordOf;
    SameWords(WordsOf(p));
  }

  lemma EndWords(p: seq<byte>)
    requires |p| == 64 && p[56] == 0xd0 && forall k | 27 <= k < 64 && k != 56 :: p[k] == 0
    ensures WordOf(p[56], p[57], p[58], p[59]) == 0xd0
    ensures forall i | 7 <= i < 16 && i != 14 :: WordOf(p[4 * i], p[4 * i + 1], p[4 * i + 2], p[4 * i + 3]) == 0
  {
  }

  lemma SameWords(w: Block)
    requires w[0] == 0x64636261 && w[1] == 0x68676665 && w[2] == 0x6c6b6a69 && w[3] == 0x706f6e6d
    requires w[4] == 0x74737271 && w[5] == 0x78777675 && w[6] == 0x00807a79 && w[14] == 0xd0
    requires forall i | 7 <= i < 16 && i != 14 :: w[i] == 0
    ensures w == WORDS
  {
  }

  lemma {:induction false} HexJoins(d: seq<byte>, e: seq<byte>)
    ensures Hex(d + e) == Hex(d) + Hex(e)
  {
    hide HexDigit;
    if e == [] {
      assert d + e == d;
    } else {
      assert (d + e)[..|d + e| - 1] == d + e[..|e| - 1];
      HexJoins(d, e[..|e| - 1]);
    }
  }

  lemma HexTwo(b: byte, c: byte)
    ensures Hex([b, c]) == [HexDigit(b as nat / 16), HexDigit(b as nat % 16),
                            HexDigit(c as nat / 16), HexDigit(c as nat % 16)]
  {
    hide HexDigit;
    assert Hex([b]) == Hex([]) + [HexDigit(b as nat / 16), HexDigit(b as nat % 16)] by {
      assert [b][..0] == [];
    }
    assert [b, c][..1] == [b];
  }

  lemma HexFour(b0: byte, b1: byte, b2: byte, b3: byte)
    ensures Hex([b0, b1, b2, b3]) == Hex([b0, b1]) + Hex([b2, b3])
  {
    HexJoins([b0, b1], [b2, b3]);
    assert [b0, b1] + [b2, b3] == [b0, b1, b2, b3];
  }

  lemma HexOfFour()
    ensures Hex([0xc3, 0xfc, 0xd3, 0xd7]) == "c3fcd3d7" && Hex([0x61, 0x92, 0xe4, 0x00]) == "6192e400"
    ensures Hex([0x7d, 0xfb, 0x49, 0x6c]) == "7dfb496c" && Hex([0xca, 0x67, 0xe1, 0x3b]) == "ca67e13b"
  {
    HexFour(0xc3, 0xfc, 0xd3, 0xd7);
    HexFour(0x61, 0x92, 0xe4, 0x00);
    HexFour(0x7d, 0xfb, 0x49, 0x6c);
    HexFour(0xca, 0x67, 0xe1, 0x3b);
    hide Hex;
    HexTwo(0xc3, 0xfc);
    HexTwo(0xd3, 0xd7);
    HexTwo(0x61, 0x92);
    HexTwo(0xe4, 0x00);
    HexTwo(0x7d, 0xfb);
    HexTwo(0x49, 0x6c);
    HexTwo(0xca, 0x67);
    HexTwo(0xe1, 0x3b);
  }

  lemma DigestBytes()
    ensures Digest(ALPHABET)
            == [0xc3, 0xfc, 0xd3, 0xd7] + [0x61, 0x92, 0xe4, 0x00] + [0x7d, 0xfb, 0x49, 0x6c] + [0xca, 0x67, 0xe1, 0x3b]
  {
    AlphabetWords();
    AllOperations();
    hide Operations, Padded, WordsOf, ALPHABET;
    var p := Padded(ALPHABET);
    assert p[0..64] == p;
    var r := Compress(INITIAL, p);
    assert Fold(INITIAL, p, 0) == INITIAL && Fold(INITIAL, p, 1) == r;
    assert r == Regs(0xd7d3fcc3, 0x00e49261, 0x6c49fb7d, 0x3be167ca);
    hide Compress, Fold;
    FourWords(r.a, r.b, r.c, r.d);
    assert BytesOf(0xd7d3fcc3) == [0xc3, 0xfc, 0xd3, 0xd7] && BytesOf(0x00e49261) == [0x61, 0x92, 0xe4, 0x00];
    assert BytesOf(0x6c49fb7d) == [0x7d, 0xfb, 0x49, 0x6c] && BytesOf(0x3be167ca) == [0xca, 0x67, 0xe1, 0x3b];
  }

  lemma FourWords(a: word, b: word, c: word, d: word)
    ensures BytesOfAll([a, b, c, d]) == BytesOf(a) + BytesOf(b) + BytesOf(c) + BytesOf(d)
  {
    hide BytesOf;
    var none: seq<word> := [];
    assert [a][..0] == none && BytesOfAll(none) == [];
    assert BytesOfAll([a]) == BytesOf(a);
    assert [a, b][..1] == [a];
    assert BytesOfAll([a, b]) == BytesOf(a) + BytesOf(b);
    assert [a, b, c][..2] == [a, b];
    assert BytesOfAll([a, b, c]) == BytesOf(a) + BytesOf(b) + BytesOf(c);
    assert [a, b, c, d][..3] == [a, b, c];
  }

  /** The example of the appendix. */
  lemma AlphabetDigest()
    ensures Hex(Digest(ALPHABET)) == "c3fcd3d76192e4007dfb496cca67e13b"
  {
    DigestBytes();
    HexOfFour();
    hide Digest, Hex;
    var a, b, c, d: seq<byte> := [0xc3, 0xfc, 0xd3, 0xd7], [0x61, 0x92, 0xe4, 0x00], [0x7d, 0xfb, 0x49, 0x6c],
                                 [0xca, 0x67, 0xe1, 0x3b];
    HexJoins(a, b);
    HexJoins(a + b, c);
    HexJoins(a + b + c, d);
  }

  /** Both implementations give the example. */
  method AlphabetHashed() returns (s: string, t: string)
    ensures s == t == "c3fcd3d76192e4007dfb496cca67e13b"
  {
    hide Digest, Hex, Md5Agreement.BeforeNul;
    AlphabetDigest();
    assert |ALPHABET| == 26 && 0 !in ALPHABET;
    Md5Agreement.NoNul(ALPHABET);
    hide ALPHABET;
    s := Md5Agreement.MD5String(ALPHABET);
    t := Md5Agreement.Md5HashHex(ALPHABET);
  }
}
